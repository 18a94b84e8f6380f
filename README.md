# Game of Life simulation engine in Dafny

This project models the simulation core of a Rust implementation of Conway's Game of Life. The board is a torus of 128 × 72 cells. It is stored as a flat, row-major `bool` array indexed by `y*W + x`. Each cell has eight neighbours, and their coordinates wrap at the edges with a Euclidean remainder. The board keeps a timer. When a call to `update` pushes the timer past 1/15 s, the board runs one generation of the B3/S23 rule, in two phases:

- a scan over the unmodified grid fills a death list and a birth list;
- a commit drains both lists into the grid.

Before each tick, the application writes one cell under the mouse cursor: a left press makes it alive, otherwise a right press makes it dead. If the application is paused, it stops after that write.

The project has four modules:

- `Torus` (`torus.dfy`): the constants `W = 128` and `H = 72`, coordinates and the flat index. It also holds Euclidean wrapping, the eight neighbour offsets in the order the source visits them, and the facts about them: they are in range, pairwise distinct, never the cell itself, and exactly the torus-adjacent cells.
- `Rules` (`rules.dfy`): the specification on values, where a grid is a `seq<bool>` of length `W*H`. It defines the neighbour count, the Life rule, the next generation `NextGen`, single-cell writes and list painting, with lemmas about them: commit order, commit = next generation, counting of painted cells, and a lone cell dying.
- `Clock` (`clock.dfy`): the accumulate-then-subtract timer on exact reals, and lemmas about runs of several update calls.
- `Game` (`board.dfy`): the state that changes in place.
  - `Board` is a class with the `array<bool>` grid, the `real` timer and the two pending lists (`seq<Coord>`). `get_cell` is a function, and `set_cell` and `update` are methods. `get_alive_neighbors` and the scan and drain phases of `update` are methods whose loops carry invariants.
  - `App` is a class holding a `Board` and the `paused` flag.
  - Every method is proved against the `Rules`/`Clock` functions. For example, `Board.Update` leaves `grid[..] == NextGen(old(grid[..]))` when the timer fires, and leaves the grid unchanged otherwise.

The timer has one easily misread edge. Frame times adding up to exactly one interval do not trigger a generation. The code returns while `timer <= UPDATE_TIME_IN_SECONDS`, so a generation runs only once the timer is strictly past the interval. The model follows the code (`Clock.ExactIntervalDoesNotFire`).

## Model

| member | source | states |
|---|---|---|
| Torus.Index | src/main.rs:60-66 | for 0 ≤ x < W, 0 ≤ y < H the flat index `y*W + x` lies in [0, W*H), and x and y can be read back from it by remainder and quotient |
| Torus.IndexInjective | src/main.rs:60-66 | two in-range coordinates share an array slot iff they are the same coordinate |
| Torus.Wrap | src/main.rs:77-80 | a coordinate wrapped with `rem_euclid` lies in [0,W)×[0,H) and is congruent to the unwrapped one on each axis |
| Torus.WrapAtEdges | src/main.rs:77-80 | offset −1 at column 0 or row 0 wraps to W−1 or H−1, and +1 at the last column or row wraps to 0 |
| Torus.OffsetsAreTheNeighbourhood | src/main.rs:71-75 | the visited offsets are exactly the non-zero offsets of the 3×3 block, each visited once |
| Torus.Neighbours | src/main.rs:71-80 | eight neighbour coordinates, the k-th being the cell wrapped by the k-th offset |
| Torus.WrapInjective | src/main.rs:77-80 | on a torus at least 3 cells wide and high, two offsets in −1..1 wrap to the same cell iff they are equal |
| Torus.NeighboursDistinct | src/main.rs:68-89 | the eight neighbours of an in-range cell are pairwise distinct and never the cell itself |
| Torus.NeighboursAreAdjacent | src/main.rs:68-89 | a coordinate is a neighbour of c iff it is in range, differs from c, and is within one wrapped step of c on both axes |
| Rules.CountLive | src/main.rs:82-84 | the count of live cells in a list is at most its length, and is 0 iff none of them is alive |
| Rules.NeighbourCount | src/main.rs:68-89 | the neighbour count lies in [0, 8], so the `panic!` arm of the scan cannot be reached |
| Rules.NeighbourCountIsLiveAdjacent | src/main.rs:68-89 | the neighbour count equals the number of live torus-adjacent cells; the cell itself is never counted |
| Rules.LifeRule | src/main.rs:103-119 | the rule partitions neighbour counts as the source's match arms do: a live cell dies at 0–1 and at 4 or more, survives at 2–3, and a dead cell is born iff the count is 3 |
| Rules.NextGen | src/main.rs:97-137 | the reference next generation: every in-range cell equals the Life rule applied to that cell and its neighbour count, both taken on the previous grid |
| Rules.NextGenAt | src/main.rs:103-119 | in the next generation a live cell is alive iff it had 2 or 3 live neighbours, and a dead cell is alive iff it had exactly 3 |
| Rules.WithCell | src/main.rs:60-66 | after writing v at c, reading c gives v and every other cell reads as before |
| Rules.Paint | src/main.rs:123-137 | the grid after a drain loop writes v at each listed coordinate in turn; every listed cell ends holding v |
| Rules.PaintAt | src/main.rs:123-137 | after a drain loop writes v at every listed coordinate, each listed cell holds v and every other cell is unchanged |
| Rules.CommitOrderImmaterial | src/main.rs:123-137 | when no coordinate is both scheduled to die and to be born, draining deaths first or births first gives the same grid |
| Rules.CommitIsNextGen | src/main.rs:97-137 | draining exactly the scheduled deaths and then the scheduled births turns the grid into its next generation |
| Rules.PaintedCellIsCounted | src/main.rs:191-201 | painting a cell alive rather than dead raises the neighbour count of each torus-adjacent cell by one and of no other cell |
| Rules.LoneCellDies | src/main.rs:103-121 | a single live cell on an otherwise dead board dies, and no cell is born |
| Clock.Tick | src/main.rs:92-139 | one update call fires iff the accumulated timer exceeds the interval, and the new timer plus the interval subtracted (if fired) equals the old timer plus the frame time |
| Clock.TickKeepsRemainder | src/main.rs:92-139 | restates Tick's policy for a run of one call: at most one generation, run only when the accumulated timer exceeds the interval, with the excess kept |
| Clock.OneGenerationPerCall | src/main.rs:92-139 | an elapsed time of more than two intervals still runs one generation and leaves the timer past the interval |
| Clock.QuietTicks | src/main.rs:92-95 | non-negative frame times that keep the timer at or below the interval run no generation, however many calls, and only accumulate the timer |
| Clock.FirstCrossingRunsOneGeneration | src/main.rs:92-139 | quiet frames followed by the frame that crosses the interval run exactly one generation and carry the excess over |
| Clock.ExactIntervalDoesNotFire | src/main.rs:93-95 | frame times adding up to exactly the interval run no generation |
| Game.ApplyMouse | src/main.rs:191-195 | a left press makes the cursor cell alive, otherwise a right press makes it dead, no press changes nothing, and no other cell changes |
| Game.Board.constructor | src/main.rs:45-58 | the grid holds the supplied initial cells, the timer is 0 and both lists are empty |
| Game.Board.GetCell | src/main.rs:64-66 | returns the state of cell c of the grid |
| Game.Board.SetCell | src/main.rs:60-62 | cell c now holds the new state and every other cell is unchanged |
| Game.Board.CountNeighbours | src/main.rs:68-89 | the nested loops return the number of live cells among the eight wrapped neighbours, at most 8 |
| Game.Board.Scan | src/main.rs:97-121 | afterwards the death list holds exactly the live cells the rule kills and the birth list holds exactly the dead cells it revives; so the lists are disjoint, and the grid is not written |
| Game.Board.Commit | src/main.rs:123-137 | the grid becomes the old grid with the listed deaths and then the listed births written in, and both lists end empty |
| Game.Board.Update | src/main.rs:91-140 | when the timer does not pass the interval the grid is unchanged; otherwise the grid becomes exactly one next generation of the old grid; the timer is accumulated minus the interval if fired; both lists are empty on return |
| Game.App.Update | src/main.rs:185-202 | the mouse edit is written before the pause check and before the tick; when paused only the cursor cell can change; otherwise the tick's next generation is computed from the edited grid |

## Left out

- Window creation, OpenGL drawing (`Board::draw`, `App::render`) and the piston event loop in `main`, including the keyboard and mouse event handling. These are GUI and platform glue.
- The random initial fill with `gen_bool(0.5)`. It is a foreign random-number call, so `Board`'s constructor takes the initial cells as a parameter.
- Floating-point timer arithmetic. The timer is an exact `real`, so the model makes no claim about drift under `f64` rounding. Only the accumulate, compare, subtract-once logic is modelled.
- The conversion of the cursor position from pixels to cells (`f64 as i32` casts and division by the cell size). The grid coordinate is a parameter. `Game.App.Update` requires it to be in range whenever a button is pressed, because the source never checks it.
- Game.Board.SetCell: requires an in-range coordinate. In the source, an out-of-range x with an in-range flat index silently writes another cell, and a flat index outside [0, W*H) panics (a negative one, or one of W*H or more such as y = 72 with x ≥ 0). Neither case is modelled.
- 32-bit integer arithmetic on coordinates. Every coordinate the core computes is between −1 and 128, so no `i32` operation can overflow.
- The internal order of `LinkedList`. The pending lists are sequences appended at the back and popped at the front, as in the source. Their order is never observed. Within one list, the painted grid depends only on which coordinates are listed (`Rules.PaintAt`). Between the two lists, deaths first or births first give the same grid (`Rules.CommitOrderImmaterial`).
- The grid size is fixed at 128 × 72, as in the source. Other sizes are not modelled. The neighbour-distinctness facts hold because both sizes are at least 3.
- The four-generation glider property. Evaluating a concrete 9,216-cell board for several generations is beyond what the verifier can do here. The single-cell case is proved instead (`Rules.LoneCellDies`).
