/** The simulation engine: the Board with its flat cell array, timer and the
    two pending-change lists, and the App that paints with the mouse before
    advancing the board. */
module Game {
  import opened Torus
  import opened Rules
  import opened Clock

  /** Mouse state, with the cursor already converted to a grid coordinate. */
  datatype MouseInfo = MouseInfo(leftPressed: bool, rightPressed: bool, position: Coord)

  /** The grid after the mouse edit of App::update: a left press paints the
      cell under the cursor alive, otherwise a right press paints it dead. */
  function ApplyMouse(g: seq<bool>, mouse: MouseInfo): (r: seq<bool>)
    requires IsGrid(g)
    requires mouse.leftPressed || mouse.rightPressed ==> InBounds(mouse.position)
    ensures IsGrid(r)
    ensures mouse.leftPressed ==> Cell(r, mouse.position)
    ensures !mouse.leftPressed && mouse.rightPressed ==> !Cell(r, mouse.position)
    ensures !mouse.leftPressed && !mouse.rightPressed ==> r == g
    ensures forall d :: InBounds(d) && d != mouse.position ==> Cell(r, d) == Cell(g, d)
  {
    if mouse.leftPressed then WithCell(g, mouse.position, true)
    else if mouse.rightPressed then WithCell(g, mouse.position, false)
    else g
  }

  /** Whether the row-major scan of Board::update has visited c before reaching (x, y). */
  predicate ScannedBefore(c: Coord, y: int, x: int) {
    c.y < y || (c.y == y && c.x < x)
  }

  /** One scan step keeps a pending list equal to the scanned cells selected by wanted. */
  lemma ScanStep(list: seq<Coord>, wanted: Coord -> bool, y: int, x: int, add: bool)
    requires forall c :: c in list <==> wanted(c) && ScannedBefore(c, y, x)
    requires add == wanted(Coord(x, y))
    ensures forall c :: c in (if add then list + [Coord(x, y)] else list) <==> wanted(c) && ScannedBefore(c, y, x + 1)
  {
  }

  /** A scan that has passed the end of row y has visited rows 0..y. */
  lemma RowDone(list: seq<Coord>, wanted: Coord -> bool, y: int)
    requires forall c :: c in list <==> wanted(c) && ScannedBefore(c, y, W)
    requires forall c :: wanted(c) ==> InBounds(c)
    ensures forall c :: c in list <==> wanted(c) && ScannedBefore(c, y + 1, 0)
  {
  }

  class Board {
    var grid: array<bool>
    var timer: real
    var deadList: seq<Coord>
    var aliveList: seq<Coord>

    /** The grid has one slot per cell. */
    ghost predicate Shaped()
      reads this
    {
      grid.Length == Size
    }

    /** Between calls both pending-change lists are empty. */
    ghost predicate Valid()
      reads this
    {
      Shaped() && deadList == [] && aliveList == []
    }

    /** Board::new, with the random initial cells supplied as init. */
    constructor (init: seq<bool>)
      requires IsGrid(init)
      ensures Valid() && fresh(grid)
      ensures grid[..] == init && timer == 0.0
    {
      grid := new bool[Size](i requires 0 <= i < Size => init[i]);
      timer := 0.0;
      deadList := [];
      aliveList := [];
    }

    function GetCell(c: Coord): (alive: bool)
      reads this, grid
      requires Shaped() && InBounds(c)
      ensures alive == Cell(grid[..], c)
    {
      grid[c.y * W + c.x]
    }

    method SetCell(c: Coord, alive: bool)
      requires Shaped() && InBounds(c)
      modifies grid
      ensures grid[..] == WithCell(old(grid[..]), c, alive)
      ensures Cell(grid[..], c) == alive
      ensures forall d :: InBounds(d) && d != c ==> Cell(grid[..], d) == Cell(old(grid[..]), d)
    {
      grid[c.y * W + c.x] := alive;
    }

    /** get_alive_neighbors: visits the 3x3 block around c row by row,
        skipping c itself, and counts the live wrapped neighbours. */
    method CountNeighbours(c: Coord) returns (n: nat)
      requires Shaped()
      ensures n == NeighbourCount(grid[..], c) && n <= 8
    {
      ghost var g, ns := grid[..], Neighbours(c);
      n := 0;
      for dy := -1 to 2
        invariant n == CountLive(g, ns[..VisitedBefore(dy, -1)])
      {
        for dx := -1 to 2
          invariant n == CountLive(g, ns[..VisitedBefore(dy, dx)])
        {
          VisitedBeforeSteps(dy, dx);
          if dx == 0 && dy == 0 {
            continue;
          }
          var cellCoord := Coord((c.x + dx) % W, (c.y + dy) % H);
          VisitNeighbour(g, c, dy, dx);
          if GetCell(cellCoord) {
            n := n + 1;
          }
        }
        VisitedBeforeSteps(dy, -1);
      }
      assert ns[..8] == ns;
    }

    /** The scan half of Board::update: reads every cell of the unmodified
        grid and records the cells to die and to be born. */
    method Scan()
      requires Valid()
      modifies this`deadList, this`aliveList
      ensures forall c :: c in deadList <==> DiesNext(grid[..], c)
      ensures forall c :: c in aliveList <==> BornNext(grid[..], c)
      ensures forall c :: c in deadList ==> c !in aliveList
    {
      ghost var g := grid[..];
      ghost var dies := c => DiesNext(g, c);
      ghost var born := c => BornNext(g, c);
      for y := 0 to H
        invariant forall c :: c in deadList <==> dies(c) && ScannedBefore(c, y, 0)
        invariant forall c :: c in aliveList <==> born(c) && ScannedBefore(c, y, 0)
      {
        for x := 0 to W
          invariant forall c :: c in deadList <==> dies(c) && ScannedBefore(c, y, x)
          invariant forall c :: c in aliveList <==> born(c) && ScannedBefore(c, y, x)
        {
          var coord := Coord(x, y);
          var alive := GetCell(coord);
          var liveNeighbours := CountNeighbours(coord);
          ScanStep(deadList, dies, y, x, alive && !LifeRule(true, liveNeighbours));
          ScanStep(aliveList, born, y, x, !alive && LifeRule(false, liveNeighbours));
          if alive {
            if liveNeighbours <= 1 {
              deadList := deadList + [coord];
            } else if liveNeighbours <= 3 {
            } else if liveNeighbours <= 8 {
              deadList := deadList + [coord];
            } else {
              assert false;
            }
          } else if liveNeighbours == 3 {
            aliveList := aliveList + [coord];
          }
        }
        RowDone(deadList, dies, y);
        RowDone(aliveList, born, y);
      }
    }

    /** The commit half of Board::update: drains the death list, then the
        birth list, into the grid. */
    method Commit()
      requires Shaped() && AllInBounds(deadList) && AllInBounds(aliveList)
      modifies this`deadList, this`aliveList, grid
      ensures deadList == [] && aliveList == []
      ensures grid[..] == Paint(Paint(old(grid[..]), old(deadList), false), old(aliveList), true)
    {
      ghost var deaths, births := deadList, aliveList;
      ghost var g0 := grid[..];
      ghost var k := 0;
      while deadList != []
        invariant 0 <= k <= |deaths| && deadList == deaths[k..] && aliveList == births
        invariant grid[..] == Paint(g0, deaths[..k], false)
      {
        var coord := deadList[0];
        deadList := deadList[1..];
        assert deaths[..k + 1] == deaths[..k] + [coord];
        SetCell(coord, false);
        k := k + 1;
      }
      assert deaths[..k] == deaths;
      ghost var g1 := grid[..];
      k := 0;
      while aliveList != []
        invariant 0 <= k <= |births| && aliveList == births[k..] && deadList == []
        invariant grid[..] == Paint(g1, births[..k], true)
      {
        var coord := aliveList[0];
        aliveList := aliveList[1..];
        assert births[..k + 1] == births[..k] + [coord];
        SetCell(coord, true);
        k := k + 1;
      }
      assert births[..k] == births;
    }

    /** Board::update: accumulates dt and, once the timer is past the interval,
        advances the grid by exactly one generation of the Life rule. */
    method Update(dt: real)
      requires Valid()
      modifies this, grid
      ensures Valid() && grid == old(grid)
      ensures timer == Tick(old(timer), dt).timer
      ensures Tick(old(timer), dt).fires ==> grid[..] == NextGen(old(grid[..]))
      ensures !Tick(old(timer), dt).fires ==> grid[..] == old(grid[..])
    {
      timer := timer + dt;
      if timer <= UpdateTime {
        return;
      }
      ghost var g := grid[..];
      Scan();
      CommitIsNextGen(g, deadList, aliveList);
      Commit();
      timer := timer - UpdateTime;
    }
  }

  class App {
    var board: Board
    var paused: bool

    ghost predicate Valid()
      reads this, board
    {
      board.Valid()
    }

    constructor (init: seq<bool>)
      requires IsGrid(init)
      ensures Valid() && fresh(board) && fresh(board.grid)
      ensures board.grid[..] == init && board.timer == 0.0 && !paused
    {
      board := new Board(init);
      paused := false;
    }

    /** App::update: the mouse edit is written first, then a paused app stops;
        otherwise the board updates from the edited grid. */
    method Update(dt: real, mouse: MouseInfo)
      requires Valid()
      requires mouse.leftPressed || mouse.rightPressed ==> InBounds(mouse.position)
      modifies board, board.grid
      ensures Valid() && board == old(board) && board.grid == old(board.grid)
      ensures paused ==> board.grid[..] == ApplyMouse(old(board.grid[..]), mouse)
      ensures paused ==> board.timer == old(board.timer)
      ensures !paused ==> board.timer == Tick(old(board.timer), dt).timer
      ensures !paused && Tick(old(board.timer), dt).fires
        ==> board.grid[..] == NextGen(ApplyMouse(old(board.grid[..]), mouse))
      ensures !paused && !Tick(old(board.timer), dt).fires
        ==> board.grid[..] == ApplyMouse(old(board.grid[..]), mouse)
    {
      ghost var painted := ApplyMouse(board.grid[..], mouse);
      if mouse.leftPressed {
        board.SetCell(mouse.position, true);
      } else if mouse.rightPressed {
        board.SetCell(mouse.position, false);
      }
      assert board.grid[..] == painted;
      if paused {
        return;
      }
      board.Update(dt);
    }
  }
}
