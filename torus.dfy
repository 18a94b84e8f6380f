/** Geometry of the Life board: a fixed W x H torus of cells stored row-major
    in a flat array, and the eight wrapped neighbour coordinates of a cell. */
module Torus {

  /** Board width and height in cells (GRID_SIZE). */
  const W: int := 128
  const H: int := 72

  /** Number of cells in the flat grid. */
  const Size: int := W * H

  /** A grid coordinate (Vec2i); components are unbounded here, see InBounds. */
  datatype Coord = Coord(x: int, y: int)

  predicate InBounds(c: Coord) {
    0 <= c.x < W && 0 <= c.y < H
  }

  /** Row-major flat index of an in-range coordinate, as used by set_cell and get_cell. */
  function Index(c: Coord): (i: int)
    requires InBounds(c)
    ensures 0 <= i < Size
    ensures i % W == c.x && i / W == c.y
  {
    c.y * W + c.x
  }

  /** The coordinate stored at flat position i. */
  function CoordOf(i: int): (c: Coord)
    requires 0 <= i < Size
    ensures InBounds(c) && Index(c) == i
  {
    Coord(i % W, i / W)
  }

  /** Distinct in-range coordinates occupy distinct array slots. */
  lemma IndexInjective(c: Coord, d: Coord)
    requires InBounds(c) && InBounds(d)
    ensures Index(c) == Index(d) <==> c == d
  {
  }

  /** Index and CoordOf are inverse to each other. */
  lemma CoordOfIndex(c: Coord)
    requires InBounds(c)
    ensures CoordOf(Index(c)) == c
  {
  }

  /** Coordinate reached from c by the offset (dx, dy), each component wrapped
      with a Euclidean remainder (rem_euclid) so that it lands on the board. */
  function Wrap(c: Coord, dx: int, dy: int): (r: Coord)
    ensures InBounds(r)
    ensures (r.x - (c.x + dx)) % W == 0 && (r.y - (c.y + dy)) % H == 0
  {
    Coord((c.x + dx) % W, (c.y + dy) % H)
  }

  /** Stepping left from column 0 or up from row 0 reaches the opposite edge. */
  lemma WrapAtEdges(y: int, x: int)
    ensures Wrap(Coord(0, y), -1, 0).x == W - 1
    ensures Wrap(Coord(x, 0), 0, -1).y == H - 1
    ensures Wrap(Coord(W - 1, y), 1, 0).x == 0
    ensures Wrap(Coord(x, H - 1), 0, 1).y == 0
  {
  }

  /** The offsets get_alive_neighbors visits, in its order: rows dy = -1, 0, 1,
      within a row dx = -1, 0, 1, with (0, 0) skipped. */
  const Offsets: seq<(int, int)> :=
    [(-1, -1), (0, -1), (1, -1),
     (-1, 0),           (1, 0),
     (-1, 1),  (0, 1),  (1, 1)]

  /** Offsets holds each non-zero offset of the 3x3 block around a cell exactly once. */
  lemma OffsetsAreTheNeighbourhood(dx: int, dy: int)
    ensures (dx, dy) in Offsets <==> -1 <= dx <= 1 && -1 <= dy <= 1 && (dx, dy) != (0, 0)
    ensures forall k, l :: 0 <= k < l < |Offsets| ==> Offsets[k] != Offsets[l]
  {
  }

  /** Number of offsets the nested loops of get_alive_neighbors have visited
      on reaching the loop position (dy, dx), with dx running from -1 to 2;
      (2, -1) is the position after the last row. */
  function VisitedBefore(dy: int, dx: int): (k: int)
    requires (-1 <= dy <= 1 && -1 <= dx <= 2) || (dy == 2 && dx == -1)
    ensures 0 <= k <= |Offsets|
    ensures dy <= 1 && dx < 2 && (dx, dy) != (0, 0) ==> k < |Offsets| && Offsets[k] == (dx, dy)
    ensures dy == -1 && dx == -1 ==> k == 0
    ensures dy == 2 ==> k == |Offsets|
  {
    3 * (dy + 1) + (dx + 1) - (if dy > 0 || (dy == 0 && dx > 0) then 1 else 0)
  }

  /** Visiting a non-centre offset advances the count by one, skipping the
      centre does not advance it, and finishing a row continues with the next. */
  lemma VisitedBeforeSteps(dy: int, dx: int)
    requires -1 <= dy <= 1 && -1 <= dx <= 1
    ensures (dx, dy) != (0, 0) ==> VisitedBefore(dy, dx + 1) == VisitedBefore(dy, dx) + 1
    ensures (dx, dy) == (0, 0) ==> VisitedBefore(dy, dx + 1) == VisitedBefore(dy, dx)
    ensures VisitedBefore(dy, 2) == VisitedBefore(dy + 1, -1)
  {
  }

  /** The eight wrapped neighbour coordinates of c, in visiting order. */
  function Neighbours(c: Coord): (ns: seq<Coord>)
    ensures |ns| == |Offsets| == 8
    ensures forall k :: 0 <= k < 8 ==> ns[k] == Wrap(c, Offsets[k].0, Offsets[k].1)
  {
    seq(8, k requires 0 <= k < 8 => Wrap(c, Offsets[k].0, Offsets[k].1))
  }

  /** Two coordinates are torus-adjacent: they differ by at most one step
      along each axis, counting across the board's edges. */
  predicate Near(a: int, b: int, n: int)
    requires n > 0
  {
    (b - a) % n == 0 || (b - a) % n == 1 || (b - a) % n == n - 1
  }

  predicate Adjacent(c: Coord, d: Coord) {
    c != d && Near(c.x, d.x, W) && Near(c.y, d.y, H)
  }

  /** On a board at least 3 cells wide and high, distinct offsets wrap to distinct cells. */
  lemma WrapInjective(c: Coord, dx1: int, dy1: int, dx2: int, dy2: int)
    requires -1 <= dx1 <= 1 && -1 <= dy1 <= 1 && -1 <= dx2 <= 1 && -1 <= dy2 <= 1
    ensures Wrap(c, dx1, dy1) == Wrap(c, dx2, dy2) <==> dx1 == dx2 && dy1 == dy2
  {
  }

  /** The eight neighbours of a cell are eight different cells, none of them the cell itself. */
  lemma NeighboursDistinct(c: Coord)
    requires InBounds(c)
    ensures forall k, l :: 0 <= k < l < 8 ==> Neighbours(c)[k] != Neighbours(c)[l]
    ensures c !in Neighbours(c)
  {
  }

  /** The offset in -1..1 that leads from a to b along an axis of length n. */
  function StepBetween(a: int, b: int, n: int): (dx: int)
    requires n > 0
    ensures -1 <= dx <= 1
  {
    if (b - a) % n == 0 then 0 else if (b - a) % n == 1 then 1 else -1
  }

  /** Along either axis: wrapping a by an offset in -1..1 lands within one
      step of a, and StepBetween recovers that offset. */
  lemma StepIsNear(a: int, dx: int, n: int)
    requires n == W || n == H
    requires 0 <= a < n && -1 <= dx <= 1
    ensures Near(a, (a + dx) % n, n) && StepBetween(a, (a + dx) % n, n) == dx
  {
    if a + dx < 0 {
      assert (a + dx) % n == n - 1;
    } else if a + dx >= n {
      assert (a + dx) % n == 0;
    } else {
      assert (a + dx) % n == a + dx;
    }
  }

  /** Along either axis: a cell within one step of a is reached from a by StepBetween. */
  lemma NearIsStep(a: int, b: int, n: int)
    requires n == W || n == H
    requires 0 <= a < n && 0 <= b < n && Near(a, b, n)
    ensures (a + StepBetween(a, b, n)) % n == b
  {
    if (b - a) % n == 1 {
      assert b - a == 1 || b - a == 1 - n;
    } else if (b - a) % n == n - 1 {
      assert b - a == -1 || b - a == n - 1;
    } else {
      assert b - a == 0;
    }
  }

  /** Every neighbour is an in-range cell torus-adjacent to c. */
  lemma NeighbourIsAdjacent(c: Coord, k: int)
    requires InBounds(c) && 0 <= k < 8
    ensures InBounds(Neighbours(c)[k]) && Adjacent(c, Neighbours(c)[k])
  {
    var (dx, dy) := Offsets[k];
    StepIsNear(c.x, dx, W);
    StepIsNear(c.y, dy, H);
    NeighboursDistinct(c);
  }

  /** Every in-range cell torus-adjacent to c is one of its neighbours. */
  lemma AdjacentIsNeighbour(c: Coord, d: Coord)
    requires InBounds(c) && InBounds(d) && Adjacent(c, d)
    ensures d in Neighbours(c)
  {
    NearIsStep(c.x, d.x, W);
    NearIsStep(c.y, d.y, H);
    var dx, dy := StepBetween(c.x, d.x, W), StepBetween(c.y, d.y, H);
    assert Wrap(c, dx, dy) == d;
    OffsetsAreTheNeighbourhood(dx, dy);
    var k :| 0 <= k < 8 && Offsets[k] == (dx, dy);
    assert Neighbours(c)[k] == d;
  }

  /** A coordinate is among the neighbours of c exactly when it is an
      in-range cell torus-adjacent to c. */
  lemma NeighboursAreAdjacent(c: Coord, d: Coord)
    requires InBounds(c)
    ensures d in Neighbours(c) <==> InBounds(d) && Adjacent(c, d)
  {
    if d in Neighbours(c) {
      var k :| 0 <= k < 8 && Neighbours(c)[k] == d;
      NeighbourIsAdjacent(c, k);
    }
    if InBounds(d) && Adjacent(c, d) {
      AdjacentIsNeighbour(c, d);
    }
  }
}
