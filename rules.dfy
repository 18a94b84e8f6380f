/** The Life rule on values: a grid is a row-major sequence of Size booleans.
    These functions are the specification that the Board methods are proved against. */
module Rules {
  import opened Torus

  predicate IsGrid(g: seq<bool>) {
    |g| == Size
  }

  /** State of the cell at c (get_cell on a grid value). */
  function Cell(g: seq<bool>, c: Coord): (alive: bool)
    requires IsGrid(g) && InBounds(c)
  {
    g[Index(c)]
  }

  predicate AllInBounds(cs: seq<Coord>) {
    forall k :: 0 <= k < |cs| ==> InBounds(cs[k])
  }

  predicate Distinct(cs: seq<Coord>) {
    forall k, l :: 0 <= k < l < |cs| ==> cs[k] != cs[l]
  }

  /** Number of live cells listed in cs, counted by peeling off the last entry. */
  function CountLive(g: seq<bool>, cs: seq<Coord>): (n: nat)
    requires IsGrid(g) && AllInBounds(cs)
    ensures n <= |cs|
    ensures n == 0 <==> forall k :: 0 <= k < |cs| ==> !Cell(g, cs[k])
  {
    if cs == [] then 0
    else
      var last := cs[|cs| - 1];
      CountLive(g, cs[..|cs| - 1]) + (if Cell(g, last) then 1 else 0)
  }

  /** Counting one more cell of cs adds one exactly when that cell is alive. */
  lemma CountLiveStep(g: seq<bool>, cs: seq<Coord>, k: nat)
    requires IsGrid(g) && AllInBounds(cs) && k < |cs|
    ensures CountLive(g, cs[..k + 1]) == CountLive(g, cs[..k]) + (if Cell(g, cs[k]) then 1 else 0)
  {
    assert cs[..k + 1][..k] == cs[..k];
  }

  /** One step of the nested loops of get_alive_neighbors: visiting the
      non-centre offset (dx, dy) adds the wrapped cell's state to the count. */
  lemma VisitNeighbour(g: seq<bool>, c: Coord, dy: int, dx: int)
    requires IsGrid(g) && -1 <= dy <= 1 && -1 <= dx <= 1 && (dx, dy) != (0, 0)
    ensures CountLive(g, Neighbours(c)[..VisitedBefore(dy, dx + 1)])
         == CountLive(g, Neighbours(c)[..VisitedBefore(dy, dx)])
          + (if Cell(g, Coord((c.x + dx) % W, (c.y + dy) % H)) then 1 else 0)
  {
    var k := VisitedBefore(dy, dx);
    VisitedBeforeSteps(dy, dx);
    assert Neighbours(c)[k] == Coord((c.x + dx) % W, (c.y + dy) % H);
    CountLiveStep(g, Neighbours(c), k);
  }

  /** Number of live cells among the eight wrapped neighbours of c (get_alive_neighbors). */
  function NeighbourCount(g: seq<bool>, c: Coord): (n: nat)
    requires IsGrid(g)
    ensures n <= 8
  {
    CountLive(g, Neighbours(c))
  }

  /** Conway's B3/S23 rule: whether a cell is alive in the next generation. */
  predicate LifeRule(alive: bool, n: nat)
    ensures alive && n <= 1 ==> !LifeRule(alive, n)
    ensures alive && 2 <= n <= 3 ==> LifeRule(alive, n)
    ensures alive && 4 <= n ==> !LifeRule(alive, n)
    ensures !alive ==> (LifeRule(alive, n) <==> n == 3)
  {
    if alive then n == 2 || n == 3 else n == 3
  }

  /** The next generation: the Life rule applied to every cell of g, each
      neighbour count taken on g itself. */
  function NextGen(g: seq<bool>): (r: seq<bool>)
    requires IsGrid(g)
    ensures IsGrid(r)
    ensures forall c {:trigger Cell(r, c)} :: InBounds(c) ==> Cell(r, c) == LifeRule(Cell(g, c), NeighbourCount(g, c))
  {
    seq(Size, i requires 0 <= i < Size => LifeRule(g[i], NeighbourCount(g, CoordOf(i))))
  }

  /** Each cell of the next generation: a live cell survives iff it has 2 or 3
      live neighbours, a dead cell is born iff it has exactly 3. */
  lemma NextGenAt(g: seq<bool>, c: Coord)
    requires IsGrid(g) && InBounds(c)
    ensures Cell(g, c) ==> (Cell(NextGen(g), c) <==> NeighbourCount(g, c) == 2 || NeighbourCount(g, c) == 3)
    ensures !Cell(g, c) ==> (Cell(NextGen(g), c) <==> NeighbourCount(g, c) == 3)
  {
    CoordOfIndex(c);
  }

  /** The grid after writing v at c (set_cell on a grid value). */
  function WithCell(g: seq<bool>, c: Coord, v: bool): (r: seq<bool>)
    requires IsGrid(g) && InBounds(c)
    ensures IsGrid(r) && Cell(r, c) == v
    ensures forall d :: InBounds(d) && d != c ==> Cell(r, d) == Cell(g, d)
  {
    g[Index(c) := v]
  }

  /** The grid after writing v at every coordinate of cs, front to back
      (a drain loop of update). */
  function Paint(g: seq<bool>, cs: seq<Coord>, v: bool): (r: seq<bool>)
    requires IsGrid(g) && AllInBounds(cs)
    ensures IsGrid(r)
    ensures forall k :: 0 <= k < |cs| ==> Cell(r, cs[k]) == v
  {
    if cs == [] then g
    else WithCell(Paint(g, cs[..|cs| - 1], v), cs[|cs| - 1], v)
  }

  /** A painted cell holds v; every cell not in cs keeps its state. */
  lemma {:induction false} PaintAt(g: seq<bool>, cs: seq<Coord>, v: bool, d: Coord)
    requires IsGrid(g) && AllInBounds(cs) && InBounds(d)
    ensures Cell(Paint(g, cs, v), d) == if d in cs then v else Cell(g, d)
  {
    if cs != [] {
      var init := cs[..|cs| - 1];
      PaintAt(g, init, v, d);
      assert d in cs <==> d in init || d == cs[|cs| - 1];
    }
  }

  /** Two grids are equal when they agree on every in-range cell. */
  lemma GridExt(g: seq<bool>, h: seq<bool>)
    requires IsGrid(g) && IsGrid(h)
    requires forall c :: InBounds(c) ==> Cell(g, c) == Cell(h, c)
    ensures g == h
  {
    forall i | 0 <= i < Size
      ensures g[i] == h[i]
    {
      assert Cell(g, CoordOf(i)) == Cell(h, CoordOf(i));
    }
  }

  /** When no coordinate is scheduled both to die and to be born, applying the
      deaths first or the births first gives the same grid. */
  lemma CommitOrderImmaterial(g: seq<bool>, deaths: seq<Coord>, births: seq<Coord>)
    requires IsGrid(g) && AllInBounds(deaths) && AllInBounds(births)
    requires forall c :: c in deaths ==> c !in births
    ensures Paint(Paint(g, deaths, false), births, true) == Paint(Paint(g, births, true), deaths, false)
  {
    var dFirst := Paint(Paint(g, deaths, false), births, true);
    var bFirst := Paint(Paint(g, births, true), deaths, false);
    forall c | InBounds(c)
      ensures Cell(dFirst, c) == Cell(bFirst, c)
    {
      PaintAt(g, deaths, false, c);
      PaintAt(Paint(g, deaths, false), births, true, c);
      PaintAt(g, births, true, c);
      PaintAt(Paint(g, births, true), deaths, false, c);
    }
    GridExt(dFirst, bFirst);
  }

  /** A cell the scan schedules to die: alive now and not alive under the rule. */
  predicate DiesNext(g: seq<bool>, c: Coord)
    requires IsGrid(g)
  {
    InBounds(c) && Cell(g, c) && !LifeRule(true, NeighbourCount(g, c))
  }

  /** A cell the scan schedules to be born: dead now and alive under the rule. */
  predicate BornNext(g: seq<bool>, c: Coord)
    requires IsGrid(g)
  {
    InBounds(c) && !Cell(g, c) && LifeRule(false, NeighbourCount(g, c))
  }

  /** Applying exactly the scheduled deaths and then exactly the scheduled
      births to g yields the next generation. */
  lemma CommitIsNextGen(g: seq<bool>, deaths: seq<Coord>, births: seq<Coord>)
    requires IsGrid(g)
    requires forall c :: c in deaths <==> DiesNext(g, c)
    requires forall c :: c in births <==> BornNext(g, c)
    ensures AllInBounds(deaths) && AllInBounds(births)
    ensures Paint(Paint(g, deaths, false), births, true) == NextGen(g)
  {
    assert AllInBounds(deaths) by {
      forall k | 0 <= k < |deaths| ensures InBounds(deaths[k]) {
        assert DiesNext(g, deaths[k]);
      }
    }
    assert AllInBounds(births) by {
      forall k | 0 <= k < |births| ensures InBounds(births[k]) {
        assert BornNext(g, births[k]);
      }
    }
    var r := Paint(Paint(g, deaths, false), births, true);
    forall c | InBounds(c)
      ensures Cell(r, c) == Cell(NextGen(g), c)
    {
      PaintAt(g, deaths, false, c);
      PaintAt(Paint(g, deaths, false), births, true, c);
      NextGenAt(g, c);
    }
    GridExt(r, NextGen(g));
  }

  /** Flipping one cell p changes the live count of a list of distinct cells
      by one if p is listed, and leaves it alone otherwise. */
  lemma {:induction false} CountLiveFlip(g: seq<bool>, cs: seq<Coord>, p: Coord)
    requires IsGrid(g) && AllInBounds(cs) && Distinct(cs) && InBounds(p)
    ensures CountLive(WithCell(g, p, true), cs) == CountLive(WithCell(g, p, false), cs) + (if p in cs then 1 else 0)
  {
    if cs != [] {
      var init := cs[..|cs| - 1];
      CountLiveFlip(g, init, p);
      assert cs == init + [cs[|cs| - 1]];
      assert p in cs <==> p in init || p == cs[|cs| - 1];
      assert cs[|cs| - 1] !in init;
    }
  }

  /** The live count of a list of distinct cells, none of which is alive
      except possibly p, is 1 if p is listed and alive and 0 otherwise. */
  lemma {:induction false} CountLiveOfOne(g: seq<bool>, cs: seq<Coord>, p: Coord)
    requires IsGrid(g) && AllInBounds(cs) && Distinct(cs) && InBounds(p)
    requires forall d :: InBounds(d) && d != p ==> !Cell(g, d)
    ensures CountLive(g, cs) == if p in cs && Cell(g, p) then 1 else 0
  {
    if cs != [] {
      var init := cs[..|cs| - 1];
      CountLiveOfOne(g, init, p);
      assert p in cs <==> p in init || p == cs[|cs| - 1];
      assert cs[|cs| - 1] !in init;
    }
  }

  /** The live cells among the neighbours of c. */
  function LiveNeighbours(g: seq<bool>, c: Coord): (live: set<Coord>)
    requires IsGrid(g)
  {
    set d | d in Neighbours(c) && InBounds(d) && Cell(g, d)
  }

  /** The live count of a list of distinct cells is the size of the set of its live cells. */
  lemma {:induction false} CountLiveIsCardinality(g: seq<bool>, cs: seq<Coord>)
    requires IsGrid(g) && AllInBounds(cs) && Distinct(cs)
    ensures CountLive(g, cs) == |set d | d in cs && InBounds(d) && Cell(g, d)|
  {
    if cs != [] {
      var init, last := cs[..|cs| - 1], cs[|cs| - 1];
      CountLiveIsCardinality(g, init);
      var before := set d | d in init && InBounds(d) && Cell(g, d);
      var after := set d | d in cs && InBounds(d) && Cell(g, d);
      assert cs == init + [last];
      assert last !in init;
      if Cell(g, last) {
        assert after == before + {last};
      } else {
        assert after == before;
      }
    }
  }

  /** get_alive_neighbors counts exactly the live cells torus-adjacent to c;
      the cell itself is never counted. */
  lemma NeighbourCountIsLiveAdjacent(g: seq<bool>, c: Coord)
    requires IsGrid(g) && InBounds(c)
    ensures NeighbourCount(g, c) == |LiveNeighbours(g, c)|
    ensures forall d :: d in LiveNeighbours(g, c) <==> InBounds(d) && Adjacent(c, d) && Cell(g, d)
    ensures c !in LiveNeighbours(g, c)
  {
    NeighboursDistinct(c);
    CountLiveIsCardinality(g, Neighbours(c));
    forall d ensures d in LiveNeighbours(g, c) <==> InBounds(d) && Adjacent(c, d) && Cell(g, d) {
      NeighboursAreAdjacent(c, d);
    }
  }

  /** Painting p alive instead of dead adds one to the neighbour count of
      every cell adjacent to p and changes no other cell's count. */
  lemma PaintedCellIsCounted(g: seq<bool>, p: Coord, c: Coord)
    requires IsGrid(g) && InBounds(p) && InBounds(c)
    ensures NeighbourCount(WithCell(g, p, true), c)
         == NeighbourCount(WithCell(g, p, false), c) + (if Adjacent(c, p) then 1 else 0)
  {
    NeighboursDistinct(c);
    NeighboursAreAdjacent(c, p);
    CountLiveFlip(g, Neighbours(c), p);
  }

  /** A single live cell on an otherwise dead board dies of underpopulation,
      and no cell is born. */
  lemma LoneCellDies(g: seq<bool>, p: Coord)
    requires IsGrid(g) && InBounds(p)
    requires forall d :: InBounds(d) ==> (Cell(g, d) <==> d == p)
    ensures forall d :: InBounds(d) ==> !Cell(NextGen(g), d)
  {
    forall d | InBounds(d)
      ensures !Cell(NextGen(g), d)
    {
      NeighboursDistinct(d);
      CountLiveOfOne(g, Neighbours(d), p);
      NextGenAt(g, d);
    }
  }
}
