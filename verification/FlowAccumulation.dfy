/**
 D8 receivers and flow accumulation of terrain_from_dem (features.py:195-216), over real
 elevations. Every cell drains to its steepest lower neighbour; accumulation visits the cells
 from high to low.
 */
module FlowAccumulation {
  import opened Bytes

  datatype Cell = Cell(i: int, j: int)

  /** A rectangular elevation model. */
  datatype Dem = Dem(h: nat, w: nat, z: seq<seq<real>>)

  predicate Rectangular(d: Dem) {
    |d.z| == d.h && forall i :: 0 <= i < d.h ==> |d.z[i]| == d.w
  }

  predicate Inside(d: Dem, c: Cell) { 0 <= c.i < d.h && 0 <= c.j < d.w }

  function Z(d: Dem, c: Cell): real
    requires Rectangular(d) && Inside(d, c)
  {
    d.z[c.i][c.j]
  }

  // -------------------------------------------------------------------- receivers

  const NBRS: seq<(int, int)> := [(-1, -1), (-1, 0), (-1, 1), (0, -1), (0, 1), (1, -1), (1, 0), (1, 1)]

  /** Cell size, and what math.hypot(1, 1) returns; nothing depends on how that is rounded. */
  datatype Scale = Scale(cellsize: real, diag: real)

  predicate Metric(s: Scale) { s.cellsize > 0.0 && s.diag > 0.0 }

  function Neighbour(c: Cell, n: nat): Cell
    requires n < 8
  {
    Cell(c.i + NBRS[n].0, c.j + NBRS[n].1)
  }

  function Dist(s: Scale, n: nat): real
    requires n < 8
  {
    s.cellsize * if NBRS[n].0 != 0 && NBRS[n].1 != 0 then s.diag else 1.0
  }

  lemma DistPositive(s: Scale, n: nat)
    requires n < 8 && Metric(s)
    ensures Dist(s, n) > 0.0
  {
  }

  /** Slope towards the `n`-th neighbour. */
  function Drop(d: Dem, s: Scale, c: Cell, n: nat): real
    requires Rectangular(d) && Inside(d, c) && n < 8 && Inside(d, Neighbour(c, n)) && Metric(s)
  {
    DistPositive(s, n);
    (Z(d, c) - Z(d, Neighbour(c, n))) / Dist(s, n)
  }

  /** `n` is the receiver direction among the first `k` neighbours: steepest, first of equals. */
  ghost predicate Steepest(d: Dem, s: Scale, c: Cell, k: nat, n: nat)
    requires Rectangular(d) && Inside(d, c) && k <= 8 && Metric(s)
  {
    && n < k && Inside(d, Neighbour(c, n)) && Drop(d, s, c, n) > 0.0
    && (forall m :: 0 <= m < n && Inside(d, Neighbour(c, m)) ==> Drop(d, s, c, m) < Drop(d, s, c, n))
    && (forall m :: n <= m < k && Inside(d, Neighbour(c, m)) ==> Drop(d, s, c, m) <= Drop(d, s, c, n))
  }

  /** None of the first `k` neighbours lies lower. */
  ghost predicate NoneLower(d: Dem, s: Scale, c: Cell, k: nat)
    requires Rectangular(d) && Inside(d, c) && k <= 8 && Metric(s)
  {
    forall m :: 0 <= m < k && Inside(d, Neighbour(c, m)) ==> Drop(d, s, c, m) <= 0.0
  }

  /** The receiver of a cell. */
  ghost predicate IsReceiver(d: Dem, s: Scale, c: Cell, r: Option<Cell>)
    requires Rectangular(d) && Inside(d, c) && Metric(s)
  {
    match r
    case None => NoneLower(d, s, c, 8)
    case Some(t) => exists n :: Steepest(d, s, c, 8, n) && t == Neighbour(c, n)
  }

  lemma DropSign(d: Dem, s: Scale, c: Cell, n: nat)
    requires Rectangular(d) && Inside(d, c) && n < 8 && Inside(d, Neighbour(c, n)) && Metric(s)
    ensures Drop(d, s, c, n) > 0.0 <==> Z(d, Neighbour(c, n)) < Z(d, c)
  {
    DistPositive(s, n);
    var a, b := Z(d, c) - Z(d, Neighbour(c, n)), Dist(s, n);
    assert (a / b) * b == a;
  }

  lemma ReceiverUnique(d: Dem, s: Scale, c: Cell, r: Option<Cell>, r': Option<Cell>)
    requires Rectangular(d) && Inside(d, c) && Metric(s)
    requires IsReceiver(d, s, c, r) && IsReceiver(d, s, c, r')
    ensures r == r'
  {
  }

  // --------------------------------------- the receiver, said without the list of neighbours

  /** Cells that touch, along a side or at a corner. */
  predicate Touching(c: Cell, t: Cell) { t != c && -1 <= t.i - c.i <= 1 && -1 <= t.j - c.j <= 1 }

  /** Between the centres of touching cells. */
  function Distance(s: Scale, c: Cell, t: Cell): real {
    s.cellsize * if t.i != c.i && t.j != c.j then s.diag else 1.0
  }

  /** How far it is downhill from `c` to `t`, per unit of distance. */
  function Fall(d: Dem, s: Scale, c: Cell, t: Cell): real
    requires Rectangular(d) && Inside(d, c) && Inside(d, t) && Metric(s)
  {
    (d.z[c.i][c.j] - d.z[t.i][t.j]) / Distance(s, c, t)
  }

  predicate EarlierInGrid(t: Cell, u: Cell) { t.i < u.i || (t.i == u.i && t.j < u.j) }

  /** No receiver if no touching cell is lower; else the lower one of steepest fall, the first in the grid of equals. */
  ghost predicate SteepestDescent(d: Dem, s: Scale, c: Cell, r: Option<Cell>)
    requires Rectangular(d) && Inside(d, c) && Metric(s)
  {
    match r
    case None => forall t :: Inside(d, t) && Touching(c, t) ==> d.z[t.i][t.j] >= d.z[c.i][c.j]
    case Some(t) =>
      && Inside(d, t) && Touching(c, t) && d.z[t.i][t.j] < d.z[c.i][c.j]
      && forall u :: Inside(d, u) && Touching(c, u) && u != t ==>
           Fall(d, s, c, u) < Fall(d, s, c, t)
           || (Fall(d, s, c, u) == Fall(d, s, c, t) && EarlierInGrid(t, u))
  }

  /** The place of a touching cell in the order the neighbours are walked. */
  lemma PlaceOf(c: Cell, t: Cell) returns (n: nat)
    requires Touching(c, t)
    ensures n < 8 && Neighbour(c, n) == t
  {
    var k := 3 * (t.i - c.i + 1) + (t.j - c.j + 1);
    n := if k < 4 then k else k - 1;
  }

  lemma NeighboursTouch(c: Cell, n: nat, m: nat)
    requires n < 8 && m < 8
    ensures Touching(c, Neighbour(c, n)) && (Neighbour(c, n) == Neighbour(c, m) <==> n == m)
    ensures n < m <==> EarlierInGrid(Neighbour(c, n), Neighbour(c, m))
  {
  }

  lemma DropIsFall(d: Dem, s: Scale, c: Cell, n: nat)
    requires Rectangular(d) && Inside(d, c) && n < 8 && Inside(d, Neighbour(c, n)) && Metric(s)
    ensures Drop(d, s, c, n) == Fall(d, s, c, Neighbour(c, n))
    ensures Drop(d, s, c, n) > 0.0 <==> Z(d, Neighbour(c, n)) < Z(d, c)
  {
    DropSign(d, s, c, n);
    assert NBRS[n].0 != 0 <==> Neighbour(c, n).i != c.i;
    assert NBRS[n].1 != 0 <==> Neighbour(c, n).j != c.j;
  }

  /** The receiver is the cell of steepest descent, exactly. */
  lemma ReceiverExactly(d: Dem, s: Scale, c: Cell, r: Option<Cell>)
    requires Rectangular(d) && Inside(d, c) && Metric(s)
    ensures IsReceiver(d, s, c, r) <==> SteepestDescent(d, s, c, r)
  {
    hide Drop, Fall, Neighbour, Touching, EarlierInGrid, Metric, Rectangular;
    if IsReceiver(d, s, c, r) { ReceiverDescends(d, s, c, r); }
    if SteepestDescent(d, s, c, r) { DescentReceives(d, s, c, r); }
  }

  lemma ReceiverDescends(d: Dem, s: Scale, c: Cell, r: Option<Cell>)
    requires Rectangular(d) && Inside(d, c) && Metric(s) && IsReceiver(d, s, c, r)
    ensures SteepestDescent(d, s, c, r)
  {
    hide Drop, Fall, Neighbour, Touching, EarlierInGrid, Metric;
    match r
    case None =>
      forall t | Inside(d, t) && Touching(c, t) ensures d.z[t.i][t.j] >= d.z[c.i][c.j] {
        var m := PlaceOf(c, t);
        DropIsFall(d, s, c, m);
      }
    case Some(t) =>
      var n :| 0 <= n < 8 && Steepest(d, s, c, 8, n) && t == Neighbour(c, n);
      NeighboursTouch(c, n, n);
      DropIsFall(d, s, c, n);
      forall u | Inside(d, u) && Touching(c, u) && u != t
        ensures Fall(d, s, c, u) < Fall(d, s, c, t)
                || (Fall(d, s, c, u) == Fall(d, s, c, t) && EarlierInGrid(t, u))
      {
        var m := PlaceOf(c, u);
        NeighboursTouch(c, n, m);
        DropIsFall(d, s, c, m);
      }
  }

  lemma DescentReceives(d: Dem, s: Scale, c: Cell, r: Option<Cell>)
    requires Rectangular(d) && Inside(d, c) && Metric(s) && SteepestDescent(d, s, c, r)
    ensures IsReceiver(d, s, c, r)
  {
    hide Drop, Fall, Neighbour, Touching, Metric;
    match r
    case None =>
      forall m | 0 <= m < 8 && Inside(d, Neighbour(c, m)) ensures Drop(d, s, c, m) <= 0.0 {
        NeighboursTouch(c, m, m);
        DropIsFall(d, s, c, m);
      }
    case Some(t) =>
      var n := PlaceOf(c, t);
      DropIsFall(d, s, c, n);
      forall m | 0 <= m < 8 && Inside(d, Neighbour(c, m))
        ensures m < n ==> Drop(d, s, c, m) < Drop(d, s, c, n)
        ensures m >= n ==> Drop(d, s, c, m) <= Drop(d, s, c, n)
      {
        NeighboursTouch(c, m, n);
        NeighboursTouch(c, n, m);
        DropIsFall(d, s, c, m);
      }
      assert Steepest(d, s, c, 8, n);
  }

  /** The inner loop over the eight neighbours. */
  method FindReceiver(d: Dem, s: Scale, c: Cell) returns (best: Option<Cell>)
    requires Rectangular(d) && Inside(d, c) && Metric(s)
    ensures IsReceiver(d, s, c, best) && SteepestDescent(d, s, c, best)
  {
    hide SteepestDescent;
    var bd: real, n := 0.0, 0;
    best := None;
    ghost var at := 0;
    while n < 8
      invariant 0 <= n <= 8
      invariant best.None? ==> bd == 0.0 && NoneLower(d, s, c, n)
      invariant best.Some? ==> Steepest(d, s, c, n, at) && best.value == Neighbour(c, at) && bd == Drop(d, s, c, at)
    {
      var t := Neighbour(c, n);
      if Inside(d, t) {
        var drop := Drop(d, s, c, n);
        if drop > bd {
          bd, best, at := drop, Some(t), n;
        }
      }
      n := n + 1;
    }
    ReceiverExactly(d, s, c, best);
  }

  // -------------------------------------------------------------- the drainage graph

  type Flow = map<Cell, Cell>

  /** Water only moves between cells of the grid, strictly downhill. */
  ghost predicate Downhill(cells: set<Cell>, recv: Flow, z: map<Cell, real>) {
    && cells <= z.Keys && recv.Keys <= cells
    && forall c :: c in recv ==> recv[c] in cells && z[recv[c]] < z[c]
  }

  /** Where water from `c` is after `k` steps. */
  function Walk(recv: Flow, c: Cell, k: nat): Option<Cell> {
    if k == 0 then Some(c)
    else
      var y := Walk(recv, c, k - 1);
      if y.Some? && y.value in recv then Some(recv[y.value]) else None
  }

  /** The receiver chain of `a` passes through `b`. */
  ghost predicate Reaches(recv: Flow, a: Cell, b: Cell) {
    exists k: nat :: k >= 1 && Walk(recv, a, k) == Some(b)
  }

  /** The other cells that drain through `c`. */
  ghost function Upstream(cells: set<Cell>, recv: Flow, c: Cell): set<Cell> {
    set a | a in cells && Reaches(recv, a, c)
  }

  ghost function Basin(cells: set<Cell>, recv: Flow, c: Cell): set<Cell> {
    Upstream(cells, recv, c) + {c}
  }

  lemma {:induction false} WalkAppend(recv: Flow, a: Cell, k: nat, m: nat)
    requires Walk(recv, a, k).Some?
    ensures Walk(recv, a, k + m) == Walk(recv, Walk(recv, a, k).value, m)
  {
    if m > 0 { WalkAppend(recv, a, k, m - 1); }
  }

  lemma {:induction false} WalkDescends(cells: set<Cell>, recv: Flow, z: map<Cell, real>, a: Cell, k: nat)
    requires Downhill(cells, recv, z) && a in cells && Walk(recv, a, k).Some?
    ensures Walk(recv, a, k).value in cells && z[Walk(recv, a, k).value] <= z[a]
    ensures k >= 1 ==> z[Walk(recv, a, k).value] < z[a]
  {
    if k > 0 { WalkDescends(cells, recv, z, a, k - 1); }
  }

  /** The receiver graph has no cycle. */
  lemma Acyclic(cells: set<Cell>, recv: Flow, z: map<Cell, real>, c: Cell)
    requires Downhill(cells, recv, z) && c in cells
    ensures !Reaches(recv, c, c)
  {
    if Reaches(recv, c, c) {
      var k: nat :| k >= 1 && Walk(recv, c, k) == Some(c);
      WalkDescends(cells, recv, z, c, k);
    }
  }

  /** A cell drains through `c` exactly when it is, or drains through, a cell whose receiver is `c`. */
  lemma ReachesByLast(recv: Flow, a: Cell, c: Cell)
    ensures Reaches(recv, a, c) <==> exists y :: y in recv && recv[y] == c && (a == y || Reaches(recv, a, y))
  {
    if Reaches(recv, a, c) {
      var k: nat :| k >= 1 && Walk(recv, a, k) == Some(c);
      var y := Walk(recv, a, k - 1).value;
      assert y in recv && recv[y] == c && (a == y || Reaches(recv, a, y));
    }
    if y :| y in recv && recv[y] == c && (a == y || Reaches(recv, a, y)) {
      if a == y {
        assert Walk(recv, a, 0) == Some(a);
        assert Walk(recv, a, 1) == Some(c);
      } else {
        var k: nat :| k >= 1 && Walk(recv, a, k) == Some(y);
        assert Walk(recv, a, k + 1) == Some(c);
      }
    }
  }

  /** Two cells with one receiver share no upstream cell. */
  lemma BasinsDisjoint(cells: set<Cell>, recv: Flow, z: map<Cell, real>, x: Cell, y: Cell)
    requires Downhill(cells, recv, z) && x in recv && y in recv && x != y && recv[x] == recv[y]
    ensures Basin(cells, recv, x) !! Basin(cells, recv, y)
  {
    forall a | a in Basin(cells, recv, x) && a in Basin(cells, recv, y) ensures false {
      var k := Steps(recv, a, x);
      var m := Steps(recv, a, y);
      Acyclic(cells, recv, z, recv[x]);
      if k < m {
        Apart(recv, a, k, x, m, y);
      } else if m < k {
        Apart(recv, a, m, y, k, x);
      }
    }
  }

  lemma Steps(recv: Flow, a: Cell, x: Cell) returns (k: nat)
    requires a == x || Reaches(recv, a, x)
    ensures Walk(recv, a, k) == Some(x)
  {
    if a == x {
      k := 0;
    } else {
      k :| k >= 1 && Walk(recv, a, k) == Some(x);
    }
  }

  lemma Apart(recv: Flow, a: Cell, k: nat, x: Cell, m: nat, y: Cell)
    requires k < m && x in recv && y in recv && recv[x] == recv[y]
    requires Walk(recv, a, k) == Some(x) && Walk(recv, a, m) == Some(y)
    ensures Reaches(recv, recv[x], recv[x])
  {
    WalkAppend(recv, a, k, m - k);
    WalkAppend(recv, x, 1, m - k - 1);
    assert Walk(recv, x, 0) == Some(x);
    var c := recv[x];
    assert Walk(recv, x, 1) == Some(c);
    assert Walk(recv, c, m - k - 1) == Some(y);
    assert Walk(recv, c, m - k) == Some(c);
  }

  // ------------------------------------------------------------------ accumulation

  /** The cells drained into `c` by the part of the order already visited. */
  ghost function Drained(cells: set<Cell>, recv: Flow, visited: set<Cell>, c: Cell): set<Cell> {
    set a | a in cells && exists y :: y in visited && y in recv && recv[y] == c && (a == y || Reaches(recv, a, y))
  }

  lemma DrainedNext(cells: set<Cell>, recv: Flow, z: map<Cell, real>, visited: set<Cell>, x: Cell, c: Cell)
    requires Downhill(cells, recv, z) && visited <= cells && x in cells && x !in visited
    ensures x in recv && recv[x] == c ==>
      Drained(cells, recv, visited + {x}, c) == Drained(cells, recv, visited, c) + Basin(cells, recv, x)
    ensures !(x in recv && recv[x] == c) ==> Drained(cells, recv, visited + {x}, c) == Drained(cells, recv, visited, c)
  {
  }

  lemma DrainedApart(cells: set<Cell>, recv: Flow, z: map<Cell, real>, visited: set<Cell>, x: Cell)
    requires Downhill(cells, recv, z) && visited <= cells && x in recv && x !in visited
    ensures Drained(cells, recv, visited, recv[x]) !! Basin(cells, recv, x)
  {
    forall a | a in Drained(cells, recv, visited, recv[x]) && a in Basin(cells, recv, x) ensures false {
      var y :| y in visited && y in recv && recv[y] == recv[x] && (a == y || Reaches(recv, a, y));
      assert a in Basin(cells, recv, y);
      BasinsDisjoint(cells, recv, z, x, y);
    }
  }

  /** Once every higher cell has been visited, all that drains through `x` has been counted. */
  lemma DrainedComplete(cells: set<Cell>, recv: Flow, z: map<Cell, real>, visited: set<Cell>, x: Cell)
    requires Downhill(cells, recv, z) && visited <= cells && x in cells
    requires forall y :: y in cells && z[y] > z[x] ==> y in visited
    ensures Drained(cells, recv, visited, x) == Upstream(cells, recv, x)
  {
    forall a | a in cells ensures a in Drained(cells, recv, visited, x) <==> a in Upstream(cells, recv, x) {
      ReachesByLast(recv, a, x);
    }
  }

  // ---------------------------------------------- every cell ends in exactly one sink

  predicate IsSink(recv: Flow, c: Cell) { c !in recv }

  ghost function Lower(cells: set<Cell>, z: map<Cell, real>, c: Cell): set<Cell>
    requires cells <= z.Keys && c in z
  {
    set a | a in cells && z[a] < z[c]
  }

  lemma {:induction false} DrainsToSink(cells: set<Cell>, recv: Flow, z: map<Cell, real>, a: Cell) returns (s: Cell)
    requires Downhill(cells, recv, z) && a in cells
    ensures s in cells && IsSink(recv, s) && a in Basin(cells, recv, s)
    decreases Lower(cells, z, a)
  {
    if a !in recv {
      s := a;
    } else {
      var b := recv[a];
      assert b in Lower(cells, z, a) && b !in Lower(cells, z, b);
      s := DrainsToSink(cells, recv, z, b);
      var k := Steps(recv, b, s);
      assert Walk(recv, a, 0) == Some(a);
      assert Walk(recv, a, 1) == Some(b);
      WalkAppend(recv, a, 1, k);
      assert Reaches(recv, a, s);
    }
  }

  lemma SinksDisjoint(cells: set<Cell>, recv: Flow, s: Cell, t: Cell)
    requires IsSink(recv, s) && IsSink(recv, t) && s != t
    ensures Basin(cells, recv, s) !! Basin(cells, recv, t)
  {
    forall a | a in Basin(cells, recv, s) && a in Basin(cells, recv, t) ensures false {
      var k := Steps(recv, a, s);
      var m := Steps(recv, a, t);
      if k <= m {
        Stuck(recv, s, m - k);
        WalkAppend(recv, a, k, m - k);
      } else {
        Stuck(recv, t, k - m);
        WalkAppend(recv, a, m, k - m);
      }
    }
  }

  lemma {:induction false} Stuck(recv: Flow, s: Cell, m: nat)
    requires IsSink(recv, s)
    ensures m > 0 ==> Walk(recv, s, m).None?
  {
    if m > 1 {
      Stuck(recv, s, m - 1);
    } else if m == 1 {
      assert Walk(recv, s, 0) == Some(s);
    }
  }

  /** Basin sizes over a list of cells. */
  ghost function BasinSum(cells: set<Cell>, recv: Flow, sinks: seq<Cell>): nat {
    if sinks == [] then 0 else |Basin(cells, recv, sinks[0])| + BasinSum(cells, recv, sinks[1..])
  }

  ghost function BasinUnion(cells: set<Cell>, recv: Flow, sinks: seq<Cell>): set<Cell> {
    if sinks == [] then {} else Basin(cells, recv, sinks[0]) + BasinUnion(cells, recv, sinks[1..])
  }

  lemma {:induction false} UnionOf(cells: set<Cell>, recv: Flow, sinks: seq<Cell>, a: Cell)
    ensures a in BasinUnion(cells, recv, sinks) <==> exists s :: s in sinks && a in Basin(cells, recv, s)
    decreases |sinks|
  {
    if sinks != [] { UnionOf(cells, recv, sinks[1..], a); }
  }

  predicate Distinct(xs: seq<Cell>) { forall i, j :: 0 <= i < j < |xs| ==> xs[i] != xs[j] }

  lemma {:induction false} SumIsUnion(cells: set<Cell>, recv: Flow, sinks: seq<Cell>)
    requires Distinct(sinks) && forall s :: s in sinks ==> IsSink(recv, s)
    ensures |BasinUnion(cells, recv, sinks)| == BasinSum(cells, recv, sinks)
    decreases |sinks|
  {
    if sinks != [] {
      SumIsUnion(cells, recv, sinks[1..]);
      forall a | a in BasinUnion(cells, recv, sinks[1..]) ensures a !in Basin(cells, recv, sinks[0]) {
        UnionOf(cells, recv, sinks[1..], a);
        var s :| s in sinks[1..] && a in Basin(cells, recv, s);
        SinksDisjoint(cells, recv, sinks[0], s);
      }
    }
  }

  /** Conservation: the basins of the sinks hold every cell exactly once. */
  lemma BasinsPartition(cells: set<Cell>, recv: Flow, z: map<Cell, real>, sinks: seq<Cell>)
    requires Downhill(cells, recv, z) && Distinct(sinks)
    requires forall s :: s in sinks <==> s in cells && IsSink(recv, s)
    ensures BasinSum(cells, recv, sinks) == |cells|
  {
    SumIsUnion(cells, recv, sinks);
    forall a ensures a in BasinUnion(cells, recv, sinks) <==> a in cells {
      UnionOf(cells, recv, sinks, a);
      if a in cells {
        var s := DrainsToSink(cells, recv, z, a);
        assert s in sinks;
      }
    }
    assert BasinUnion(cells, recv, sinks) == cells;
  }

  // ------------------------------------------------------------------------ the code

  ghost function CellSet(d: Dem): set<Cell> {
    set i, j | 0 <= i < d.h && 0 <= j < d.w :: Cell(i, j)
  }

  lemma InCellSet(d: Dem, c: Cell)
    ensures c in CellSet(d) <==> Inside(d, c)
  {
    if Inside(d, c) { assert c == Cell(c.i, c.j); }
  }

  ghost function Heights(d: Dem): map<Cell, real>
    requires Rectangular(d)
  {
    map c | c in CellSet(d) :: if Inside(d, c) then Z(d, c) else 0.0
  }

  /** (dem[i, j], i, j) in descending order of tuples. */
  predicate Before(d: Dem, a: Cell, b: Cell)
    requires Rectangular(d) && Inside(d, a) && Inside(d, b)
  {
    || Z(d, a) > Z(d, b)
    || (Z(d, a) == Z(d, b) && (a.i > b.i || (a.i == b.i && a.j >= b.j)))
  }

  predicate AllInside(d: Dem, xs: seq<Cell>) { forall k :: 0 <= k < |xs| ==> Inside(d, xs[k]) }

  predicate Descending(d: Dem, xs: seq<Cell>)
    requires Rectangular(d) && AllInside(d, xs)
  {
    forall a, b :: 0 <= a < b < |xs| ==> Before(d, xs[a], xs[b])
  }

  /** sorted(..., reverse=True) over the cells met so far. */
  method InsertCell(d: Dem, xs: seq<Cell>, c: Cell) returns (ys: seq<Cell>)
    requires Rectangular(d) && AllInside(d, xs) && Inside(d, c) && Descending(d, xs)
    requires Distinct(xs) && c !in xs
    ensures AllInside(d, ys) && Descending(d, ys) && Distinct(ys)
    ensures forall x :: x in ys <==> x in xs || x == c
    ensures |ys| == |xs| + 1
  {
    hide Before;
    var k := 0;
    while k < |xs| && Before(d, xs[k], c)
      invariant 0 <= k <= |xs|
      invariant forall a :: 0 <= a < k ==> Before(d, xs[a], c)
    {
      k := k + 1;
    }
    ys := xs[..k] + [c] + xs[k..];
    forall a, b | 0 <= a < b < |ys| ensures Before(d, ys[a], ys[b]) && ys[a] != ys[b] {
      if a == k && b > k {
        BeforeIsOrder(d, xs[k], c, xs[b - 1]);
        assert b > k + 1 ==> Before(d, xs[k], xs[b - 1]);
      }
    }
    assert xs == xs[..k] + xs[k..];
  }

  lemma BeforeIsOrder(d: Dem, a: Cell, b: Cell, c: Cell)
    requires Rectangular(d) && Inside(d, a) && Inside(d, b) && Inside(d, c)
    ensures !Before(d, a, b) ==> Before(d, b, a)
    ensures Before(d, b, a) && Before(d, a, c) ==> Before(d, b, c)
  {
  }

  method SortedCells(d: Dem) returns (order: seq<Cell>)
    requires Rectangular(d)
    ensures AllInside(d, order) && Descending(d, order) && Distinct(order)
    ensures forall c :: c in order <==> Inside(d, c)
    ensures |order| == d.h * d.w
  {
    order := [];
    var i := 0;
    while i < d.h
      invariant 0 <= i <= d.h && |order| == i * d.w
      invariant AllInside(d, order) && Descending(d, order) && Distinct(order)
      invariant forall c :: c in order <==> Inside(d, c) && c.i < i
    {
      var j := 0;
      while j < d.w
        invariant 0 <= j <= d.w && |order| == i * d.w + j
        invariant AllInside(d, order) && Descending(d, order) && Distinct(order)
        invariant forall c :: c in order <==> Inside(d, c) && (c.i < i || (c.i == i && c.j < j))
      {
        order := InsertCell(d, order, Cell(i, j));
        j := j + 1;
      }
      assert (i + 1) * d.w == i * d.w + d.w;
      i := i + 1;
    }
  }

  /** Every cell's receiver as the array `recv` holds it. */
  ghost predicate HoldsReceivers(d: Dem, s: Scale, recv: array2<Option<Cell>>)
    requires Rectangular(d) && Metric(s)
    reads recv
  {
    && recv.Length0 == d.h && recv.Length1 == d.w
    && forall i, j :: 0 <= i < d.h && 0 <= j < d.w ==> IsReceiver(d, s, Cell(i, j), recv[i, j])
  }

  ghost function FlowOf(d: Dem, recv: array2<Option<Cell>>): Flow
    requires recv.Length0 == d.h && recv.Length1 == d.w
    reads recv
  {
    map c | c in CellSet(d) && Inside(d, c) && recv[c.i, c.j].Some? :: recv[c.i, c.j].value
  }

  method FillReceivers(d: Dem, s: Scale) returns (recv: array2<Option<Cell>>)
    requires Rectangular(d) && Metric(s)
    ensures fresh(recv) && HoldsReceivers(d, s, recv)
  {
    hide IsReceiver;
    recv := new Option<Cell>[d.h, d.w]((_, _) => None);
    var i := 0;
    while i < d.h
      invariant 0 <= i <= d.h
      invariant forall a, b :: 0 <= a < i && 0 <= b < d.w ==> IsReceiver(d, s, Cell(a, b), recv[a, b])
    {
      var j := 0;
      while j < d.w
        invariant 0 <= j <= d.w
        invariant forall a, b :: 0 <= a < i && 0 <= b < d.w ==> IsReceiver(d, s, Cell(a, b), recv[a, b])
        invariant forall b :: 0 <= b < j ==> IsReceiver(d, s, Cell(i, b), recv[i, b])
      {
        var r := FindReceiver(d, s, Cell(i, j));
        recv[i, j] := r;
        j := j + 1;
      }
      i := i + 1;
    }
  }

  lemma ReceiverIsLower(d: Dem, s: Scale, c: Cell, r: Option<Cell>)
    requires Rectangular(d) && Inside(d, c) && Metric(s) && IsReceiver(d, s, c, r) && r.Some?
    ensures Inside(d, r.value) && Z(d, r.value) < Z(d, c)
  {
    var n :| Steepest(d, s, c, 8, n) && r.value == Neighbour(c, n);
    DropSign(d, s, c, n);
  }

  lemma FlowIsDownhill(d: Dem, s: Scale, recv: array2<Option<Cell>>)
    requires Rectangular(d) && Metric(s) && HoldsReceivers(d, s, recv)
    ensures Downhill(CellSet(d), FlowOf(d, recv), Heights(d))
  {
    hide IsReceiver;
    var flow := FlowOf(d, recv);
    forall c | c in flow ensures flow[c] in CellSet(d) && Heights(d)[flow[c]] < Heights(d)[c] {
      ReceiverIsLower(d, s, c, recv[c.i, c.j]);
      InCellSet(d, flow[c]);
    }
  }

  ghost function First(order: seq<Cell>, k: nat): set<Cell>
    requires k <= |order|
  {
    set x | x in order[..k]
  }

  /** What one visit changes: the receiver of `x` gains `x` and everything above it. */
  lemma VisitCounts(d: Dem, flow: Flow, order: seq<Cell>, k: nat)
    requires Rectangular(d) && Downhill(CellSet(d), flow, Heights(d)) && k < |order|
    requires AllInside(d, order) && Descending(d, order) && Distinct(order) && forall c :: c in order <==> Inside(d, c)
    ensures var cells, x := CellSet(d), order[k];
      && Drained(cells, flow, First(order, k), x) == Upstream(cells, flow, x)
      && (forall c :: !(x in flow && flow[x] == c) ==>
            Drained(cells, flow, First(order, k + 1), c) == Drained(cells, flow, First(order, k), c))
      && (x in flow ==>
            |Drained(cells, flow, First(order, k + 1), flow[x])|
              == |Drained(cells, flow, First(order, k), flow[x])| + |Upstream(cells, flow, x)| + 1)
  {
    hide Drained, Upstream, Before;
    var cells, x, z, visited := CellSet(d), order[k], Heights(d), First(order, k);
    assert First(order, k + 1) == visited + {x};
    assert visited <= cells && x in cells && x !in visited by {
      forall c | c in order ensures c in cells { InCellSet(d, c); }
    }
    HigherAreVisited(d, order, k);
    DrainedComplete(cells, flow, z, visited, x);
    forall c ensures !(x in flow && flow[x] == c) ==>
        Drained(cells, flow, visited + {x}, c) == Drained(cells, flow, visited, c) {
      DrainedNext(cells, flow, z, visited, x, c);
    }
    if x in flow {
      DrainedNext(cells, flow, z, visited, x, flow[x]);
      DrainedApart(cells, flow, z, visited, x);
      Acyclic(cells, flow, z, x);
      BasinSize(cells, flow, x);
    }
  }

  lemma BasinSize(cells: set<Cell>, flow: Flow, x: Cell)
    requires !Reaches(flow, x, x)
    ensures |Basin(cells, flow, x)| == |Upstream(cells, flow, x)| + 1
  {
  }

  lemma HigherAreVisited(d: Dem, order: seq<Cell>, k: nat)
    requires Rectangular(d) && k < |order|
    requires AllInside(d, order) && Descending(d, order) && forall c :: c in order <==> Inside(d, c)
    ensures forall y :: y in CellSet(d) && Heights(d)[y] > Heights(d)[order[k]] ==> y in First(order, k)
  {
    forall y | y in CellSet(d) && Heights(d)[y] > Heights(d)[order[k]] ensures y in First(order, k) {
      InCellSet(d, y);
      InCellSet(d, order[k]);
      var b :| 0 <= b < |order| && order[b] == y;
    }
  }

  /** The accumulation loop: each cell hands its own count and itself to its receiver. */
  method Accumulate(d: Dem, s: Scale, recv: array2<Option<Cell>>, order: seq<Cell>) returns (acc: array2<nat>)
    requires Rectangular(d) && Metric(s) && HoldsReceivers(d, s, recv)
    requires AllInside(d, order) && Descending(d, order) && Distinct(order) && forall c :: c in order <==> Inside(d, c)
    ensures fresh(acc) && acc.Length0 == d.h && acc.Length1 == d.w
    ensures forall c :: Inside(d, c) ==> acc[c.i, c.j] == |Upstream(CellSet(d), FlowOf(d, recv), c)|
  {
    hide IsReceiver, Before, Drained, Upstream, CellSet;
    acc := new nat[d.h, d.w]((_, _) => 0);
    ghost var cells, flow := CellSet(d), FlowOf(d, recv);
    FlowIsDownhill(d, s, recv);
    assert First(order, 0) == {};
    forall c ensures Drained(cells, flow, First(order, 0), c) == {} { NothingDrained(cells, flow, c); }
    var k := 0;
    while k < |order|
      invariant 0 <= k <= |order|
      invariant forall c :: Inside(d, c) ==> acc[c.i, c.j] == |Drained(cells, flow, First(order, k), c)|
    {
      var x := order[k];
      VisitCounts(d, flow, order, k);
      var r := recv[x.i, x.j];
      InCellSet(d, x);
      if r.Some? {
        ReceiverIsLower(d, s, x, r);
        acc[r.value.i, r.value.j] := acc[r.value.i, r.value.j] + acc[x.i, x.j] + 1;
      }
      k := k + 1;
    }
    forall c | Inside(d, c) ensures Drained(cells, flow, First(order, k), c) == Upstream(cells, flow, c) {
      InCellSet(d, c);
      forall y | y in cells ensures y in First(order, k) {
        InCellSet(d, y);
        assert order[..k] == order;
      }
      assert First(order, k) <= cells by {
        forall y | y in First(order, k) ensures y in cells { InCellSet(d, y); }
      }
      DrainedComplete(cells, flow, Heights(d), First(order, k), c);
    }
  }

  lemma NothingDrained(cells: set<Cell>, flow: Flow, c: Cell)
    ensures Drained(cells, flow, {}, c) == {}
  {
  }

  /** The value behind S33: the flow accumulation of the whole patch; None for the ValueError. */
  method TerrainFlow(d: Dem, s: Scale) returns (ok: bool, recv: array2<Option<Cell>>, acc: array2<nat>)
    requires Rectangular(d) && Metric(s)
    ensures ok == (d.h >= 3 && d.w >= 3 && d.h % 2 == 1 && d.w % 2 == 1)
    ensures ok ==> HoldsReceivers(d, s, recv) && acc.Length0 == d.h && acc.Length1 == d.w
    ensures ok ==> forall c :: Inside(d, c) ==> acc[c.i, c.j] == |Upstream(CellSet(d), FlowOf(d, recv), c)|
  {
    hide IsReceiver, Upstream;
    if d.h < 3 || d.w < 3 || d.h % 2 == 0 || d.w % 2 == 0 {
      recv := new Option<Cell>[0, 0];
      acc := new nat[0, 0];
      return false, recv, acc;
    }
    recv := FillReceivers(d, s);
    var order := SortedCells(d);
    acc := Accumulate(d, s, recv, order);
    ok := true;
  }

  lemma RowCount(i: int, w: nat)
    ensures |set j {:trigger Cell(i, j)} | 0 <= j < w :: Cell(i, j)| == w
  {
    if w > 0 {
      RowCount(i, w - 1);
      assert (set j {:trigger Cell(i, j)} | 0 <= j < w :: Cell(i, j))
          == (set j {:trigger Cell(i, j)} | 0 <= j < w - 1 :: Cell(i, j)) + {Cell(i, w - 1)};
    }
  }

  lemma GridCount(h: nat, w: nat)
    ensures |set i, j | 0 <= i < h && 0 <= j < w :: Cell(i, j)| == h * w
  {
    if h > 0 {
      GridCount(h - 1, w);
      RowCount(h - 1, w);
      var upper := set i, j | 0 <= i < h - 1 && 0 <= j < w :: Cell(i, j);
      var last := set j {:trigger Cell(h - 1, j)} | 0 <= j < w :: Cell(h - 1, j);
      assert (set i, j | 0 <= i < h && 0 <= j < w :: Cell(i, j)) == upper + last;
      assert upper !! last;
      assert h * w == (h - 1) * w + w;
    }
  }

  /** Over the cells that drain nowhere, accumulation plus one adds up to the whole grid. */
  lemma SinksHoldTheGrid(d: Dem, s: Scale, recv: array2<Option<Cell>>, sinks: seq<Cell>)
    requires Rectangular(d) && Metric(s) && HoldsReceivers(d, s, recv) && Distinct(sinks)
    requires forall c :: c in sinks <==> Inside(d, c) && recv[c.i, c.j].None?
    ensures CountPlusOne(d, FlowOf(d, recv), sinks) == d.h * d.w
  {
    hide IsReceiver, BasinSum, CountPlusOne;
    var cells, flow := CellSet(d), FlowOf(d, recv);
    FlowIsDownhill(d, s, recv);
    GridCount(d.h, d.w);
    forall c ensures c in sinks <==> c in cells && IsSink(flow, c) { InCellSet(d, c); }
    BasinsPartition(cells, flow, Heights(d), sinks);
    CountIsBasins(d, flow, sinks);
  }

  ghost function CountPlusOne(d: Dem, flow: Flow, sinks: seq<Cell>): nat {
    if sinks == [] then 0 else |Upstream(CellSet(d), flow, sinks[0])| + 1 + CountPlusOne(d, flow, sinks[1..])
  }

  lemma {:induction false} CountIsBasins(d: Dem, flow: Flow, sinks: seq<Cell>)
    requires Rectangular(d) && Downhill(CellSet(d), flow, Heights(d)) && forall c :: c in sinks ==> c in CellSet(d)
    ensures CountPlusOne(d, flow, sinks) == BasinSum(CellSet(d), flow, sinks)
    decreases |sinks|
  {
    if sinks != [] {
      Acyclic(CellSet(d), flow, Heights(d), sinks[0]);
      BasinSize(CellSet(d), flow, sinks[0]);
      CountIsBasins(d, flow, sinks[1..]);
    }
  }
}
