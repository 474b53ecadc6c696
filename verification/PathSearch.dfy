/** Shortest paths on a grid of cells, and the search state of A* as a value. The state records
    for every discovered cell its cost so far, its parent and its distance in steps, for the
    search as a whole the closed cells and the entries of the open heap. */
module PathSearch {
  import opened Basics

  datatype Cell = Cell(x: int, y: int)

  /** A map together with the cost and estimate functions of one search. */
  datatype World = World(width: nat, height: nat,
                         blocked: (int, int) -> bool,
                         cost: (int, int, int, int) -> real,
                         estimate: (int, int, int, int) -> real)

  predicate InMap(m: World, c: Cell) {
    0 <= c.x < m.width && 0 <= c.y < m.height
  }

  predicate Open(m: World, c: Cell) {
    InMap(m, c) && !m.blocked(c.x, c.y)
  }

  function StepCost(m: World, a: Cell, b: Cell): (r: real) {
    m.cost(a.x, a.y, b.x, b.y)
  }

  function Estimate(m: World, a: Cell, end: Cell): (r: real) {
    m.estimate(a.x, a.y, end.x, end.y)
  }

  predicate Near(a: Cell, b: Cell) {
    a != b && -1 <= b.x - a.x <= 1 && -1 <= b.y - a.y <= 1
  }

  /** One move in any of the eight directions onto an unblocked cell of the map. */
  predicate Step(m: World, a: Cell, b: Cell) {
    Near(a, b) && Open(m, b)
  }

  ghost predicate IsPath(m: World, p: seq<Cell>) {
    |p| > 0 && forall i :: 0 <= i < |p| - 1 ==> Step(m, p[i], p[i + 1])
  }

  ghost predicate Joins(m: World, p: seq<Cell>, a: Cell, b: Cell) {
    IsPath(m, p) && p[0] == a && p[|p| - 1] == b
  }

  ghost function Cost(m: World, p: seq<Cell>): (r: real) {
    if |p| <= 1 then 0.0 else Cost(m, p[..|p| - 1]) + StepCost(m, p[|p| - 2], p[|p| - 1])
  }

  ghost predicate PositiveCosts(m: World) {
    forall a, b :: InMap(m, a) && Step(m, a, b) ==> StepCost(m, a, b) > 0.0
  }

  /** The estimate drops by at most w times the cost of a step. With w == 1 this is the usual
      consistency of a heuristic. */
  ghost predicate Consistent(m: World, end: Cell, w: real) {
    forall a, b :: Open(m, a) && Step(m, a, b) ==> Estimate(m, a, end) <= w * StepCost(m, a, b) + Estimate(m, b, end)
  }

  // ----- the search state

  datatype Entry = Entry(f: real, cell: Cell)

  datatype Search = Search(g: map<Cell, real>, parent: map<Cell, Cell>, depth: map<Cell, nat>,
                           closed: set<Cell>, open: seq<Entry>)

  datatype Problem = Problem(m: World, start: Cell, end: Cell)

  /** The key under which a discovered cell is queued; the start is queued under 0. */
  function F(q: Problem, st: Search, c: Cell): (r: real)
    requires c in st.g
  {
    if c == q.start then 0.0 else st.g[c] + Estimate(q.m, c, q.end)
  }

  function Initial(q: Problem): (r: Search) {
    Search(map[q.start := 0.0], map[], map[q.start := 0], {}, [Entry(0.0, q.start)])
  }

  /** The look at neighbour v while u is expanded: v is discovered, improved or left alone. */
  function Relax(q: Problem, st: Search, u: Cell, v: Cell): (r: Search)
    requires u in st.g && u in st.depth
  {
    var g := st.g[u] + StepCost(q.m, u, v);
    if v in st.closed || (v in st.g && st.g[v] <= g) then st
    else Search(st.g[v := g], st.parent[v := u], st.depth[v := st.depth[u] + 1], st.closed,
                st.open + [Entry(g + Estimate(q.m, v, q.end), v)])
  }

  /** The parent tree: every discovered cell but the start has a closed parent one step away, and
      its cost is the cost of its parent plus that step. */
  ghost predicate TreeOk(q: Problem, st: Search) {
    && q.start in st.g && st.g[q.start] == 0.0
    && st.depth.Keys == st.g.Keys
    && st.closed <= st.g.Keys
    && (q.start in st.closed || st.g.Keys == {q.start})
    && (forall v :: v in st.g ==> NodeOk(q, st, v))
  }

  ghost predicate NodeOk(q: Problem, st: Search, v: Cell)
    requires v in st.g && st.depth.Keys == st.g.Keys
  {
    InMap(q.m, v) &&
    if v == q.start then st.g[v] == 0.0 && st.depth[v] == 0 && v !in st.parent
    else
      && v in st.parent && st.parent[v] in st.closed && st.parent[v] in st.g
      && Step(q.m, st.parent[v], v)
      && st.g[v] == st.g[st.parent[v]] + StepCost(q.m, st.parent[v], v)
      && st.g[v] > 0.0
      && st.depth[v] == st.depth[st.parent[v]] + 1
  }

  /** v has been looked at from the closed cell u. */
  ghost predicate Relaxed(q: Problem, st: Search, u: Cell, v: Cell) {
    v in st.closed || (u in st.g && v in st.g && st.g[v] <= st.g[u] + StepCost(q.m, u, v))
  }

  /** Position (x, y) of the neighbour loops has been passed by v. */
  predicate Before(v: Cell, x: int, y: int) {
    v.x < x || (v.x == x && v.y < y)
  }

  /** Every closed cell has been expanded, except that `now` has only been expanded up to (x, y). */
  ghost predicate Expanded(q: Problem, st: Search, now: Cell, x: int, y: int) {
    forall u, v :: u in st.closed && Step(q.m, u, v) && (u != now || Before(v, x, y)) ==> Relaxed(q, st, u, v)
  }

  ghost predicate AllExpanded(q: Problem, st: Search) {
    forall u, v :: u in st.closed && Step(q.m, u, v) ==> Relaxed(q, st, u, v)
  }

  /** Every path to a closed cell costs at least 1/w of the cell's g. */
  ghost predicate Bounded(q: Problem, st: Search, w: real) {
    forall p :: IsPath(q.m, p) && p[0] == q.start && p[|p| - 1] in st.closed && p[|p| - 1] in st.g ==>
      st.g[p[|p| - 1]] <= w * Cost(q.m, p)
  }

  /** However far off the estimate is, the search is off by no more. */
  ghost predicate NearOptimal(q: Problem, st: Search) {
    forall w: real :: w >= 1.0 && Consistent(q.m, q.end, w) ==> Bounded(q, st, w)
  }

  // ----- paths

  lemma {:induction false} CostSplit(m: World, p: seq<Cell>, k: nat)
    requires k < |p|
    ensures Cost(m, p) == Cost(m, p[..k + 1]) + Cost(m, p[k..])
    decreases |p|
  {
    if k == |p| - 1 {
      assert p[..k + 1] == p;
    } else {
      var front := p[..|p| - 1];
      CostSplit(m, front, k);
      assert front[..k + 1] == p[..k + 1];
      var tail := p[k..];
      assert tail[..|tail| - 1] == p[k..|p| - 1] == front[k..];
      assert tail[|tail| - 2] == p[|p| - 2];
    }
  }

  lemma {:induction false} CostNonNegative(m: World, p: seq<Cell>)
    requires IsPath(m, p) && InMap(m, p[0]) && PositiveCosts(m)
    ensures Cost(m, p) >= 0.0
  {
    if |p| > 1 {
      CostNonNegative(m, p[..|p| - 1]);
      LastStep(m, p);
    }
  }

  lemma LastStep(m: World, p: seq<Cell>)
    requires IsPath(m, p) && |p| > 1
    ensures Step(m, p[|p| - 2], p[|p| - 1]) && IsPath(m, p[..|p| - 1])
    ensures Open(m, p[0]) ==> Open(m, p[|p| - 2])
    ensures InMap(m, p[0]) ==> InMap(m, p[|p| - 2])
  {
    assert Step(m, p[|p| - 2], p[|p| - 2 + 1]);
    if |p| > 2 { assert Step(m, p[|p| - 3], p[|p| - 3 + 1]); }
  }

  lemma Distribute(w: real, a: real, b: real)
    ensures w * (a + b) == w * a + w * b
  {
  }

  /** Along a path of unblocked cells a consistent estimate drops by at most w times the cost. */
  lemma {:induction false} EstimateAlong(q: Problem, p: seq<Cell>, w: real)
    requires IsPath(q.m, p) && Open(q.m, p[0]) && Consistent(q.m, q.end, w)
    ensures Estimate(q.m, p[0], q.end) <= w * Cost(q.m, p) + Estimate(q.m, p[|p| - 1], q.end)
    decreases |p|
  {
    hide Step, Open;
    if |p| > 1 {
      var front := p[..|p| - 1];
      LastStep(q.m, p);
      EstimateAlong(q, front, w);
      var a, b := p[|p| - 2], p[|p| - 1];
      Distribute(w, Cost(q.m, front), StepCost(q.m, a, b));
    }
  }

  /** The first cell of a path that is not in the set. */
  lemma {:induction false} FirstOutside(p: seq<Cell>, s: set<Cell>) returns (k: nat)
    requires |p| > 0 && p[|p| - 1] !in s
    ensures k < |p| && p[k] !in s && forall i :: 0 <= i < k ==> p[i] in s
  {
    k := 0;
    while p[k] in s
      invariant k < |p| && forall i :: 0 <= i < k ==> p[i] in s
      decreases |p| - k
    {
      k := k + 1;
    }
  }

  // ----- what a step of the search keeps

  /** u has the least key of all discovered cells that are not closed. */
  ghost predicate Least(q: Problem, st: Search, u: Cell) {
    u in st.g && u !in st.closed && forall c :: c in st.g && c !in st.closed ==> F(q, st, u) <= F(q, st, c)
  }

  function Close(st: Search, u: Cell): (r: Search) {
    st.(closed := st.closed + {u})
  }

  lemma PartOfPath(m: World, p: seq<Cell>, i: nat, j: nat)
    requires IsPath(m, p) && i < j <= |p|
    ensures IsPath(m, p[i..j])
  {
    forall k | 0 <= k < |p[i..j]| - 1 ensures Step(m, p[i..j][k], p[i..j][k + 1]) {
      assert Step(m, p[i + k], p[i + k + 1]);
    }
  }

  /** On a path that has just left the closed cells, g is within w of the cost so far. */
  lemma FrontIsBounded(q: Problem, st: Search, w: real, p: seq<Cell>, k: nat)
    requires AllExpanded(q, st) && Bounded(q, st, w) && PositiveCosts(q.m) && w >= 1.0
    requires IsPath(q.m, p) && p[0] == q.start && 0 < k < |p|
    requires st.closed <= st.g.Keys && p[k - 1] in st.closed && p[k] !in st.closed && InMap(q.m, p[k - 1])
    ensures p[k] in st.g && st.g[p[k]] <= w * Cost(q.m, p[..k + 1])
  {
    hide Bounded, Near, InMap;
    var a, c, front, before := p[k - 1], p[k], p[..k + 1], p[..k];
    assert Step(q.m, a, p[k - 1 + 1]);
    assert Relaxed(q, st, a, c);
    PartOfPath(q.m, p, 0, k);
    BoundOn(q, st, w, before);
    assert front[..|front| - 1] == before;
    Scaled(w, Cost(q.m, before), StepCost(q.m, a, c));
  }

  lemma BoundOn(q: Problem, st: Search, w: real, p: seq<Cell>)
    requires Bounded(q, st, w) && IsPath(q.m, p) && p[0] == q.start
    requires p[|p| - 1] in st.closed && p[|p| - 1] in st.g
    ensures st.g[p[|p| - 1]] <= w * Cost(q.m, p)
  {
  }

  lemma Scaled(w: real, a: real, b: real)
    requires w >= 1.0 && b >= 0.0
    ensures w * a + b <= w * (a + b)
  {
    assert (w - 1.0) * b >= 0.0;
    Distribute(w, a, b);
  }

  lemma Combine(w: real, g: real, h: real, g': real, h': real, front: real, rest: real)
    requires g + h <= g' + h' && g' <= w * front && h' <= w * rest + h
    ensures g <= w * (front + rest)
  {
    Distribute(w, front, rest);
  }

  lemma ScaledNonNegative(w: real, a: real)
    requires w >= 1.0 && a >= 0.0
    ensures w * a >= 0.0
  {
  }

  /** The heart of optimality: no path to the cell being closed beats its g by more than w,
      although closed cells are never reopened. */
  lemma LeastIsBounded(q: Problem, st: Search, u: Cell, w: real, p: seq<Cell>)
    requires TreeOk(q, st) && AllExpanded(q, st) && Bounded(q, st, w) && Least(q, st, u)
    requires PositiveCosts(q.m) && w >= 1.0 && Consistent(q.m, q.end, w)
    requires Joins(q.m, p, q.start, u)
    ensures st.g[u] <= w * Cost(q.m, p)
  {
    hide *;
    Endpoints(q, p, u);
    if u == q.start {
      StartIsFree(q, st, w, p);
    } else {
      LeastKey(q, st, u);
      var k := FirstOutside(p, st.closed);
      PathParts(q, p, u, k);
      InTree(q, st, p[k - 1]);
      FrontIsBounded(q, st, w, p, k);
      var c, rest := p[k], p[k..];
      EstimateAlong(q, rest, w);
      CostSplit(q.m, p, k);
      Combine(w, st.g[u], Estimate(q.m, u, q.end), st.g[c], Estimate(q.m, c, q.end),
              Cost(q.m, p[..k + 1]), Cost(q.m, rest));
    }
  }

  lemma StartIsFree(q: Problem, st: Search, w: real, p: seq<Cell>)
    requires TreeOk(q, st) && IsPath(q.m, p) && p[0] == q.start && PositiveCosts(q.m) && w >= 1.0
    ensures q.start in st.g && st.g[q.start] <= w * Cost(q.m, p)
  {
    assert NodeOk(q, st, q.start);
    CostNonNegative(q.m, p);
    ScaledNonNegative(w, Cost(q.m, p));
  }

  lemma LeastKey(q: Problem, st: Search, u: Cell)
    requires TreeOk(q, st) && Least(q, st, u) && u != q.start
    ensures u in st.g && u !in st.closed && q.start in st.closed && st.closed <= st.g.Keys
    ensures forall c :: c in st.g && c !in st.closed ==>
              st.g[u] + Estimate(q.m, u, q.end) <= st.g[c] + Estimate(q.m, c, q.end)
  {
  }

  lemma Endpoints(q: Problem, p: seq<Cell>, u: Cell)
    requires Joins(q.m, p, q.start, u)
    ensures |p| > 0 && IsPath(q.m, p) && p[0] == q.start && p[|p| - 1] == u
  {
  }

  lemma PathParts(q: Problem, p: seq<Cell>, u: Cell, k: nat)
    requires Joins(q.m, p, q.start, u) && k < |p|
    ensures IsPath(q.m, p[k..]) && p[k..][|p[k..]| - 1] == u
    ensures k > 0 ==> Open(q.m, p[k])
  {
    PartOfPath(q.m, p, k, |p|);
    if k > 0 { assert Step(q.m, p[k - 1], p[k - 1 + 1]); }
  }

  lemma CloseKeepsBounds(q: Problem, st: Search, u: Cell)
    requires TreeOk(q, st) && AllExpanded(q, st) && NearOptimal(q, st) && Least(q, st, u) && PositiveCosts(q.m)
    ensures NearOptimal(q, Close(st, u))
  {
    hide TreeOk, AllExpanded, Consistent, PositiveCosts, Cost;
    forall w: real | w >= 1.0 && Consistent(q.m, q.end, w)
      ensures Bounded(q, Close(st, u), w)
    {
      assert Bounded(q, st, w);
      forall p | IsPath(q.m, p) && p[0] == q.start && p[|p| - 1] == u
        ensures st.g[u] <= w * Cost(q.m, p)
      {
        LeastIsBounded(q, st, u, w, p);
      }
    }
  }

  lemma CloseKeepsTree(q: Problem, st: Search, u: Cell)
    requires TreeOk(q, st) && u in st.g && AllExpanded(q, st)
    requires u == q.start || q.start in st.closed
    ensures TreeOk(q, Close(st, u)) && Expanded(q, Close(st, u), u, u.x - 1, u.y - 1)
  {
    var t := Close(st, u);
    forall v | v in t.g ensures NodeOk(q, t, v) {
      assert NodeOk(q, st, v);
    }
    forall a, v | a in t.closed && Step(q.m, a, v) && (a != u || Before(v, u.x - 1, u.y - 1))
      ensures Relaxed(q, t, a, v)
    {
      if a in st.closed { assert Relaxed(q, st, a, v); }
    }
  }

  lemma RelaxKeepsTree(q: Problem, st: Search, u: Cell, v: Cell)
    requires TreeOk(q, st) && u in st.closed && Step(q.m, u, v) && PositiveCosts(q.m)
    ensures TreeOk(q, Relax(q, st, u, v))
  {
    hide Near, Estimate;
    var t := Relax(q, st, u, v);
    assert NodeOk(q, st, u);
    if t != st {
      assert v != q.start;
      forall c | c in t.g ensures NodeOk(q, t, c) {
        if c != v { assert NodeOk(q, st, c); }
      }
    }
  }

  lemma RelaxKeepsBounds(q: Problem, st: Search, u: Cell, v: Cell)
    requires u in st.g && u in st.depth && NearOptimal(q, st)
    ensures NearOptimal(q, Relax(q, st, u, v))
  {
    var t := Relax(q, st, u, v);
    forall w: real | w >= 1.0 && Consistent(q.m, q.end, w) ensures Bounded(q, t, w) {
      assert Bounded(q, st, w);
    }
  }

  lemma RelaxAdvances(q: Problem, st: Search, u: Cell, v: Cell)
    requires TreeOk(q, st) && u in st.closed && Step(q.m, u, v)
    requires Expanded(q, st, u, v.x, v.y)
    ensures Expanded(q, Relax(q, st, u, v), u, v.x, v.y + 1)
  {
    var t := Relax(q, st, u, v);
    forall a, c | a in t.closed && Step(q.m, a, c) && (a != u || Before(c, v.x, v.y + 1))
      ensures Relaxed(q, t, a, c)
    {
      if a == u && c == v {
      } else {
        assert Before(c, v.x, v.y + 1) && c != v ==> Before(c, v.x, v.y);
        assert Relaxed(q, st, a, c);
      }
    }
  }

  // ----- following the parents

  /** The parents of a discovered cell, from the start to the cell. */
  ghost function Trail(q: Problem, st: Search, v: Cell): (p: seq<Cell>)
    requires TreeOk(q, st) && v in st.g
    ensures Joins(q.m, p, q.start, v) && Cost(q.m, p) == st.g[v]
    ensures |p| == st.depth[v] + 1
    decreases st.depth[v]
  {
    assert NodeOk(q, st, v);
    if v == q.start then [v]
    else
      var u := st.parent[v];
      var front := Trail(q, st, u);
      assert (front + [v])[..|front|] == front;
      front + [v]
  }

  // ----- completeness

  /** When every discovered cell is closed, a path cannot leave the closed cells. */
  lemma {:induction false} ClosedIsReachable(q: Problem, st: Search, p: seq<Cell>)
    requires TreeOk(q, st) && AllExpanded(q, st) && st.g.Keys <= st.closed
    requires IsPath(q.m, p) && p[0] == q.start
    ensures p[|p| - 1] in st.closed
  {
    if |p| > 1 {
      ClosedIsReachable(q, st, p[..|p| - 1]);
      assert Step(q.m, p[|p| - 2], p[|p| - 2 + 1]);
      assert Relaxed(q, st, p[|p| - 2], p[|p| - 1]);
    }
  }

  // ----- no more cells are closed than the map has

  function CellIndex(x: int, y: int, width: nat): (r: int) {
    y * width + x
  }

  function Index(m: World, c: Cell): (r: int) {
    CellIndex(c.x, c.y, m.width)
  }

  lemma IndexInjective(m: World, a: Cell, b: Cell)
    requires InMap(m, a) && InMap(m, b) && Index(m, a) == Index(m, b)
    ensures a == b
  {
    MulLe(a.y, b.y - 1, m.width);
    MulLe(b.y, a.y - 1, m.width);
    MulLe(a.y - 1, b.y, m.width);
    MulLe(b.y - 1, a.y, m.width);
  }

  lemma IndexInRange(m: World, c: Cell)
    requires InMap(m, c)
    ensures 0 <= Index(m, c) < m.width * m.height
  {
    MulLe(0, c.y, m.width);
    MulLe(c.y + 1, m.height, m.width);
    MulLe(c.y, m.height, m.width);
  }

  lemma {:induction false} AtMost(m: World, s: set<Cell>, n: nat)
    requires forall c :: c in s ==> InMap(m, c) && Index(m, c) < n
    ensures |s| <= n
    decreases n
  {
    if s != {} {
      var c :| c in s;
      IndexInRange(m, c);
      if exists d :: d in s && Index(m, d) == n - 1 {
        var d :| d in s && Index(m, d) == n - 1;
        forall e | e in s - {d} ensures Index(m, e) < n - 1 {
          if Index(m, e) == n - 1 { IndexInjective(m, d, e); }
        }
        AtMost(m, s - {d}, n - 1);
      } else {
        AtMost(m, s, n - 1);
      }
    }
  }

  /** Fewer cells are closed than the map holds as long as one of its cells is not closed. */
  lemma ClosedFewerThanMap(q: Problem, st: Search, c: Cell)
    requires TreeOk(q, st) && InMap(q.m, c) && c !in st.closed
    ensures |st.closed| < q.m.width * q.m.height
  {
    hide CellIndex;
    IndexInRange(q.m, c);
    var cells: nat := q.m.width * q.m.height;
    CloseOneMore(q, st, c, cells);
  }

  lemma CloseOneMore(q: Problem, st: Search, c: Cell, n: nat)
    requires TreeOk(q, st) && InMap(q.m, c) && c !in st.closed && n == q.m.width * q.m.height
    ensures |st.closed| < n
  {
    hide CellIndex;
    var s := st.closed + {c};
    forall d | d in s ensures InMap(q.m, d) && Index(q.m, d) < n {
      if d in st.closed { assert NodeOk(q, st, d); }
      IndexInRange(q.m, d);
    }
    AtMost(q.m, s, n);
  }

  // ----- the open heap with its stale entries

  ghost function Copies(open: seq<Entry>, e: Entry): (r: nat) {
    multiset(open)[e]
  }

  /** Every discovered cell that is not closed has exactly one live entry; its other entries are
      older and larger. */
  ghost predicate OpenOk(q: Problem, st: Search) {
    && (forall c :: c in st.g && c !in st.closed ==> Copies(st.open, Entry(F(q, st, c), c)) == 1)
    && (forall e :: e in st.open ==> e.cell in st.g && (e.cell !in st.closed ==> F(q, st, e.cell) <= e.f))
  }

  function Without(open: seq<Entry>, i: nat): (r: seq<Entry>)
    requires i < |open|
  {
    open[..i] + open[i + 1..]
  }

  lemma WithoutCopies(open: seq<Entry>, i: nat)
    requires i < |open|
    ensures multiset(Without(open, i)) == multiset(open) - multiset{open[i]}
    ensures forall e :: e in Without(open, i) ==> e in open
  {
    assert open == open[..i] + [open[i]] + open[i + 1..];
  }

  /** An entry that popOpen passes over: its cell is closed or has a better entry. */
  predicate Stale(q: Problem, st: Search, e: Entry)
    requires e.cell in st.g
  {
    e.cell in st.closed || e.f != F(q, st, e.cell)
  }

  lemma DropStale(q: Problem, st: Search, i: nat)
    requires OpenOk(q, st) && i < |st.open| && Stale(q, st, st.open[i])
    ensures OpenOk(q, st.(open := Without(st.open, i)))
  {
    WithoutCopies(st.open, i);
    var t := st.(open := Without(st.open, i));
    forall c | c in t.g && c !in t.closed ensures Copies(t.open, Entry(F(q, t, c), c)) == 1 {
      assert F(q, t, c) == F(q, st, c);
      assert st.open[i] != Entry(F(q, st, c), c);
    }
  }

  /** The live entry with the least key belongs to the discovered cell with the least key. */
  lemma PopLive(q: Problem, st: Search, i: nat)
    requires OpenOk(q, st) && i < |st.open| && !Stale(q, st, st.open[i])
    requires forall j :: 0 <= j < |st.open| ==> st.open[i].f <= st.open[j].f
    ensures var u := st.open[i].cell;
            Least(q, st, u) && OpenOk(q, Close(st.(open := Without(st.open, i)), u))
  {
    LiveIsLeast(q, st, i);
    WithoutCopies(st.open, i);
    var u := st.open[i].cell;
    var t := Close(st.(open := Without(st.open, i)), u);
    forall c | c in t.g && c !in t.closed ensures Copies(t.open, Entry(F(q, t, c), c)) == 1 {
      assert Copies(st.open, Entry(F(q, st, c), c)) == 1;
    }
    forall e | e in t.open ensures e.cell in t.g && (e.cell !in t.closed ==> F(q, t, e.cell) <= e.f) {
      assert e in st.open;
    }
  }

  lemma LiveIsLeast(q: Problem, st: Search, i: nat)
    requires OpenOk(q, st) && i < |st.open| && !Stale(q, st, st.open[i])
    requires forall j :: 0 <= j < |st.open| ==> st.open[i].f <= st.open[j].f
    ensures Least(q, st, st.open[i].cell)
  {
    forall c | c in st.g && c !in st.closed ensures F(q, st, st.open[i].cell) <= F(q, st, c) {
      assert Copies(st.open, Entry(F(q, st, c), c)) == 1;
      assert Entry(F(q, st, c), c) in st.open;
    }
  }

  lemma NothingOpen(q: Problem, st: Search)
    requires OpenOk(q, st) && st.open == []
    ensures st.g.Keys <= st.closed
  {
    forall c | c in st.g ensures c in st.closed {
      assert Copies([], Entry(F(q, st, c), c)) == 0;
    }
  }

  lemma RelaxKeepsOpen(q: Problem, st: Search, u: Cell, v: Cell)
    requires TreeOk(q, st) && OpenOk(q, st) && u in st.closed
    ensures OpenOk(q, Relax(q, st, u, v))
  {
    var t := Relax(q, st, u, v);
    if t != st {
      var e := t.open[|st.open|];
      assert t.open == st.open + [e];
      assert multiset(t.open) == multiset(st.open) + multiset{e};
      assert e == Entry(F(q, t, v), v);
      forall c | c in t.g && c !in t.closed ensures Copies(t.open, Entry(F(q, t, c), c)) == 1 {
        if c != v {
          assert F(q, t, c) == F(q, st, c);
        } else {
          assert e !in st.open;
        }
      }
    }
  }

  // ----- expanding a cell

  /** One position of the neighbour loops. */
  function Look(q: Problem, st: Search, u: Cell, v: Cell): (r: Search)
    requires u in st.g && u in st.depth
  {
    if Step(q.m, u, v) then Relax(q, st, u, v) else st
  }

  function ScanColumn(q: Problem, st: Search, u: Cell, x: int, y: int): (t: Search)
    requires u in st.g && u in st.depth
    ensures u in t.g && u in t.depth
    decreases u.y + 2 - y
  {
    if y > u.y + 1 then st else ScanColumn(q, Look(q, st, u, Cell(x, y)), u, x, y + 1)
  }

  function Scan(q: Problem, st: Search, u: Cell, x: int): (r: Search)
    requires u in st.g && u in st.depth
    decreases u.x + 2 - x
  {
    if x > u.x + 1 then st else Scan(q, ScanColumn(q, st, u, x, u.y - 1), u, x + 1)
  }

  /** u is closed and its neighbours are looked at, column by column. */
  function Expand(q: Problem, st: Search, u: Cell): (r: Search)
    requires u in st.g && u in st.depth
  {
    Scan(q, Close(st, u), u, u.x - 1)
  }

  ghost predicate ScanOk(q: Problem, st: Search, u: Cell, x: int, y: int) {
    TreeOk(q, st) && OpenOk(q, st) && NearOptimal(q, st) && u in st.closed && Expanded(q, st, u, x, y)
  }

  lemma LookKeeps(q: Problem, st: Search, u: Cell, x: int, y: int)
    requires ScanOk(q, st, u, x, y) && PositiveCosts(q.m)
    ensures ScanOk(q, Look(q, st, u, Cell(x, y)), u, x, y + 1)
    ensures Look(q, st, u, Cell(x, y)).closed == st.closed
  {
    hide TreeOk, OpenOk, NearOptimal, PositiveCosts, Expanded;
    var v := Cell(x, y);
    InTree(q, st, u);
    if Step(q.m, u, v) {
      RelaxKeepsTree(q, st, u, v);
      RelaxKeepsBounds(q, st, u, v);
      RelaxKeepsOpen(q, st, u, v);
      RelaxAdvances(q, st, u, v);
    } else {
      NotAStep(q, st, u, v);
    }
  }

  lemma InTree(q: Problem, st: Search, u: Cell)
    requires TreeOk(q, st) && u in st.closed
    ensures u in st.g && u in st.depth && InMap(q.m, u)
  {
    assert NodeOk(q, st, u);
  }

  lemma NotAStep(q: Problem, st: Search, u: Cell, v: Cell)
    requires Expanded(q, st, u, v.x, v.y) && !Step(q.m, u, v)
    ensures Expanded(q, st, u, v.x, v.y + 1)
  {
    forall a, c | a in st.closed && Step(q.m, a, c) && (a != u || Before(c, v.x, v.y + 1))
      ensures Relaxed(q, st, a, c)
    {
      assert a != u || c != v;
      assert a == u ==> Before(c, v.x, v.y);
    }
  }

  lemma {:induction false} ScanColumnKeeps(q: Problem, st: Search, u: Cell, x: int, y: int)
    requires ScanOk(q, st, u, x, y) && PositiveCosts(q.m) && y <= u.y + 2 && u in st.g && u in st.depth
    ensures ScanOk(q, ScanColumn(q, st, u, x, y), u, x, u.y + 2)
    ensures ScanColumn(q, st, u, x, y).closed == st.closed
    decreases u.y + 2 - y
  {
    hide ScanOk, PositiveCosts, Look;
    if y <= u.y + 1 {
      LookKeeps(q, st, u, x, y);
      ScanIn(q, Look(q, st, u, Cell(x, y)), u, x, y + 1);
      ScanColumnKeeps(q, Look(q, st, u, Cell(x, y)), u, x, y + 1);
    }
  }

  lemma ScanIn(q: Problem, st: Search, u: Cell, x: int, y: int)
    requires ScanOk(q, st, u, x, y)
    ensures u in st.g && u in st.depth
  {
    InTree(q, st, u);
  }

  lemma NextColumn(q: Problem, st: Search, u: Cell, x: int)
    requires ScanOk(q, st, u, x, u.y + 2)
    ensures ScanOk(q, st, u, x + 1, u.y - 1)
  {
    hide TreeOk, OpenOk, NearOptimal;
    forall a, c | a in st.closed && Step(q.m, a, c) && (a != u || Before(c, x + 1, u.y - 1))
      ensures Relaxed(q, st, a, c)
    {
    }
  }

  lemma {:induction false} ScanKeeps(q: Problem, st: Search, u: Cell, x: int)
    requires ScanOk(q, st, u, x, u.y - 1) && PositiveCosts(q.m) && x <= u.x + 2 && u in st.g && u in st.depth
    ensures ScanOk(q, Scan(q, st, u, x), u, u.x + 2, u.y - 1)
    ensures Scan(q, st, u, x).closed == st.closed
    decreases u.x + 2 - x
  {
    hide ScanOk, PositiveCosts, ScanColumn;
    if x <= u.x + 1 {
      ScanColumnKeeps(q, st, u, x, u.y - 1);
      NextColumn(q, ScanColumn(q, st, u, x, u.y - 1), u, x);
      ScanKeeps(q, ScanColumn(q, st, u, x, u.y - 1), u, x + 1);
    }
  }

  /** Everything the search keeps between two expansions. */
  ghost predicate SearchOk(q: Problem, st: Search) {
    TreeOk(q, st) && OpenOk(q, st) && NearOptimal(q, st) && AllExpanded(q, st)
  }

  lemma InitialOk(q: Problem)
    requires InMap(q.m, q.start)
    ensures SearchOk(q, Initial(q))
  {
    var st := Initial(q);
    assert NodeOk(q, st, q.start);
    assert multiset(st.open)[Entry(0.0, q.start)] == 1;
  }

  /** Closing the cell popOpen returned leaves the search ready to look at its neighbours. */
  lemma ReadyToScan(q: Problem, st: Search, i: nat)
    requires SearchOk(q, st) && PositiveCosts(q.m) && i < |st.open| && !Stale(q, st, st.open[i])
    requires forall j :: 0 <= j < |st.open| ==> st.open[i].f <= st.open[j].f
    ensures var u, t := st.open[i].cell, st.(open := Without(st.open, i));
            && u in t.g && u in t.depth && u !in st.closed
            && ScanOk(q, Close(t, u), u, u.x - 1, u.y - 1)
  {
    hide Scan, TreeOk, OpenOk, NearOptimal, AllExpanded, Expanded, PositiveCosts;
    var u := st.open[i].cell;
    PopLive(q, st, i);
    LeastInTree(q, st, u);
    CloseKeepsTree(q, st, u);
    CloseKeepsBounds(q, st, u);
    OpenIrrelevant(q, Close(st, u), Close(st.(open := Without(st.open, i)), u), u, u.x - 1, u.y - 1);
  }

  /** Expanding the cell popOpen returned keeps the search in order and closes one more cell. */
  lemma ExpandKeeps(q: Problem, st: Search, i: nat)
    requires SearchOk(q, st) && PositiveCosts(q.m) && i < |st.open| && !Stale(q, st, st.open[i])
    requires forall j :: 0 <= j < |st.open| ==> st.open[i].f <= st.open[j].f
    ensures var u, t := st.open[i].cell, st.(open := Without(st.open, i));
            && u in t.g && u in t.depth && u !in st.closed
            && SearchOk(q, Expand(q, t, u)) && Expand(q, t, u).closed == st.closed + {u}
  {
    hide Scan, TreeOk, OpenOk, NearOptimal, AllExpanded, Expanded, PositiveCosts;
    ReadyToScan(q, st, i);
    var u, t := st.open[i].cell, st.(open := Without(st.open, i));
    ScanKeeps(q, Close(t, u), u, u.x - 1);
    AllPassed(q, Expand(q, t, u), u);
  }

  lemma LeastInTree(q: Problem, st: Search, u: Cell)
    requires TreeOk(q, st) && Least(q, st, u)
    ensures u in st.g && u in st.depth && u !in st.closed && (u == q.start || q.start in st.closed)
  {
  }

  /** Only the heap invariant looks at the entries. */
  lemma OpenIrrelevant(q: Problem, st: Search, t: Search, u: Cell, x: int, y: int)
    requires t == st.(open := t.open)
    requires TreeOk(q, st) && NearOptimal(q, st) && Expanded(q, st, u, x, y)
    ensures TreeOk(q, t) && NearOptimal(q, t) && Expanded(q, t, u, x, y)
  {
    forall v | v in t.g ensures NodeOk(q, t, v) {
      assert NodeOk(q, st, v);
    }
    forall w: real | w >= 1.0 && Consistent(q.m, q.end, w) ensures Bounded(q, t, w) {
      assert Bounded(q, st, w);
    }
    forall a, c | a in t.closed && Step(q.m, a, c) && (a != u || Before(c, x, y)) ensures Relaxed(q, t, a, c) {
      assert Relaxed(q, st, a, c);
    }
  }

  lemma AllPassed(q: Problem, st: Search, u: Cell)
    requires Expanded(q, st, u, u.x + 2, u.y - 1)
    ensures AllExpanded(q, st)
  {
  }

  lemma OtherEntries(q: Problem, st: Search, t: Search)
    requires SearchOk(q, st) && t == st.(open := t.open) && OpenOk(q, t)
    ensures SearchOk(q, t)
  {
    hide TreeOk, OpenOk, NearOptimal;
    forall u, v | u in t.closed && Step(q.m, u, v) ensures Relaxed(q, t, u, v) {
      assert Relaxed(q, st, u, v);
    }
    var u := Cell(0, 0);
    assert Expanded(q, st, u, 0, 0);
    OpenIrrelevant(q, st, t, u, 0, 0);
  }

  /** g is the cost of a path found within factor w of every path, for every w that bounds the
      inconsistency of the estimate; with a consistent estimate it is least. */
  ghost predicate NearShortest(q: Problem, cost: real) {
    forall w: real, p :: w >= 1.0 && Consistent(q.m, q.end, w) && Joins(q.m, p, q.start, q.end) ==>
      cost <= w * Cost(q.m, p)
  }

  lemma EndPopped(q: Problem, st: Search, i: nat)
    requires SearchOk(q, st) && PositiveCosts(q.m) && i < |st.open| && !Stale(q, st, st.open[i])
    requires forall j :: 0 <= j < |st.open| ==> st.open[i].f <= st.open[j].f
    requires st.open[i].cell == q.end
    ensures q.end in st.g && NearShortest(q, st.g[q.end])
  {
    hide TreeOk, OpenOk, PositiveCosts, AllExpanded, Consistent;
    LiveIsLeast(q, st, i);
    forall w: real, p | w >= 1.0 && Consistent(q.m, q.end, w) && Joins(q.m, p, q.start, q.end)
      ensures st.g[q.end] <= w * Cost(q.m, p)
    {
      LeastIsBounded(q, st, q.end, w, p);
    }
  }

  // ----- the order of a search

  /** A search without its heap. */
  function Bare(st: Search): (r: Search) {
    st.(open := [])
  }

  /** c, a cell with the least key, is closed and expanded. */
  ghost predicate PopStep(q: Problem, st: Search, c: Cell, t: Search) {
    Least(q, st, c) && c in st.depth && c != q.end && t == Bare(Expand(q, st, c))
  }

  /** A least-first search may have expanded these cells, in this order, and then be in state t. */
  ghost predicate Popped(q: Problem, order: seq<Cell>, t: Search)
    decreases |order|
  {
    if order == [] then t == Bare(Initial(q))
    else
      var front, c := order[..|order| - 1], order[|order| - 1];
      exists st :: Popped(q, front, st) && PopStep(q, st, c, t)
  }

  /** `cost` is the g of the end when some least-first search comes to it. */
  ghost predicate Searched(q: Problem, cost: real) {
    exists order, t :: Popped(q, order, t) && Least(q, t, q.end) && t.g[q.end] == cost
  }

  /** The same, with fewer than `limit` cells expanded before the end is reached. */
  ghost predicate SearchedWithin(q: Problem, cost: real, limit: int) {
    exists order, t ::
      |order| < limit && Popped(q, order, t) && Least(q, t, q.end) && t.g[q.end] == cost
  }

  /** A least-first search has expanded n cells, none of them the end. */
  ghost predicate GaveUp(q: Problem, n: nat) {
    exists order, t :: |order| == n && Popped(q, order, t) && q.end !in t.closed
  }

  lemma WithinIsSearched(q: Problem, cost: real, limit: int)
    requires SearchedWithin(q, cost, limit)
    ensures Searched(q, cost)
  {
  }

  lemma GivenUp(q: Problem, order: seq<Cell>, st: Search)
    requires Popped(q, order, Bare(st)) && q.end !in st.closed
    ensures GaveUp(q, |order|)
  {
    assert q.end !in Bare(st).closed;
  }

  /** A search expands every cell at most once: after n turns, n cells are closed. */
  lemma {:induction false} PoppedCloses(q: Problem, order: seq<Cell>, t: Search)
    requires Popped(q, order, t)
    ensures |t.closed| == |order| && forall c :: c in order <==> c in t.closed
    decreases |order|
  {
    hide Least, Scan;
    if order != [] {
      var front, c := order[..|order| - 1], order[|order| - 1];
      var st :| Popped(q, front, st) && PopStep(q, st, c, t);
      PoppedCloses(q, front, st);
      LeastNotClosed(q, st, c);
      ScanCloses(q, Close(st, c), c, c.x - 1);
      assert order == front + [c];
    }
  }

  lemma LeastNotClosed(q: Problem, st: Search, c: Cell)
    requires Least(q, st, c)
    ensures c in st.g && c !in st.closed
  {
  }

  lemma {:induction false} ColumnCloses(q: Problem, st: Search, u: Cell, x: int, y: int)
    requires u in st.g && u in st.depth
    ensures ScanColumn(q, st, u, x, y).closed == st.closed
    decreases u.y + 2 - y
  {
    if y <= u.y + 1 {
      ColumnCloses(q, Look(q, st, u, Cell(x, y)), u, x, y + 1);
    }
  }

  lemma {:induction false} ScanCloses(q: Problem, st: Search, u: Cell, x: int)
    requires u in st.g && u in st.depth
    ensures Scan(q, st, u, x).closed == st.closed
    decreases u.x + 2 - x
  {
    hide ScanColumn;
    if x <= u.x + 1 {
      ColumnCloses(q, st, u, x, u.y - 1);
      ScanCloses(q, ScanColumn(q, st, u, x, u.y - 1), u, x + 1);
    }
  }

  // ----- what the answers mean, in coordinates

  /** b is in the map, not blocked, and one of the eight neighbours of a. */
  predicate FollowsOn(m: World, a: Cell, b: Cell) {
    && 0 <= b.x < m.width && 0 <= b.y < m.height && !m.blocked(b.x, b.y)
    && a != b && -1 <= b.x - a.x <= 1 && -1 <= b.y - a.y <= 1
  }

  /** What a path is, in coordinates. */
  lemma PathMeans(m: World, p: seq<Cell>)
    ensures IsPath(m, p) <==> p != [] && forall i :: 1 <= i < |p| ==> FollowsOn(m, p[i - 1], p[i])
  {
    if IsPath(m, p) {
      forall i | 1 <= i < |p| ensures FollowsOn(m, p[i - 1], p[i]) {
        assert Step(m, p[i - 1], p[i - 1 + 1]);
      }
    }
    if p != [] && forall i :: 1 <= i < |p| ==> FollowsOn(m, p[i - 1], p[i]) {
      forall i | 0 <= i < |p| - 1 ensures Step(m, p[i], p[i + 1]) {
        var k := i + 1;
        assert FollowsOn(m, p[k - 1], p[k]);
      }
    }
  }

  /** The cost of a path is the sum of what the cost function says from each cell to the next. */
  lemma CostMeans(m: World, p: seq<Cell>, a: Cell, b: Cell)
    ensures Cost(m, [a]) == 0.0
    ensures Cost(m, p + [a, b]) == Cost(m, p + [a]) + m.cost(a.x, a.y, b.x, b.y)
  {
    var longer := p + [a, b];
    assert longer[..|longer| - 1] == p + [a];
  }

  /** The estimate goes from a cell to the end, the cost from a cell to its neighbour. */
  lemma ConsistentMeans(m: World, end: Cell, w: real)
    ensures Consistent(m, end, w) <==>
            forall a, b :: Open(m, a) && Step(m, a, b) ==>
              m.estimate(a.x, a.y, end.x, end.y) <= w * m.cost(a.x, a.y, b.x, b.y) + m.estimate(b.x, b.y, end.x, end.y)
  {
  }

  lemma BareLook(q: Problem, a: Search, b: Search, u: Cell, v: Cell)
    requires Bare(a) == Bare(b) && u in a.g && u in a.depth
    ensures u in Look(q, a, u, v).g && u in Look(q, a, u, v).depth
    ensures Bare(Look(q, a, u, v)) == Bare(Look(q, b, u, v))
  {
  }

  lemma {:induction false} BareScanColumn(q: Problem, a: Search, b: Search, u: Cell, x: int, y: int)
    requires Bare(a) == Bare(b) && u in a.g && u in a.depth
    ensures Bare(ScanColumn(q, a, u, x, y)) == Bare(ScanColumn(q, b, u, x, y))
    decreases u.y + 2 - y
  {
    hide Look;
    if y <= u.y + 1 {
      BareLook(q, a, b, u, Cell(x, y));
      BareScanColumn(q, Look(q, a, u, Cell(x, y)), Look(q, b, u, Cell(x, y)), u, x, y + 1);
    }
  }

  lemma {:induction false} BareScan(q: Problem, a: Search, b: Search, u: Cell, x: int)
    requires Bare(a) == Bare(b) && u in a.g && u in a.depth
    ensures Bare(Scan(q, a, u, x)) == Bare(Scan(q, b, u, x))
    decreases u.x + 2 - x
  {
    hide ScanColumn;
    if x <= u.x + 1 {
      BareScanColumn(q, a, b, u, x, u.y - 1);
      BareScan(q, ScanColumn(q, a, u, x, u.y - 1), ScanColumn(q, b, u, x, u.y - 1), u, x + 1);
    }
  }

  /** Expanding the cell popOpen returned is one step of a least-first search. */
  lemma PoppedMore(q: Problem, order: seq<Cell>, st: Search, t: Search, c: Cell)
    requires Popped(q, order, Bare(st)) && Least(q, st, c) && c in st.depth && c != q.end
    requires Bare(t) == Bare(st)
    ensures Popped(q, order + [c], Bare(Expand(q, t, c)))
  {
    BareScan(q, Close(t, c), Close(Bare(st), c), c, c.x - 1);
    hide Scan, Popped;
    assert PopStep(q, Bare(st), c, Bare(Expand(q, t, c)));
    AppendPop(q, order, Bare(st), c, Bare(Expand(q, t, c)));
  }

  lemma AppendPop(q: Problem, order: seq<Cell>, st: Search, c: Cell, t: Search)
    requires Popped(q, order, st) && PopStep(q, st, c, t)
    ensures Popped(q, order + [c], t)
  {
    var more := order + [c];
    assert more[..|more| - 1] == order && more[|more| - 1] == c;
  }

  lemma EndSearched(q: Problem, order: seq<Cell>, st: Search, limit: int)
    requires Popped(q, order, Bare(st)) && Least(q, st, q.end) && |order| < limit
    ensures Searched(q, st.g[q.end]) && SearchedWithin(q, st.g[q.end], limit)
  {
    assert Least(q, Bare(st), q.end) && Bare(st).g[q.end] == st.g[q.end];
  }

  /** The end has been popped. */
  lemma EndReached(q: Problem, order: seq<Cell>, st: Search, i: nat, limit: int)
    requires SearchOk(q, st) && PositiveCosts(q.m) && i < |st.open| && !Stale(q, st, st.open[i])
    requires forall j :: 0 <= j < |st.open| ==> st.open[i].f <= st.open[j].f
    requires st.open[i].cell == q.end && Popped(q, order, Bare(st)) && Least(q, st, q.end) && |order| < limit
    ensures TreeOk(q, st) && q.end in st.g && NearShortest(q, st.g[q.end])
    ensures Searched(q, st.g[q.end]) && SearchedWithin(q, st.g[q.end], limit)
  {
    EndPopped(q, st, i);
    EndSearched(q, order, st, limit);
  }

  lemma NothingPopped(q: Problem, st: Search)
    requires Bare(st) == Bare(Initial(q))
    ensures Popped(q, [], Bare(st))
  {
  }

  ghost predicate Reachable(q: Problem) {
    exists p :: Joins(q.m, p, q.start, q.end)
  }

  /** An exhausted search proves that there is no path. */
  lemma Exhausted(q: Problem, st: Search)
    requires SearchOk(q, st) && st.open == [] && q.end !in st.closed
    ensures !Reachable(q)
  {
    NothingOpen(q, st);
    forall p | Joins(q.m, p, q.start, q.end) ensures false {
      ClosedIsReachable(q, st, p);
    }
  }

  lemma {:induction false} OffColumn(q: Problem, st: Search, u: Cell, x: int, y: int)
    requires u in st.g && u in st.depth && !(0 <= x < q.m.width)
    ensures ScanColumn(q, st, u, x, y) == st
    decreases u.y + 2 - y
  {
    if y <= u.y + 1 {
      OffColumn(q, st, u, x, y + 1);
    }
  }
}
