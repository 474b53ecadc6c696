/** A* with its built-in estimate and cost: the path returned costs at most 2/1.414 of the least,
    and there is a map on which it is not the least. */
module AStarDefaults {
  import opened PathSearch
  import opened AStarSearch

  const OVERSHOOT: real := 1000.0 / 707.0 // 2 / 1.414

  ghost predicate UsesDefaults(m: World) {
    m.cost == CommonCost && m.estimate == ManhattanDistance
  }

  lemma DefaultCostsPositive(m: World)
    requires UsesDefaults(m)
    ensures PositiveCosts(m)
  {
  }

  /** A diagonal step costs 1.414 and lowers the Manhattan distance by up to 2; no step does worse. */
  lemma DefaultConsistency(m: World, end: Cell)
    requires UsesDefaults(m)
    ensures Consistent(m, end, OVERSHOOT)
  {
  }

  predicate Closer(from: int, to: int, target: int) {
    (to == from + 1 && from < target) || (to == from - 1 && from > target)
  }

  /** The move goes toward the end in both coordinates. */
  predicate TowardEnd(a: Cell, b: Cell, end: Cell) {
    Closer(a.x, b.x, end.x) && Closer(a.y, b.y, end.y)
  }

  /** The default estimate is consistent exactly on the maps that allow no diagonal move toward the
      end between two open cells. On those findPath is optimal by `NearShortest` with w == 1. */
  lemma DefaultConsistentIff(m: World, end: Cell)
    requires UsesDefaults(m)
    ensures Consistent(m, end, 1.0) <==>
            forall a, b :: Open(m, a) && Step(m, a, b) ==> !TowardEnd(a, b, end)
  {
    forall a, b | Open(m, a) && Step(m, a, b)
      ensures Estimate(m, a, end) <= 1.0 * StepCost(m, a, b) + Estimate(m, b, end) <==> !TowardEnd(a, b, end)
    {
    }
  }

  /** With the defaults, whatever findPath returns costs at most 2/1.414 times any path. */
  lemma DefaultPathBound(q: Problem, cost: real, p: seq<Cell>)
    requires UsesDefaults(q.m) && NearShortest(q, cost) && Joins(q.m, p, q.start, q.end)
    ensures cost <= OVERSHOOT * Cost(q.m, p)
  {
    DefaultConsistency(q.m, q.end);
  }

  // ----- a map on which the defaults miss the shortest path

  predicate DetourBlocked(x: int, y: int) {
    Cell(x, y) !in {Cell(0, 1), Cell(0, 2), Cell(1, 0), Cell(1, 3), Cell(2, 1), Cell(2, 2), Cell(3, 2), Cell(4, 3)}
  }

  const DETOUR := Problem(World(5, 4, DetourBlocked, CommonCost, ManhattanDistance), Cell(0, 1), Cell(4, 3))

  /** u is the only choice popOpen has. */
  ghost predicate Forced(q: Problem, st: Search, u: Cell) {
    u in st.g && u in st.depth && u !in st.closed
    && forall c :: c in st.g && c !in st.closed && c != u ==> F(q, st, u) < F(q, st, c)
  }

  lemma ForcedIsLeast(q: Problem, st: Search, u: Cell, c: Cell)
    requires Forced(q, st, u) && Least(q, st, c)
    ensures c == u
  {
  }

  /** The least live entry of the heap, which popOpen returns, is that of the forced cell. */
  lemma ForcedIsPopped(q: Problem, st: Search, u: Cell, i: nat)
    requires Forced(q, st, u) && OpenOk(q, st) && i < |st.open| && !Stale(q, st, st.open[i])
    requires forall j :: 0 <= j < |st.open| ==> st.open[i].f <= st.open[j].f
    ensures st.open[i].cell == u
  {
    hide OpenOk, Forced;
    LiveIsLeast(q, st, i);
    ForcedIsLeast(q, st, u, st.open[i].cell);
  }

  ghost function Around(q: Problem, st: Search, u: Cell): (r: Search)
    requires u in st.g && u in st.depth
  {
    var t := Close(st, u);
    var a := Look(q, Look(q, Look(q, t, u, Cell(u.x - 1, u.y - 1)), u, Cell(u.x - 1, u.y)), u, Cell(u.x - 1, u.y + 1));
    var b := Look(q, Look(q, Look(q, a, u, Cell(u.x, u.y - 1)), u, Cell(u.x, u.y)), u, Cell(u.x, u.y + 1));
    Look(q, Look(q, Look(q, b, u, Cell(u.x + 1, u.y - 1)), u, Cell(u.x + 1, u.y)), u, Cell(u.x + 1, u.y + 1))
  }

  lemma ColumnIsThree(q: Problem, st: Search, u: Cell, x: int)
    requires u in st.g && u in st.depth
    ensures ScanColumn(q, st, u, x, u.y - 1)
            == Look(q, Look(q, Look(q, st, u, Cell(x, u.y - 1)), u, Cell(x, u.y)), u, Cell(x, u.y + 1))
  {
    hide Look;
    var a := Look(q, st, u, Cell(x, u.y - 1));
    LookIn(q, st, u, Cell(x, u.y - 1));
    var b := Look(q, a, u, Cell(x, u.y));
    LookIn(q, a, u, Cell(x, u.y));
    LookIn(q, b, u, Cell(x, u.y + 1));
    assert ScanColumn(q, b, u, x, u.y + 1) == Look(q, b, u, Cell(x, u.y + 1));
  }

  lemma LookIn(q: Problem, st: Search, u: Cell, v: Cell)
    requires u in st.g && u in st.depth
    ensures u in Look(q, st, u, v).g && u in Look(q, st, u, v).depth
  {
  }

  lemma ExpandIsAround(q: Problem, st: Search, u: Cell)
    requires u in st.g && u in st.depth
    ensures Expand(q, st, u) == Around(q, st, u)
  {
    hide Look;
    var t := Close(st, u);
    ColumnIsThree(q, t, u, u.x - 1);
    var a := ScanColumn(q, t, u, u.x - 1, u.y - 1);
    ColumnIsThree(q, a, u, u.x);
    var b := ScanColumn(q, a, u, u.x, u.y - 1);
    ColumnIsThree(q, b, u, u.x + 1);
    var c := ScanColumn(q, b, u, u.x + 1, u.y - 1);
    assert Scan(q, c, u, u.x + 2) == c;
    assert Scan(q, b, u, u.x + 1) == c;
    assert Scan(q, a, u, u.x) == c;
  }

  /** The cells one step away from each cell of the detour. */
  lemma Corridors()
    ensures forall v :: Step(DETOUR.m, Cell(0, 1), v) <==> v in {Cell(0, 2), Cell(1, 0)}
    ensures forall v :: Step(DETOUR.m, Cell(0, 2), v) <==> v in {Cell(0, 1), Cell(1, 3)}
    ensures forall v :: Step(DETOUR.m, Cell(1, 3), v) <==> v in {Cell(0, 2), Cell(2, 2)}
    ensures forall v :: Step(DETOUR.m, Cell(2, 2), v) <==> v in {Cell(1, 3), Cell(2, 1), Cell(3, 2)}
    ensures forall v :: Step(DETOUR.m, Cell(3, 2), v) <==> v in {Cell(2, 1), Cell(2, 2), Cell(4, 3)}
  {
  }

  /** The cells in the order in which they must be popped. */
  function ForcedCell(n: nat): (r: Cell)
    requires n <= 5
  {
    if n == 0 then Cell(0, 1) else if n == 1 then Cell(0, 2) else if n == 2 then Cell(1, 3)
    else if n == 3 then Cell(2, 2) else if n == 4 then Cell(3, 2) else Cell(4, 3)
  }

  /** The g of every discovered cell after n expansions. */
  function DetourCosts(n: nat): (r: map<Cell, real>)
    requires n <= 5
  {
    if n == 0 then map[Cell(0, 1) := 0.0]
    else if n == 1 then map[Cell(0, 1) := 0.0, Cell(0, 2) := 1.0, Cell(1, 0) := 1.414]
    else if n == 2 then map[Cell(0, 1) := 0.0, Cell(0, 2) := 1.0, Cell(1, 0) := 1.414, Cell(1, 3) := 2.414]
    else if n == 3 then
      map[Cell(0, 1) := 0.0, Cell(0, 2) := 1.0, Cell(1, 0) := 1.414, Cell(1, 3) := 2.414, Cell(2, 2) := 3.828]
    else if n == 4 then
      map[Cell(0, 1) := 0.0, Cell(0, 2) := 1.0, Cell(1, 0) := 1.414, Cell(1, 3) := 2.414,
          Cell(2, 2) := 3.828, Cell(2, 1) := 4.828, Cell(3, 2) := 4.828]
    else
      map[Cell(0, 1) := 0.0, Cell(0, 2) := 1.0, Cell(1, 0) := 1.414, Cell(1, 3) := 2.414,
          Cell(2, 2) := 3.828, Cell(2, 1) := 4.828, Cell(3, 2) := 4.828, Cell(4, 3) := 6.242]
  }

  function DetourClosed(n: nat): (r: set<Cell>)
    requires n <= 5
  {
    if n == 0 then {}
    else if n == 1 then {Cell(0, 1)}
    else if n == 2 then {Cell(0, 1), Cell(0, 2)}
    else if n == 3 then {Cell(0, 1), Cell(0, 2), Cell(1, 3)}
    else if n == 4 then {Cell(0, 1), Cell(0, 2), Cell(1, 3), Cell(2, 2)}
    else {Cell(0, 1), Cell(0, 2), Cell(1, 3), Cell(2, 2), Cell(3, 2)}
  }

  /** The search on the detour map after n expansions. */
  ghost predicate Stage(st: Search, n: nat) {
    n <= 5 && st.depth.Keys == st.g.Keys && st.g == DetourCosts(n) && st.closed == DetourClosed(n)
  }

  lemma DetourStep1(st: Search)
    requires Stage(st, 0)
    ensures Cell(0, 1) in st.g && Cell(0, 1) in st.depth
    ensures Stage(Expand(DETOUR, st, Cell(0, 1)), 1)
  {
    hide Step, Expand, Scan, ScanColumn;
    ExpandIsAround(DETOUR, st, Cell(0, 1));
    Corridors();
  }

  lemma DetourStep2(st: Search)
    requires Stage(st, 1)
    ensures Cell(0, 2) in st.g && Cell(0, 2) in st.depth
    ensures Stage(Expand(DETOUR, st, Cell(0, 2)), 2)
  {
    hide Step, Expand, Scan, ScanColumn;
    ExpandIsAround(DETOUR, st, Cell(0, 2));
    Corridors();
  }

  lemma DetourStep3(st: Search)
    requires Stage(st, 2)
    ensures Cell(1, 3) in st.g && Cell(1, 3) in st.depth
    ensures Stage(Expand(DETOUR, st, Cell(1, 3)), 3)
  {
    hide Step, Expand, Scan, ScanColumn;
    ExpandIsAround(DETOUR, st, Cell(1, 3));
    Corridors();
  }

  lemma DetourStep4(st: Search)
    requires Stage(st, 3)
    ensures Cell(2, 2) in st.g && Cell(2, 2) in st.depth
    ensures Stage(Expand(DETOUR, st, Cell(2, 2)), 4)
  {
    hide Step, Expand, Scan, ScanColumn;
    ExpandIsAround(DETOUR, st, Cell(2, 2));
    Corridors();
  }

  lemma DetourStep5(st: Search)
    requires Stage(st, 4)
    ensures Cell(3, 2) in st.g && Cell(3, 2) in st.depth
    ensures Stage(Expand(DETOUR, st, Cell(3, 2)), 5)
  {
    hide Step, Expand, Scan, ScanColumn;
    ExpandIsAround(DETOUR, st, Cell(3, 2));
    Corridors();
  }

  lemma DetourEnd(st: Search)
    requires Stage(st, 5)
    ensures Cell(4, 3) in st.g && st.g[Cell(4, 3)] == 6.242
  {
  }

  /** The keys of the other open cells are larger. */
  lemma StageForces(st: Search, n: nat)
    requires Stage(st, n)
    ensures Forced(DETOUR, st, ForcedCell(n))
  {
  }

  /** At every stage popOpen has one choice. */
  lemma DetourForced(st: Search, n: nat)
    requires Stage(st, n)
    ensures Forced(DETOUR, st, ForcedCell(n))
    ensures n < 5 ==> ForcedCell(n) in st.g && ForcedCell(n) in st.depth
                      && Stage(Expand(DETOUR, st, ForcedCell(n)), n + 1)
  {
    hide Stage, Forced, Expand;
    ForcedKeys(st, n);
    StageForces(st, n);
    if n == 0 { DetourStep1(st); }
    else if n == 1 { DetourStep2(st); }
    else if n == 2 { DetourStep3(st); }
    else if n == 3 { DetourStep4(st); }
    else if n == 4 { DetourStep5(st); }
  }

  lemma ForcedKeys(st: Search, n: nat)
    requires Stage(st, n)
    ensures n <= 5 && ForcedCell(n) in st.g && ForcedCell(n) in st.depth
  {
  }

  /** Every least-first search of the detour goes through these stages and stops before the end. */
  lemma {:induction false} DetourStages(order: seq<Cell>, t: Search)
    requires Popped(DETOUR, order, t)
    ensures Stage(t, |order|)
    decreases |order|
  {
    hide Expand, Least, Forced, ForcedCell, DetourCosts, DetourClosed;
    if order == [] {
      FirstStage();
    } else {
      var front, c := order[..|order| - 1], order[|order| - 1];
      var st :| Popped(DETOUR, front, st) && PopStep(DETOUR, st, c, t);
      DetourStages(front, st);
      DetourForced(st, |front|);
      ForcedIsLeast(DETOUR, st, ForcedCell(|front|), c);
      LastForced();
    }
  }

  lemma FirstStage()
    ensures Stage(Bare(Initial(DETOUR)), 0)
  {
  }

  lemma LastForced()
    ensures ForcedCell(5) == DETOUR.end && forall n: nat :: n < 5 ==> ForcedCell(n) != DETOUR.end
  {
  }

  /** On this map every least-first search comes to the end with g == 6.242. */
  lemma DetourCost(cost: real)
    requires Searched(DETOUR, cost)
    ensures cost == 6.242
  {
    hide Popped, Forced, ForcedCell, Stage;
    var order, t :| Popped(DETOUR, order, t) && Least(DETOUR, t, DETOUR.end) && t.g[DETOUR.end] == cost;
    DetourStages(order, t);
    DetourForced(t, |order|);
    ForcedKeys(t, |order|);
    ForcedIsLeast(DETOUR, t, ForcedCell(|order|), DETOUR.end);
    LastForced();
    DetourEnd(t);
  }

  lemma DiagonalCost(m: World, p: seq<Cell>, c: Cell)
    requires m == DETOUR.m && IsPath(m, p) && Step(m, p[|p| - 1], c)
    requires c.x != p[|p| - 1].x && c.y != p[|p| - 1].y
    ensures IsPath(m, p + [c]) && Cost(m, p + [c]) == Cost(m, p) + 1.414
  {
    assert (p + [c])[..|p|] == p;
  }

  lemma DiagonalPath() returns (p: seq<Cell>)
    ensures Joins(DETOUR.m, p, DETOUR.start, DETOUR.end) && Cost(DETOUR.m, p) == 5.656
  {
    hide Cost;
    p := [Cell(0, 1)];
    assert Cost(DETOUR.m, p) == 0.0 by { StartCost(DETOUR.m, Cell(0, 1)); }
    DiagonalCost(DETOUR.m, p, Cell(1, 0));
    DiagonalCost(DETOUR.m, p + [Cell(1, 0)], Cell(2, 1));
    DiagonalCost(DETOUR.m, p + [Cell(1, 0)] + [Cell(2, 1)], Cell(3, 2));
    DiagonalCost(DETOUR.m, p + [Cell(1, 0)] + [Cell(2, 1)] + [Cell(3, 2)], Cell(4, 3));
    p := p + [Cell(1, 0)] + [Cell(2, 1)] + [Cell(3, 2)] + [Cell(4, 3)];
  }

  lemma StartCost(m: World, c: Cell)
    ensures Cost(m, [c]) == 0.0
  {
  }

  /** With the default estimate findPath is not optimal: on this map whatever it finds costs 6.242,
      although there is a path that costs 5.656. */
  lemma DefaultsMissShortestPath() returns (p: seq<Cell>)
    ensures forall cost :: Searched(DETOUR, cost) ==> cost == 6.242
    ensures Joins(DETOUR.m, p, DETOUR.start, DETOUR.end) && Cost(DETOUR.m, p) == 5.656
  {
    p := DiagonalPath();
    forall cost | Searched(DETOUR, cost) ensures cost == 6.242 {
      DetourCost(cost);
    }
  }

  // ----- findPath with the defaults

  /** Neither callback has been set by the caller. */
  ghost predicate KeepsDefaults(search: AStar)
    reads search
  {
    && (search.heuristic.Unset? || search.heuristic == Set(ManhattanDistance))
    && (search.getCost.Unset? || search.getCost == Set(CommonCost))
  }

  function DefaultWorld(grid: AbstractMap): (r: World) {
    World(grid.width, grid.height, grid.isBlock, CommonCost, ManhattanDistance)
  }

  /** A call of findPath without callbacks, with a limit that no search can hit: it finds a path
      exactly when there is one, costing at most 2/1.414 of any path, and a shortest one when no two
      open cells allow a diagonal move toward the end. */
  method FindWithDefaults(search: AStar, grid: AbstractMap, start: Cell, end: Cell)
    returns (found: bool, ghost p: seq<Cell>)
    requires search.Valid() && KeepsDefaults(search)
    requires grid.width * grid.height < 0x8000_0000 && search.maxCount >= grid.width * grid.height
    requires InMap(DefaultWorld(grid), start) && InMap(DefaultWorld(grid), end)
    requires start != end && !grid.isBlock(end.x, end.y)
    modifies search, search.store
    ensures search.Valid() && search.q == Problem(DefaultWorld(grid), start, end)
    ensures found <==> Reachable(search.q)
    ensures found ==> search.Answer(p)
    ensures found ==> forall p' :: Joins(search.q.m, p', start, end) ==>
                        Cost(search.q.m, p) <= OVERSHOOT * Cost(search.q.m, p')
    ensures found && (forall a, b :: Open(search.q.m, a) && Step(search.q.m, a, b) ==> !TowardEnd(a, b, end)) ==>
              forall p' :: Joins(search.q.m, p', start, end) ==> Cost(search.q.m, p) <= Cost(search.q.m, p')
  {
    hide Reachable, Cost, Consistent, Searched, PositiveCosts;
    ghost var m := DefaultWorld(grid);
    DefaultCostsPositive(m);
    found, p := search.FindPath(grid, start.x, start.y, end.x, end.y);
    if found {
      forall p' | Joins(m, p', start, end)
        ensures Cost(m, p) <= OVERSHOOT * Cost(m, p')
      {
        DefaultPathBound(search.q, Cost(m, p), p');
      }
      DefaultConsistentIff(m, end);
      if Consistent(m, end, 1.0) {
        forall p' | Joins(m, p', start, end) ensures Cost(m, p) <= Cost(m, p') {
          assert Cost(m, p) <= 1.0 * Cost(m, p');
        }
      }
    }
  }

  /** The detour, searched by findPath itself. */
  method FindDetour(search: AStar) returns (ghost p: seq<Cell>, ghost shorter: seq<Cell>)
    requires search.Valid() && KeepsDefaults(search) && search.maxCount >= 20
    modifies search, search.store
    ensures search.Answer(p) && search.q == DETOUR
    ensures search.lastPath[|search.lastPath| - 1].g == Cost(DETOUR.m, p) == 6.242
    ensures Joins(DETOUR.m, shorter, DETOUR.start, DETOUR.end) && Cost(DETOUR.m, shorter) == 5.656
  {
    hide Cost, Searched, NearShortest, Joins;
    var found;
    found, p := FindWithDefaults(search, AbstractMap(5, 4, DetourBlocked), DETOUR.start, DETOUR.end);
    shorter := DefaultsMissShortestPath();
    assert Reachable(DETOUR);
    assert search.Answer(p);
  }
}
