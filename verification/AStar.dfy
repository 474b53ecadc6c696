/** A* over mutable nodes: a node store that is never cleared between searches, a lazy-deletion
    open heap, and the search itself, proved against the value-level search of `PathSearch`. */
module AStarSearch {
  import opened Basics
  import opened PathSearch

  const NUM_NODE_SIZE: nat := 1024

  class PathNode {
    var x: int
    var y: int
    var h: real
    var g: real
    var f: real
    var isClosed: bool
    var generation: nat
    var parent: PathNode?

    constructor ()
      ensures generation == 0
    {
      x, y, h, g, f, isClosed, generation, parent := 0, 0, 0.0, 0.0, 0.0, false, 0, null;
    }

    method Clear()
      modifies this
      ensures h == 0.0 && g == 0.0 && f == 0.0 && !isClosed && generation == 0 && parent == null
    {
      x, y, h, g, f, isClosed, generation, parent := 0, 0, 0.0, 0.0, 0.0, false, 0, null;
    }
  }

  datatype HeapItem = HeapItem(f: real, node: PathNode)

  /** A std::function member, which may be empty. */
  datatype Callback = Unset | Set(call: (int, int, int, int) -> real)

  /** The default estimate and cost. */
  function ManhattanDistance(x: int, y: int, endX: int, endY: int): (r: real) {
    (if x >= endX then x - endX else endX - x) as real + (if y >= endY then y - endY else endY - y) as real
  }

  function CommonCost(x1: int, y1: int, x2: int, y2: int): (r: real) {
    if x1 != x2 && y1 != y2 then 1.414 else 1.0
  }

  function Chunks(w: nat, h: nat): (r: nat) {
    (w * h + NUM_NODE_SIZE - 1) / NUM_NODE_SIZE
  }

  /** How many turns the main loop may take. */
  function Limit(maxCount: int): (n: nat) {
    if maxCount > 0 then maxCount else 0
  }

  lemma LimitIs(maxCount: int)
    ensures maxCount > 0 ==> Limit(maxCount) == maxCount
    ensures maxCount <= 0 ==> Limit(maxCount) == 0
  {
  }

  /** getNode finds no node for this index. */
  predicate OffStore(index: int, chunks: nat) {
    index < 0 || index / NUM_NODE_SIZE >= chunks
  }

  /** The map interface: its size and which cells are blocked. */
  datatype AbstractMap = AbstractMap(width: nat, height: nat, isBlock: (int, int) -> bool)

  class AStar {
    var count: int
    var maxCount: int
    var searchGeneration: nat
    var openHeap: seq<HeapItem>
    var lastPath: seq<PathNode>
    var mapNodes: seq<seq<PathNode>>
    var heuristic: Callback
    var getCost: Callback

    ghost var store: seq<PathNode> // the nodes of all chunks, in order
    ghost var q: Problem           // the search in progress
    ghost var st: Search
    ghost var at: map<Cell, PathNode>

    ghost predicate Shape()
      reads this`mapNodes, this`store
    {
      && |store| == NUM_NODE_SIZE * |mapNodes|
      && (forall r :: 0 <= r < |mapNodes| ==> |mapNodes[r]| == NUM_NODE_SIZE)
      && (forall r, c :: 0 <= r < |mapNodes| && 0 <= c < NUM_NODE_SIZE ==>
            mapNodes[r][c] == store[NUM_NODE_SIZE * r + c])
      && NoDup(store)
    }

    /** No node carries a generation of the future, so the next generation finds every node dirty. */
    ghost predicate Valid()
      reads this`mapNodes, this`store, this`searchGeneration, store
    {
      && Shape()
      && searchGeneration < U32
      && forall i :: 0 <= i < |store| ==> store[i].generation <= searchGeneration
    }

    constructor (max: int)
      ensures Valid() && maxCount == max && store == [] && heuristic == Unset && getCost == Unset
    {
      count, maxCount, searchGeneration := 0, max, 0;
      openHeap, lastPath, mapNodes, heuristic, getCost := [], [], [], Unset, Unset;
      store, at := [], map[];
    }

    method NewChunk() returns (chunk: seq<PathNode>)
      ensures |chunk| == NUM_NODE_SIZE && NoDup(chunk)
      ensures forall i :: 0 <= i < |chunk| ==> fresh(chunk[i]) && chunk[i].generation == 0
    {
      chunk := [];
      for i := 0 to NUM_NODE_SIZE
        invariant |chunk| == i && NoDup(chunk)
        invariant forall j :: 0 <= j < |chunk| ==> fresh(chunk[j]) && chunk[j].generation == 0
      {
        var node := new PathNode();
        chunk := chunk + [node];
      }
    }

    /** Makes the store large enough for a w by h map; it never shrinks. */
    method ResizeMap(w: nat, h: nat)
      requires Valid()
      modifies this`mapNodes, this`store
      ensures Valid() && old(store) <= store && |mapNodes| >= |old(mapNodes)|
      ensures |mapNodes| == if Chunks(w, h) > |old(mapNodes)| then Chunks(w, h) else |old(mapNodes)|
      ensures if w * h <= 1024 * |old(mapNodes)| then mapNodes == old(mapNodes)
              else 1024 * (|mapNodes| - 1) < w * h <= 1024 * |mapNodes|
      ensures forall i :: |old(store)| <= i < |store| ==> fresh(store[i])
    {
      var requireSize := Chunks(w, h);
      var oldSize := |mapNodes|;
      if oldSize < requireSize {
        for i := oldSize to requireSize
          invariant |mapNodes| == i && Valid() && old(store) <= store
          invariant forall i :: |old(store)| <= i < |store| ==> fresh(store[i])
        {
          var chunk := NewChunk();
          mapNodes := mapNodes + [chunk];
          store := store + chunk;
        }
      }
    }

    /** ++searchGeneration; when the counter wraps, every node is cleared once. */
    method NextGeneration()
      requires Valid()
      modifies this`searchGeneration, store
      ensures Valid() && 0 < searchGeneration
      ensures forall i :: 0 <= i < |store| ==> store[i].generation < searchGeneration
    {
      searchGeneration := (searchGeneration + 1) % U32;
      if searchGeneration == 0 {
        for r := 0 to |mapNodes|
          invariant Shape() && forall i :: 0 <= i < NUM_NODE_SIZE * r ==> store[i].generation == 0
        {
          for c := 0 to NUM_NODE_SIZE
            invariant Shape() && forall i :: 0 <= i < NUM_NODE_SIZE * r + c ==> store[i].generation == 0
          {
            assert mapNodes[r][c] == store[NUM_NODE_SIZE * r + c];
            mapNodes[r][c].Clear();
          }
        }
        searchGeneration := 1;
      }
    }

    /** The node of a cell, brought up to the current generation: a node that was last used by an
        earlier search looks as if it had just been created. */
    method GetNode(x: int, y: int, width: nat) returns (node: PathNode?)
      requires Valid()
      modifies var i := CellIndex(x, y, width); if 0 <= i < |store| then {store[i]} else {}
      ensures Valid()
      ensures var i := CellIndex(x, y, width);
              if OffStore(i, |mapNodes|) then node == null
              else i < |store| && node == store[i] && node.x == x && node.y == y && node.generation == searchGeneration
                   && (if old(store[i].generation) == searchGeneration then
                         && node.h == old(store[i].h) && node.g == old(store[i].g) && node.f == old(store[i].f)
                         && node.isClosed == old(store[i].isClosed) && node.parent == old(store[i].parent)
                       else node.h == 0.0 && node.g == 0.0 && node.f == 0.0 && !node.isClosed && node.parent == null)
    {
      var index := y * width + x;
      if index < 0 {
        return null;
      }
      var row := index / NUM_NODE_SIZE;
      var col := index - row * NUM_NODE_SIZE;
      if row >= |mapNodes| {
        return null;
      }
      assert mapNodes[row][col] == store[NUM_NODE_SIZE * row + col];
      node := mapNodes[row][col];
      if node.generation != searchGeneration {
        node.Clear();
        node.generation := searchGeneration;
      }
      node.x := x;
      node.y := y;
    }

    // ----- the link between the nodes and the search state

    /** `at` is the node of every cell of the map; different cells have different nodes. */
    ghost predicate Located()
      reads this`q, this`at, this`store
    {
      && (forall c :: c in at <==> InMap(q.m, c))
      && (forall c :: c in at ==> 0 <= Index(q.m, c) < |store| && at[c] == store[Index(q.m, c)])
      && (forall c, d :: c in at && d in at && at[c] == at[d] ==> c == d)
    }

    /** What the node of cell c holds; a node of another generation stands for an unseen cell. */
    ghost predicate Shows(c: Cell)
      requires c in at
      reads this`q, this`st, this`at, this`searchGeneration, at[c]
    {
      var n := at[c];
      if n.generation != searchGeneration then c !in st.g && c !in st.closed
      else
        && n.x == c.x && n.y == c.y && n.isClosed == (c in st.closed)
        && if c !in st.g then n.g == 0.0 && n.parent == null
           else
             && n.g == st.g[c] && n.f == F(q, st, c)
             && if c == q.start then n.parent == null
                else n.h == Estimate(q.m, c, q.end)
                     && c in st.parent && st.parent[c] in at && n.parent == at[st.parent[c]]
    }

    ghost predicate HeapShown()
      reads this`st, this`at, this`openHeap
    {
      && |openHeap| == |st.open|
      && forall i :: 0 <= i < |openHeap| ==>
           st.open[i].cell in at && openHeap[i] == HeapItem(st.open[i].f, at[st.open[i].cell])
    }

    ghost predicate Linked()
      reads this`q, this`st, this`at, this`searchGeneration, this`openHeap, this`mapNodes, this`store, store, at.Values
    {
      Valid() && Located() && HeapShown() && forall c :: c in at ==> Shows(c)
    }

    /** push_back and push_heap; where the item ends up in the heap order is not modelled. */
    method PushOpen(node: PathNode, ghost c: Cell)
      requires Linked() && c in at && node == at[c]
      modifies this`openHeap, this`st
      ensures Linked() && st == old(st).(open := old(st).open + [Entry(node.f, c)])
    {
      openHeap := openHeap + [HeapItem(node.f, node)];
      st := st.(open := st.open + [Entry(node.f, c)]);
      assert forall d :: d in at ==> old(Shows(d)) ==> Shows(d);
    }

    /** Index of an item with the least key, which pop_heap moves to the back. */
    method LeastItem() returns (i: nat)
      requires openHeap != []
      ensures i < |openHeap| && IsLeast(openHeap, i)
    {
      ghost var k := LeastExists(openHeap);
      i :| 0 <= i < |openHeap| && IsLeast(openHeap, i);
    }

    /** The next node to expand: that of a discovered cell with the least key of all that are not
        closed, or null when none is left.
        `pre` and `i` witness the state and the item of the last pop. */
    method PopOpen() returns (node: PathNode?, ghost pre: Search, ghost i: nat)
      requires Linked() && OpenOk(q, st)
      modifies this`openHeap, this`st
      ensures Linked() && pre == old(st).(open := pre.open) && OpenOk(q, pre)
      ensures node == null ==> st == pre && st.open == []
      ensures node != null ==>
                && i < |pre.open| && !Stale(q, pre, pre.open[i])
                && (forall j :: 0 <= j < |pre.open| ==> pre.open[i].f <= pre.open[j].f)
                && st == pre.(open := Without(pre.open, i)) && Least(q, pre, pre.open[i].cell)
                && pre.open[i].cell in at && node == at[pre.open[i].cell]
    {
      hide Valid, Located, OpenOk, Least;
      pre, i := st, 0;
      while openHeap != []
        invariant Linked() && st == old(st).(open := st.open) && OpenOk(q, st) && pre == st
        decreases |openHeap|
      {
        var top := LeastItem();
        var item := openHeap[top];
        i := top;
        PopItem(top);
        EntryInTree(q, pre, i);
        assert Shows(pre.open[i].cell);
        if item.node.generation != searchGeneration || item.node.isClosed {
          DropStale(q, pre, i);
          pre := st;
          continue;
        }
        if item.f != item.node.f {
          DropStale(q, pre, i);
          pre := st;
          continue;
        }
        LiveIsLeast(q, pre, i);
        return item.node, pre, i;
      }
      return null, pre, i;
    }

    /** The callbacks of the search in progress. */
    ghost predicate Configured()
      reads this`q, this`heuristic, this`getCost
    {
      heuristic == Set(q.m.estimate) && getCost == Set(q.m.cost)
    }

    /** The body of the neighbour loops at an unblocked cell of the map: the neighbour is discovered,
        given a better parent, or left alone. */
    method LookAt(current: PathNode, ghost u: Cell, x: int, y: int, width: nat, endX: int, endY: int)
      requires Linked() && Configured() && TreeOk(q, st) && PositiveCosts(q.m)
      requires u in at && current == at[u] && u in st.closed && u in st.depth
      requires Step(q.m, u, Cell(x, y)) && width == q.m.width && Cell(endX, endY) == q.end
      modifies this`openHeap, this`st, store
      ensures Linked()
      ensures st == Relax(q, old(st), u, Cell(x, y))
    {
      hide Linked, TreeOk, PositiveCosts, Step;
      ghost var v := Cell(x, y);
      InMapOf(q, u, v);
      TreeFacts(q, st, u, v);
      NodeOfCell(v);
      var node := Touch(v, x, y, width);
      ShownAt(u);
      ShownAt(v);
      if node.isClosed {
        return;
      }
      var g := current.g + getCost.call(current.x, current.y, x, y);
      if node.g != 0.0 {
        if g < node.g {
          Discover(node, v, current, u, g, node.h);
        }
      } else {
        var h := heuristic.call(x, y, endX, endY);
        Discover(node, v, current, u, g, h);
      }
    }

    lemma NodeOfCell(c: Cell)
      requires Linked()
      ensures InMap(q.m, c) <==> c in at
      ensures c in at ==> at[c] in store
    {
    }

    /** What an up-to-date node says about its cell. */
    lemma ShownAt(c: Cell)
      requires Linked() && c in at
      ensures var n := at[c];
              && (c in st.g ==> n.generation == searchGeneration)
              && (n.generation == searchGeneration ==>
                    && n.x == c.x && n.y == c.y && n.isClosed == (c in st.closed)
                    && (c in st.g ==> n.g == st.g[c])
                    && (c !in st.g ==> n.g == 0.0)
                    && (c in st.g && c != q.start ==> n.h == Estimate(q.m, c, q.end)))
    {
      assert Shows(c);
    }

    /** Closes a popped cell and looks at its eight neighbours, column by column. */
    method ExpandNode(current: PathNode, ghost u: Cell, grid: AbstractMap, endX: int, endY: int)
      requires Linked() && Configured() && PositiveCosts(q.m)
      requires u in at && current == at[u] && u in st.g && u in st.depth
      requires ScanOk(q, Close(st, u), u, u.x - 1, u.y - 1)
      requires grid.width == q.m.width && grid.height == q.m.height && grid.isBlock == q.m.blocked
      requires Cell(endX, endY) == q.end
      modifies this`openHeap, this`st, store
      ensures Linked() && st == Expand(q, old(st), u)
    {
      hide Linked, ScanOk, PositiveCosts, ScanColumn, Look, Step;
      ghost var target := Expand(q, st, u);
      NodeOfCell(u);
      MarkClosed(current, u);
      ShownAt(u);
      var x := current.x - 1;
      while x <= current.x + 1
        invariant Linked() && u in st.g && u in st.depth && u in st.closed && current.x == u.x && current.y == u.y
        invariant u.x - 1 <= x <= u.x + 2 && ScanOk(q, st, u, x, u.y - 1) && Scan(q, st, u, x) == target
        decreases u.x + 2 - x
      {
        ScanColumnKeeps(q, st, u, x, u.y - 1);
        NextColumn(q, ScanColumn(q, st, u, x, u.y - 1), u, x);
        if x < 0 || x >= grid.width {
          OffColumn(q, st, u, x, u.y - 1);
        } else {
          ScanRow(current, u, x, grid, endX, endY);
        }
        x := x + 1;
      }
    }

    method MarkClosed(current: PathNode, ghost u: Cell)
      requires Linked() && u in at && current == at[u] && u in st.g
      modifies this`st, current`isClosed
      ensures Linked() && st == Close(old(st), u)
    {
      assert Shows(u);
      current.isClosed := true;
      st := Close(st, u);
      forall c | c in at ensures Shows(c) {
        assert old(Shows(c));
      }
    }

    /** The inner loop: column x of the neighbours. */
    method ScanRow(current: PathNode, ghost u: Cell, x: int, grid: AbstractMap, endX: int, endY: int)
      requires Linked() && Configured() && PositiveCosts(q.m) && 0 <= x < grid.width
      requires u in at && current == at[u] && u in st.g && u in st.depth && u in st.closed
      requires u.x - 1 <= x <= u.x + 1 && ScanOk(q, st, u, x, u.y - 1)
      requires grid.width == q.m.width && grid.height == q.m.height && grid.isBlock == q.m.blocked
      requires Cell(endX, endY) == q.end
      modifies this`openHeap, this`st, store
      ensures Linked() && st == ScanColumn(q, old(st), u, x, u.y - 1)
      ensures current.x == u.x && current.y == u.y
    {
      hide Linked, ScanOk, PositiveCosts, TreeOk, ScanColumn, Relax;
      ghost var target := ScanColumn(q, st, u, x, u.y - 1);
      ShownAt(u);
      var y := current.y - 1;
      while y <= current.y + 1
        invariant Linked() && u in st.g && u in st.depth && u in st.closed && current.x == u.x && current.y == u.y
        invariant u.y - 1 <= y <= u.y + 2 && ScanOk(q, st, u, x, y) && ScanColumn(q, st, u, x, y) == target
        decreases u.y + 2 - y
      {
        LookKeeps(q, st, u, x, y);
        ScanTree(q, st, u, x, y);
        ScanNext(q, st, u, x, y);
        if 0 <= y < grid.height && !(x == current.x && y == current.y) && !grid.isBlock(x, y) {
          LookAt(current, u, x, y, grid.width, endX, endY);
          ScanTree(q, st, u, x, y + 1);
          ShownAt(u);
        }
        y := y + 1;
      }
      ScanEnd(q, st, u, x);
    }

    /** getNode for a cell of the search in progress: what it shows does not change. */
    method Touch(ghost v: Cell, x: int, y: int, width: nat) returns (node: PathNode)
      requires Linked() && v in at && v == Cell(x, y) && width == q.m.width
      modifies at[v]
      ensures Linked() && node == at[v] && node.generation == searchGeneration
    {
      assert Shows(v);
      var found := GetNode(x, y, width);
      node := found;
      forall c | c in at ensures Shows(c) {
        assert old(Shows(c));
      }
    }

    /** The assignments of g, f and parent, and pushOpen. */
    method Discover(node: PathNode, ghost v: Cell, current: PathNode, ghost u: Cell, g: real, h: real)
      requires Linked() && v in at && node == at[v] && u in at && current == at[u] && u != v
      requires node.generation == searchGeneration && v !in st.closed && v != q.start
      requires u in st.depth && h == Estimate(q.m, v, q.end)
      modifies this`openHeap, this`st, node
      ensures Linked()
      ensures st == Search(old(st).g[v := g], old(st).parent[v := u], old(st).depth[v := old(st).depth[u] + 1],
                           old(st).closed, old(st).open + [Entry(g + h, v)])
    {
      hide Linked;
      Reparent(node, v, current, u, g, h);
      PushOpen(node, v);
    }

    method Reparent(node: PathNode, ghost v: Cell, current: PathNode, ghost u: Cell, g: real, h: real)
      requires Linked() && v in at && node == at[v] && u in at && current == at[u] && u != v
      requires node.generation == searchGeneration && v !in st.closed && v != q.start
      requires u in st.depth && h == Estimate(q.m, v, q.end)
      modifies this`st, node
      ensures Linked() && node.f == g + h
      ensures st == Search(old(st).g[v := g], old(st).parent[v := u], old(st).depth[v := old(st).depth[u] + 1],
                           old(st).closed, old(st).open)
    {
      assert Shows(v);
      node.h := h;
      node.g := g;
      node.f := g + node.h;
      node.parent := current;
      st := st.(g := st.g[v := g], parent := st.parent[v := u], depth := st.depth[v := st.depth[u] + 1]);
      forall c | c in at ensures Shows(c) {
        assert old(Shows(c));
        if c != v { assert at[c] != node && unchanged(at[c]); }
      }
    }

    /** pop_heap and pop_back. */
    method PopItem(i: nat)
      requires Linked() && i < |openHeap|
      modifies this`openHeap, this`st
      ensures Linked() && i < |old(st).open| && st == old(st).(open := Without(old(st).open, i))
      ensures |openHeap| == |old(openHeap)| - 1
    {
      openHeap := openHeap[..i] + openHeap[i + 1..];
      st := st.(open := Without(st.open, i));
      assert forall d :: d in at ==> old(Shows(d)) ==> Shows(d);
    }

    /** The state of the search right after its two endpoints have been looked up: no other node
        has been touched, and only the start is discovered. */
    ghost method BeginSearch(p: Problem)
      requires Valid() && openHeap == []
      requires p.m.width * p.m.height <= |store| && InMap(p.m, p.start) && InMap(p.m, p.end)
      requires forall i :: 0 <= i < |store| ==>
                 Untouched(store[i]) || i == Index(p.m, p.start) || i == Index(p.m, p.end)
      requires CellFresh(p, p.start) && CellFresh(p, p.end)
      modifies this`q, this`st, this`at
      ensures Linked() && q == p && st == Initial(p).(open := [])
      ensures at[p.start] == store[Index(p.m, p.start)] && at[p.end] == store[Index(p.m, p.end)]
    {
      q := p;
      st := Initial(p).(open := []);
      at := NodesOf(store, p.m);
      NodesDistinct(store, p.m);
      forall c | c in at ensures Shows(c) {
        if Index(p.m, c) == Index(p.m, p.start) { IndexInjective(p.m, c, p.start); }
        if Index(p.m, c) == Index(p.m, p.end) { IndexInjective(p.m, c, p.end); }
      }
    }

    ghost predicate Untouched(n: PathNode)
      reads this`searchGeneration, n
    {
      n.generation < searchGeneration
    }

    /** The node of c has just been looked up for the first time in this search. */
    ghost predicate CellFresh(p: Problem, c: Cell)
      reads this`searchGeneration, this`store, store
    {
      var i := Index(p.m, c);
      && 0 <= i < |store|
      && var n := store[i];
         && n.generation == searchGeneration && n.x == c.x && n.y == c.y
         && n.g == 0.0 && n.f == 0.0 && !n.isClosed && n.parent == null
    }

    /** The path in lastPath: it starts with a neighbour of the start, every cell on it is an
        unblocked neighbour of the one before, and its cost, the g of the end, is near shortest and
        what a least-first search finds after fewer than maxCount turns. */
    ghost predicate Answer(p: seq<Cell>)
      reads this`q, this`lastPath, this`maxCount, lastPath
    {
      && Joins(q.m, p, q.start, q.end) && |lastPath| == |p| - 1 && |lastPath| > 0
      && (forall i :: 1 <= i < |p| ==> lastPath[i - 1].x == p[i].x && lastPath[i - 1].y == p[i].y)
      && lastPath[|lastPath| - 1].g == Cost(q.m, p)
      && NearShortest(q, Cost(q.m, p))
      && Searched(q, Cost(q.m, p)) && SearchedWithin(q, Cost(q.m, p), maxCount)
    }

    /** The main loop of findPath. */
    method RunSearch(end: PathNode, grid: AbstractMap, endX: int, endY: int) returns (ghost p: seq<Cell>)
      requires Linked() && Configured() && PositiveCosts(q.m) && SearchOk(q, st) && st == Initial(q)
      requires q.end in at && end == at[q.end] && q.start != q.end && lastPath == [] && count == 0
      requires grid.width == q.m.width && grid.height == q.m.height && grid.isBlock == q.m.blocked
      requires Cell(endX, endY) == q.end
      modifies this`openHeap, this`st, this`count, this`lastPath, store
      ensures Valid()
      ensures lastPath != [] ==> Answer(p)
      ensures lastPath == [] && count <= maxCount ==> !Reachable(q)
      ensures lastPath != [] ==> count <= maxCount
      ensures lastPath == [] && count > maxCount ==> GaveUp(q, Limit(maxCount))
      ensures maxCount >= grid.width * grid.height ==> count <= maxCount
    {
      hide *;
      p := [];
      LimitIs(maxCount);
      ghost var order: seq<Cell> := [];
      NodeOfCell(q.end);
      InitialFields(q);
      NothingPopped(q, st);
      SearchParts(q, st);
      ClosedFewerThanMap(q, st, q.end);
      StillValid();
      var more := count < maxCount;
      count := count + 1;
      while more
        invariant Linked() && SearchOk(q, st) && lastPath == [] && q.end !in st.closed
        invariant Popped(q, order, Bare(st)) && |order| == |st.closed| <= Limit(maxCount)
        invariant count == |st.closed| + 1 && (more <==> count <= maxCount)
        invariant |st.closed| < grid.width * grid.height
        decreases maxCount - count + (if more then 1 else 0)
      {
        var current, pre, i := PopNext();
        if current == null {
          Exhausted(q, st);
          break;
        }
        ghost var u := pre.open[i].cell;
        SameNode(u, q.end);
        if current == end {
          EndReached(q, order, pre, i, maxCount);
          p := Finish(end, pre);
          break;
        }
        Visit(current, order, pre, i, grid, endX, endY);
        order := order + [u];
        more := count < maxCount;
        count := count + 1;
      }
      if lastPath == [] && !more {
        GivenUp(q, order, st);
      }
      StillValid();
    }

    /** One turn of the main loop at a cell other than the end: one more cell is closed. */
    method Visit(current: PathNode, ghost order: seq<Cell>, ghost pre: Search, ghost i: nat,
                 grid: AbstractMap, endX: int, endY: int)
      requires Linked() && Configured() && PositiveCosts(q.m) && SearchOk(q, pre)
      requires i < |pre.open| && !Stale(q, pre, pre.open[i])
      requires forall j :: 0 <= j < |pre.open| ==> pre.open[i].f <= pre.open[j].f
      requires st == pre.(open := Without(pre.open, i)) && pre.open[i].cell in at && current == at[pre.open[i].cell]
      requires pre.open[i].cell != q.end && q.end !in pre.closed && q.end in at
      requires Popped(q, order, Bare(pre)) && Least(q, pre, pre.open[i].cell)
      requires grid.width == q.m.width && grid.height == q.m.height && grid.isBlock == q.m.blocked
      requires Cell(endX, endY) == q.end
      modifies this`openHeap, this`st, store
      ensures Linked() && SearchOk(q, st) && q.end !in st.closed
      ensures |st.closed| == |pre.closed| + 1 && |st.closed| < grid.width * grid.height
      ensures Popped(q, order + [pre.open[i].cell], Bare(st))
    {
      hide *;
      ghost var u := pre.open[i].cell;
      NodeOfCell(q.end);
      ReadyToScan(q, pre, i);
      ExpandKeeps(q, pre, i);
      SameBare(pre, st);
      SearchParts(q, pre);
      InTreeToo(q, pre, u);
      PoppedMore(q, order, pre, st, u);
      ExpandNode(current, u, grid, endX, endY);
      SearchParts(q, st);
      ClosedFewerThanMap(q, st, q.end);
    }

    /** popOpen in the main loop, where the search is in order before and after. */
    method PopNext() returns (node: PathNode?, ghost pre: Search, ghost i: nat)
      requires Linked() && SearchOk(q, st)
      modifies this`openHeap, this`st
      ensures Linked() && SearchOk(q, pre) && pre.closed == old(st).closed && Bare(pre) == Bare(old(st))
      ensures node == null ==> st == pre && st.open == []
      ensures node != null ==>
                && i < |pre.open| && !Stale(q, pre, pre.open[i])
                && (forall j :: 0 <= j < |pre.open| ==> pre.open[i].f <= pre.open[j].f)
                && st == pre.(open := Without(pre.open, i)) && Least(q, pre, pre.open[i].cell)
                && pre.open[i].cell in at && node == at[pre.open[i].cell]
    {
      hide *;
      ghost var before := st;
      SearchParts(q, st);
      node, pre, i := PopOpen();
      SameBare(before, pre);
      OtherEntries(q, before, pre);
    }

    lemma SameNode(c: Cell, d: Cell)
      requires Linked() && c in at && d in at
      ensures at[c] == at[d] <==> c == d
    {
    }

    lemma StillValid()
      requires Linked()
      ensures Valid()
    {
    }

    method Finish(end: PathNode, ghost pre: Search) returns (ghost p: seq<Cell>)
      requires Linked() && TreeOk(q, pre) && st == pre.(open := st.open) && lastPath == []
      requires q.start != q.end && q.end in at && end == at[q.end]
      requires q.end in pre.g && NearShortest(q, pre.g[q.end])
      requires Searched(q, pre.g[q.end]) && SearchedWithin(q, pre.g[q.end], maxCount)
      modifies this`lastPath
      ensures Answer(p) && lastPath != []
    {
      hide Linked, TreeOk, NearShortest, Searched, SearchedWithin, Trail;
      SameTree(q, pre, st);
      p := Trail(q, st, q.end);
      Trace(end, p);
      TrailInTree(q, st, q.end);
      forall i | 0 <= i < |p| ensures p[i] in at ==> at[p[i]].x == p[i].x && at[p[i]].y == p[i].y {
        if p[i] in at { ShownAt(p[i]); }
      }
      ShownAt(q.end);
    }

    /** The problem findPath solves for these arguments and callbacks. */
    ghost function ProblemOf(grid: AbstractMap, startX: int, startY: int, endX: int, endY: int): (r: Problem)
      reads this`heuristic, this`getCost
    {
      Problem(World(grid.width, grid.height, grid.isBlock,
                    if getCost.Set? then getCost.call else CommonCost,
                    if heuristic.Set? then heuristic.call else ManhattanDistance),
              Cell(startX, startY), Cell(endX, endY))
    }

    /** findPath. An endpoint outside the map is only handled where its node index is off the store. */
    method FindPath(grid: AbstractMap, startX: int, startY: int, endX: int, endY: int)
      returns (found: bool, ghost p: seq<Cell>)
      requires Valid() && grid.width * grid.height < 0x8000_0000
      requires PositiveCosts(ProblemOf(grid, startX, startY, endX, endY).m)
      requires var m := ProblemOf(grid, startX, startY, endX, endY).m;
               var needed := Chunks(grid.width, grid.height);
               var chunks := if needed > |mapNodes| then needed else |mapNodes|;
               (InMap(m, Cell(startX, startY)) && InMap(m, Cell(endX, endY)))
               || OffStore(Index(m, Cell(startX, startY)), chunks) || OffStore(Index(m, Cell(endX, endY)), chunks)
      modifies this, store
      ensures Valid() && openHeap == [] && maxCount == old(maxCount)
      ensures found ==> (lastPath == [] <==> startX == endX && startY == endY)
      ensures !found ==> lastPath == []
      ensures startX == endX && startY == endY ==> found
      ensures (startX != endX || startY != endY) && grid.isBlock(endX, endY) ==> !found
      ensures var prob := old(ProblemOf(grid, startX, startY, endX, endY));
              (startX != endX || startY != endY) && !grid.isBlock(endX, endY) ==>
                if InMap(prob.m, prob.start) && InMap(prob.m, prob.end) then
                  && q == prob
                  && (found ==> Answer(p))
                  && (found ==> count <= maxCount)
                  && (!found && count <= maxCount ==> !Reachable(q))
                  && (!found && count > maxCount ==> GaveUp(q, Limit(maxCount)))
                  && (maxCount >= grid.width * grid.height ==> count <= maxCount && (found <==> Reachable(q)))
                else !found
    {
      hide Linked, SearchOk, PositiveCosts, Answer, Reachable, GaveUp, NearShortest;
      hide CellIndex, Shape, CellFresh, Chunks;
      p := [];
      ghost var prob := ProblemOf(grid, startX, startY, endX, endY);
      lastPath := [];
      openHeap := [];
      if startX == endX && startY == endY {
        return true, p;
      }
      if grid.isBlock(endX, endY) {
        return false, p;
      }
      Prepare(grid.width, grid.height);
      var start, end := LookUpEnds(startX, startY, endX, endY, grid.width, prob);
      if start == null || end == null {
        return false, p;
      }
      p := Solve(grid, start, end, prob);
      openHeap := [];
      found := lastPath != [];
      if found { AnswerReaches(p); }
    }

    /** The store, the generation and the callbacks of a new search. */
    method Prepare(w: nat, h: nat)
      requires Valid()
      modifies this`mapNodes, this`store, this`searchGeneration, this`heuristic, this`getCost, store
      ensures Valid() && w * h <= |store| && forall i :: 0 <= i < |store| ==> Untouched(store[i])
      ensures |mapNodes| == if Chunks(w, h) > |old(mapNodes)| then Chunks(w, h) else |old(mapNodes)|
      ensures forall i :: 0 <= i < |store| ==> store[i] in old(store) || fresh(store[i])
      ensures heuristic == if old(heuristic).Set? then old(heuristic) else Set(ManhattanDistance)
      ensures getCost == if old(getCost).Set? then old(getCost) else Set(CommonCost)
    {
      hide Chunks, Shape;
      ResizeMap(w, h);
      StoreHoldsMap(w, h);
      NextGeneration();
      SetDefaults();
    }

    method SetDefaults()
      modifies this`heuristic, this`getCost
      ensures heuristic == if old(heuristic).Set? then old(heuristic) else Set(ManhattanDistance)
      ensures getCost == if old(getCost).Set? then old(getCost) else Set(CommonCost)
    {
      if heuristic.Unset? { heuristic := Set(ManhattanDistance); }
      if getCost.Unset? { getCost := Set(CommonCost); }
    }

    lemma StoreHoldsMap(w: nat, h: nat)
      requires Valid() && |mapNodes| >= Chunks(w, h)
      ensures w * h <= |store|
    {
    }

    /** The nodes of start and end, both cleared by the first look of this search. */
    method LookUpEnds(startX: int, startY: int, endX: int, endY: int, width: nat, ghost prob: Problem)
      returns (start: PathNode?, end: PathNode?)
      requires Valid() && prob.m.width * prob.m.height <= |store| && width == prob.m.width
      requires prob.start == Cell(startX, startY) && prob.end == Cell(endX, endY) && prob.start != prob.end
      requires forall i :: 0 <= i < |store| ==> Untouched(store[i])
      requires (InMap(prob.m, prob.start) && InMap(prob.m, prob.end))
               || OffStore(Index(prob.m, prob.start), |mapNodes|) || OffStore(Index(prob.m, prob.end), |mapNodes|)
      modifies store
      ensures Valid()
      ensures if InMap(prob.m, prob.start) && InMap(prob.m, prob.end) then
                && start != null && end != null && CellFresh(prob, prob.start) && CellFresh(prob, prob.end)
                && start == store[Index(prob.m, prob.start)] && end == store[Index(prob.m, prob.end)]
                && forall i :: 0 <= i < |store| ==>
                     Untouched(store[i]) || i == Index(prob.m, prob.start) || i == Index(prob.m, prob.end)
              else start == null || end == null
    {
      hide CellIndex;
      InRange(prob.m, |store|);
      if InMap(prob.m, prob.start) && InMap(prob.m, prob.end) && Index(prob.m, prob.start) == Index(prob.m, prob.end) {
        IndexInjective(prob.m, prob.start, prob.end);
      }
      start := GetNode(startX, startY, width);
      end := GetNode(endX, endY, width);
    }

    /** The search proper, once both endpoints have their node. */
    method Solve(grid: AbstractMap, start: PathNode, end: PathNode, ghost prob: Problem) returns (ghost p: seq<Cell>)
      requires Valid() && openHeap == [] && lastPath == []
      requires prob.m.width * prob.m.height <= |store| && InMap(prob.m, prob.start) && InMap(prob.m, prob.end)
      requires forall i :: 0 <= i < |store| ==>
                 Untouched(store[i]) || i == Index(prob.m, prob.start) || i == Index(prob.m, prob.end)
      requires CellFresh(prob, prob.start) && CellFresh(prob, prob.end) && prob.start != prob.end
      requires start == store[Index(prob.m, prob.start)] && end == store[Index(prob.m, prob.end)]
      requires grid.width == prob.m.width && grid.height == prob.m.height && grid.isBlock == prob.m.blocked
      requires heuristic == Set(prob.m.estimate) && getCost == Set(prob.m.cost) && PositiveCosts(prob.m)
      modifies this`q, this`st, this`at, this`openHeap, this`count, this`lastPath, store
      ensures Valid() && q == prob
      ensures lastPath != [] ==> Answer(p)
      ensures lastPath == [] && count <= maxCount ==> !Reachable(q)
      ensures lastPath != [] ==> count <= maxCount
      ensures lastPath == [] && count > maxCount ==> GaveUp(q, Limit(maxCount))
      ensures maxCount >= grid.width * grid.height ==> count <= maxCount
    {
      hide Linked, SearchOk, PositiveCosts, Answer, Reachable, Valid, CellIndex, Initial;
      BeginSearch(prob);
      NodeOfCell(q.start);
      NodeOfCell(q.end);
      count := 0;
      InitialFields(prob);
      PushOpen(start, prob.start);
      InitialOk(prob);
      p := RunSearch(end, grid, end.x, end.y);
    }

    lemma AnswerReaches(p: seq<Cell>)
      requires Answer(p)
      ensures Reachable(q)
    {
    }

    /** Walks the parents back from the end; the nodes collected are the trail without the start. */
    method Trace(end: PathNode, ghost p: seq<Cell>)
      requires Linked() && TreeOk(q, st) && q.end in st.g && q.end in at && end == at[q.end]
      requires p == Trail(q, st, q.end) && lastPath == []
      modifies this`lastPath
      ensures Traced(p)
    {
      hide TreeOk, Linked, NodeOk, Trail;
      var current := end;
      ghost var c, rest := q.end, [];
      ParentShown(c);
      TrailFacts(q, st, c);
      while current.parent != null
        invariant Linked() && c in at && c in st.g && current == at[c] && c in st.depth
        invariant current.parent == null <==> c == q.start
        invariant c != q.start ==> c in st.parent && st.parent[c] in at && current.parent == at[st.parent[c]]
        invariant p == Trail(q, st, c) + rest && |lastPath| == |rest|
        invariant forall i :: 0 <= i < |rest| ==> rest[i] in at && lastPath[i] == at[rest[i]]
        decreases st.depth[c]
      {
        TrailFacts(q, st, c);
        Prepend(Trail(q, st, st.parent[c]), c, rest);
        lastPath := [current] + lastPath;
        current := current.parent;
        rest := [c] + rest;
        c := st.parent[c];
        ParentShown(c);
        TrailFacts(q, st, c);
      }
      TrailFacts(q, st, c);
    }

    /** lastPath holds the nodes of the cells of p after the first. */
    ghost predicate Traced(p: seq<Cell>)
      reads this`lastPath, this`at
    {
      |p| == |lastPath| + 1 && forall i :: 1 <= i < |p| ==> p[i] in at && lastPath[i - 1] == at[p[i]]
    }

    lemma ParentShown(c: Cell)
      requires Linked() && TreeOk(q, st) && c in at && c in st.g
      ensures at[c].parent == null <==> c == q.start
      ensures c != q.start ==> c in st.parent && st.parent[c] in at && at[c].parent == at[st.parent[c]]
    {
      assert Shows(c);
      assert NodeOk(q, st, c);
    }
  }

  lemma TrailFacts(q: Problem, st: Search, c: Cell)
    requires TreeOk(q, st) && c in st.g
    ensures c in st.depth && |Trail(q, st, c)| == st.depth[c] + 1
    ensures c == q.start ==> st.depth[c] == 0
    ensures c != q.start ==> c in st.parent && st.parent[c] in st.g && st.parent[c] in st.depth
                             && st.depth[c] == st.depth[st.parent[c]] + 1
                             && Trail(q, st, c) == Trail(q, st, st.parent[c]) + [c]
  {
    assert NodeOk(q, st, c);
  }

  lemma Prepend(front: seq<Cell>, c: Cell, rest: seq<Cell>)
    ensures (front + [c]) + rest == front + ([c] + rest)
  {
  }

  lemma InitialFields(q: Problem)
    ensures Initial(q).closed == {} && Initial(q).open == [Entry(0.0, q.start)]
    ensures [] + [Entry(0.0, q.start)] == [Entry(0.0, q.start)]
  {
  }

  lemma SameBare(a: Search, b: Search)
    requires b == a.(open := b.open)
    ensures Bare(a) == Bare(b) && a.g == b.g && a.depth == b.depth
  {
  }

  lemma InTreeToo(q: Problem, st: Search, u: Cell)
    requires TreeOk(q, st) && Least(q, st, u)
    ensures u in st.g && u in st.depth
  {
  }

  lemma SearchParts(q: Problem, st: Search)
    requires SearchOk(q, st)
    ensures TreeOk(q, st) && OpenOk(q, st)
  {
  }

  lemma SameTree(q: Problem, st: Search, t: Search)
    requires TreeOk(q, st) && t == st.(open := t.open)
    ensures TreeOk(q, t)
  {
    forall v | v in t.g ensures NodeOk(q, t, v) {
      assert NodeOk(q, st, v);
    }
  }

  lemma {:induction false} TrailInTree(q: Problem, st: Search, c: Cell)
    requires TreeOk(q, st) && c in st.g
    ensures forall i :: 0 <= i < |Trail(q, st, c)| ==> Trail(q, st, c)[i] in st.g
    decreases st.depth[c]
  {
    TrailFacts(q, st, c);
    if c != q.start {
      TrailInTree(q, st, st.parent[c]);
    }
  }

  ghost function NodesOf(store: seq<PathNode>, m: World): (at: map<Cell, PathNode>)
    requires m.width * m.height <= |store|
    ensures forall c :: c in at <==> InMap(m, c)
    ensures forall c :: c in at ==> 0 <= Index(m, c) < |store| && at[c] == store[Index(m, c)]
  {
    var cells := set x, y | 0 <= x < m.width && 0 <= y < m.height :: Cell(x, y);
    assert forall c :: InMap(m, c) ==> c in cells by {
      forall c | InMap(m, c) ensures c in cells {
        assert c == Cell(c.x, c.y);
      }
    }
    InRange(m, |store|);
    map c | c in cells :: store[Index(m, c)]
  }

  lemma InRange(m: World, n: nat)
    requires m.width * m.height <= n
    ensures forall c :: InMap(m, c) ==> 0 <= Index(m, c) < n
  {
    forall c | InMap(m, c) ensures 0 <= Index(m, c) < n {
      IndexInRange(m, c);
    }
  }

  /** Different cells have different nodes. */
  lemma NodesDistinct(store: seq<PathNode>, m: World)
    requires m.width * m.height <= |store| && NoDup(store)
    ensures var at := NodesOf(store, m); forall c, d :: c in at && d in at && at[c] == at[d] ==> c == d
  {
    hide CellIndex;
    var at := NodesOf(store, m);
    forall c, d | c in at && d in at && at[c] == at[d] ensures c == d {
      IndexInjective(m, c, d);
    }
  }

  lemma InMapOf(q: Problem, u: Cell, v: Cell)
    requires Step(q.m, u, v)
    ensures u != v && InMap(q.m, v)
  {
  }

  /** Zero costs mark undiscovered cells: no other discovered cell than the start has g == 0. */
  lemma TreeFacts(q: Problem, st: Search, u: Cell, v: Cell)
    requires TreeOk(q, st) && u in st.closed
    ensures u in st.g && q.start in st.closed
    ensures v in st.g && v != q.start ==> st.g[v] > 0.0
  {
    assert NodeOk(q, st, u);
    assert v in st.g ==> NodeOk(q, st, v);
  }

  lemma ScanNext(q: Problem, st: Search, u: Cell, x: int, y: int)
    requires u in st.g && u in st.depth && y <= u.y + 1
    ensures u in Look(q, st, u, Cell(x, y)).g && u in Look(q, st, u, Cell(x, y)).depth
    ensures ScanColumn(q, st, u, x, y) == ScanColumn(q, Look(q, st, u, Cell(x, y)), u, x, y + 1)
  {
  }

  lemma ScanEnd(q: Problem, st: Search, u: Cell, x: int)
    requires u in st.g && u in st.depth
    ensures ScanColumn(q, st, u, x, u.y + 2) == st
  {
  }

  lemma ScanTree(q: Problem, st: Search, u: Cell, x: int, y: int)
    requires ScanOk(q, st, u, x, y)
    ensures TreeOk(q, st) && u in st.closed && u in st.g && u in st.depth
  {
    InTree(q, st, u);
  }

  predicate IsLeast(heap: seq<HeapItem>, i: nat)
    requires i < |heap|
  {
    forall j :: 0 <= j < |heap| ==> heap[i].f <= heap[j].f
  }

  lemma LeastExists(heap: seq<HeapItem>) returns (i: nat)
    requires heap != []
    ensures i < |heap| && IsLeast(heap, i)
  {
    i := 0;
    for k := 0 to |heap|
      invariant i < |heap| && forall j :: 0 <= j < k ==> heap[i].f <= heap[j].f
    {
      if heap[k].f < heap[i].f { i := k; }
    }
  }

  lemma EntryInTree(q: Problem, st: Search, i: nat)
    requires OpenOk(q, st) && i < |st.open|
    ensures st.open[i].cell in st.g
  {
    assert st.open[i] in st.open;
  }
}
