/** The hierarchical timing wheel: one near wheel of 256 slots and four far wheels of 64 slots,
    indexed by bits of a 32-bit deadline, proved to agree with the flat timer of `TimerSpec`. */
module TimerWheel {
  import opened Basics
  import opened TimerSpec

  const NEAR_FUTURE: nat := 256
  const NUM_FAR_WHEEL: nat := 4
  const FAR_FUTURE: nat := 64

  /** A slot of one of the wheels. */
  datatype Place = Near(slot: nat) | Far(level: nat, slot: nat)

  predicate IsPlace(p: Place) {
    match p
    case Near(s) => s < NEAR_FUTURE
    case Far(l, s) => l < NUM_FAR_WHEEL && s < FAR_FUTURE
  }

  /** The number of ticks one slot of far wheel `level` stands for: 2^(8 + 6*level). */
  function Width(level: nat): (w: nat)
    ensures w >= 256
  {
    if level == 0 then 256 else 64 * Width(level - 1)
  }

  lemma Widths()
    ensures Width(0) == 0x100 && Width(1) == 0x4000 && Width(2) == 0x10_0000 && Width(3) == 0x400_0000
    ensures Width(4) == U32
  {
    assert Width(2) == 64 * Width(1);
    assert Width(3) == 64 * Width(2);
    assert Width(4) == 64 * Width(3);
  }

  /** The window of far wheel `level` that tick x belongs to: x shifted right by 8 + 6*level bits. */
  function Window(x: nat, level: nat): (r: nat) {
    if level == 0 then x / 256 else Window(x, level - 1) / 64
  }

  /** Tick `now` is the first of its window at `level`, and so at every lower level. */
  predicate Opens(now: nat, level: nat) {
    now % 256 == 0 && (level == 0 || (Opens(now, level - 1) && Window(now, level - 1) % 64 == 0))
  }

  /** Where an item due at `due` may lie when dispatches before `next` are done and far windows
      up to the one holding tick `mark` have been opened. */
  ghost predicate Fits(p: Place, due: nat, next: nat, mark: nat) {
    match p
    case Near(s) => s == due % NEAR_FUTURE && next <= due < next + NEAR_FUTURE
    case Far(l, s) =>
      && s == Window(due, l) % FAR_FUTURE
      && 1 <= Window(due, l) - Window(mark, l) <= FAR_FUTURE
  }

  // ----- arithmetic of the 32-bit fields

  lemma {:induction false} WindowIsShift(x: nat, level: nat)
    requires level < NUM_FAR_WHEEL
    ensures Window(x, level) == x / Width(level)
  {
    Widths();
    if level > 0 {
      WindowIsShift(x, level - 1);
      assert level == 1 || level == 2 || level == 3;
    }
  }

  /** Adding ticks moves a tick on by as many windows, or by one more through a carry. */
  lemma {:induction false} WindowSum(a: nat, b: nat, level: nat)
    ensures Window(a, level) + Window(b, level) <= Window(a + b, level) <= Window(a, level) + Window(b, level) + 1
    ensures Opens(a, level) ==> Window(a + b, level) == Window(a, level) + Window(b, level)
  {
    if level > 0 {
      WindowSum(a, b, level - 1);
    }
  }

  lemma DivExact(a: nat)
    ensures 256 * a / 256 == a && 256 * a % 256 == 0
    ensures 64 * a / 64 == a && 64 * a % 64 == 0
  {
  }

  /** A multiple of 2^32 opens every level, at slot 0. */
  lemma WrapOpensAll(q: nat, level: nat) returns (turns: nat)
    requires level < NUM_FAR_WHEEL
    ensures Opens(U32 * q, level) && Window(U32 * q, level) == 64 * turns
  {
    var c, b := 64 * q, 64 * (64 * q);
    var a := 64 * b;
    assert U32 * q == 256 * (64 * a);
    DivExact(64 * a);
    DivExact(a);
    DivExact(b);
    DivExact(c);
    DivExact(q);
    turns := if level == 0 then a else if level == 1 then b else if level == 2 then c else q;
    assert Window(U32 * q, 0) == 64 * a && Opens(U32 * q, 0);
    assert Window(U32 * q, 1) == 64 * b && Opens(U32 * q, 1);
    assert Window(U32 * q, 2) == 64 * c && Opens(U32 * q, 2);
  }

  /** Whole turns of a far wheel do not change the slot. */
  lemma AddTurns(turns: int, x: int)
    ensures (64 * turns + x) % 64 == x % 64
  {
    var q := x / 64;
    assert 64 * turns + x == 64 * (turns + q) + x % 64;
  }

  /** Whole turns of the near wheel do not change the slot. */
  lemma AddNearTurns(turns: int, x: int)
    ensures (256 * turns + x) % 256 == x % 256
  {
    var q := x / 256;
    assert 256 * turns + x == 256 * (turns + q) + x % 256;
  }

  /** Truncating a tick to 32 bits keeps every slot number taken from it. */
  lemma SlotOfIndex(due: nat, level: nat)
    requires level < NUM_FAR_WHEEL
    ensures Window(due % U32, level) % FAR_FUTURE == Window(due, level) % FAR_FUTURE
    ensures due % U32 % NEAR_FUTURE == due % NEAR_FUTURE
  {
    hide Opens;
    var q, r := due / U32, due % U32;
    assert U32 * q + r == due;
    AddNearTurns(0x100_0000 * q, r);
    assert 256 * (0x100_0000 * q) + r == due;
    hide Window;
    var turns := WrapOpensAll(q, level);
    WindowSum(U32 * q, r, level);
    AddTurns(turns, Window(r, level));
  }

  /** ++tick opens a new window at exactly the levels whose width divides the new tick. */
  lemma WindowAdvances(now: nat, level: nat)
    requires now >= 1
    ensures Window(now, level) == Window(now - 1, level) + if Opens(now, level) then 1 else 0
  {
    if level > 0 {
      WindowAdvances(now, level - 1);
    }
  }

  /** The 32-bit index of an item. */
  lemma IndexOfTick(now: nat, ticks: int)
    ensures (now % U32 + ticks) % U32 == (now + ticks) % U32
    ensures (now + ticks) % U32 % NEAR_FUTURE == (now + ticks) % NEAR_FUTURE
  {
    var q, p := now / U32, (now + ticks) / U32;
    assert now % U32 + ticks == (now + ticks) % U32 + U32 * (p - q);
    AddNearTurns(0x100_0000 * p, (now + ticks) % U32);
  }

  /** An interval of less than 256 ticks gives a near slot that is dispatched at the deadline. */
  lemma NearDeadline(now: nat, phase: Phase, ticks: int)
    requires ticks < NEAR_FUTURE
    ensures var due := DueOf(now, phase, ticks);
            due.At? && Fits(Near((now + ticks) % NEAR_FUTURE), due.tick, NextDispatch(now, phase), 0)
    ensures phase.Ready? && ticks >= 1 ==> (now + ticks) % NEAR_FUTURE != now % NEAR_FUTURE
  {
    NextTurn(NextDispatch(now, phase), now + ticks);
    if ticks >= 1 { OtherSlot(now, ticks); }
  }

  /** The first tick from `next` on that shares the near slot of tick x. */
  lemma NextTurn(next: nat, x: int)
    ensures (next + (x - next) % 256) % 256 == x % 256
  {
    AddNearTurns((x - next) / 256, next + (x - next) % 256);
  }

  lemma OtherSlot(now: nat, ticks: nat)
    requires 1 <= ticks < 256
    ensures (now + ticks) % 256 != now % 256
  {
    var q, r := now / 256, now % 256;
    AddNearTurns(q, r + ticks);
    assert r + ticks < 256 ==> (r + ticks) % 256 == r + ticks;
    assert r + ticks >= 256 ==> (r + ticks) % 256 == r + ticks - 256;
  }

  lemma Rearmed(now: nat, ticks: int)
    requires 1 <= ticks < U32
    ensures DueOf(now, Ready, ticks) == At(now + ticks)
  {
  }

  lemma DueInMs(now: nat, phase: Phase, ms: int)
    ensures 10 <= ms < 10 * U32 ==> DueOf(now, phase, Ticks(ms)) == At(now + ms / 10)
  {
    TicksOfMs(ms);
  }

  lemma NeverDue(now: nat, phase: Phase, ticks: int)
    ensures DueOf(now, phase, ticks).Never? <==> ticks >= U32
  {
  }

  lemma FarDeadline(now: nat, phase: Phase, ticks: int)
    requires ticks >= NEAR_FUTURE
    ensures DueOf(now, phase, ticks) == if ticks < U32 then At(now + ticks) else Never
  {
  }

  /** An interval that passes all far levels does not fit 32 bits. */
  lemma BeyondWheels(ticks: nat)
    ensures Window(ticks, NUM_FAR_WHEEL) >= 1 <==> ticks >= U32
  {
    assert Window(ticks, 1) == ticks / 0x4000;
    assert Window(ticks, 2) == ticks / 0x10_0000;
    assert Window(ticks, 3) == ticks / 0x400_0000;
  }

  lemma {:induction false} WindowVanishes(ticks: nat, level: nat, above: nat)
    requires Window(ticks, level) < FAR_FUTURE && level < above
    ensures Window(ticks, above) == 0
    decreases above
  {
    if level + 1 < above {
      WindowVanishes(ticks, level, above - 1);
    }
  }

  /** The window of the deadline is 1 to 64 windows ahead of the last one opened. */
  lemma FarAhead(now: nat, mark: nat, ticks: nat, level: nat)
    requires mark <= now <= mark + 1 && 1 <= Window(ticks, level) < FAR_FUTURE
    ensures 1 <= Window(now + ticks, level) - Window(mark, level) <= FAR_FUTURE
  {
    hide Window, Opens;
    WindowSum(now, ticks, level);
    if mark < now { WindowAdvances(now, level); }
  }

  /** The far slot picked by the level loop holds its item until its window opens. */
  lemma FarFits(now: nat, mark: nat, ticks: nat, level: nat)
    requires level < NUM_FAR_WHEEL && mark <= now <= mark + 1
    requires 1 <= Window(ticks, level) < FAR_FUTURE
    ensures ticks < U32
    ensures var due := now + ticks;
            Fits(Far(level, Window(due % U32, level) % FAR_FUTURE), due, 0, mark)
  {
    hide Window;
    SlotOfIndex(now + ticks, level);
    FarAhead(now, mark, ticks, level);
    WindowVanishes(ticks, level, NUM_FAR_WHEEL);
    BeyondWheels(ticks);
  }

  /** Two windows 1 to 64 apart share the slot after the lower one only when they are 1 apart. */
  lemma SameSlot(a: nat, b: nat)
    requires 1 <= a - b <= 64
    ensures a % 64 == (b + 1) % 64 <==> a == b + 1
  {
  }

  /** Above the level at which the carry stops no window begins. */
  lemma {:induction false} CarryStops(now: nat, done: nat, level: nat)
    requires now >= 1 && !Opens(now, done) && done <= level
    ensures Window(now, level) == Window(now - 1, level)
  {
    WindowAdvances(now, level);
    if done < level {
      CarryStops(now, done, level - 1);
      WindowAdvances(now, level - 1);
    }
  }

  /** Inside an opened window of level+1, the slot one level down is how far ahead the item lies. */
  lemma Carried(due: nat, now: nat, level: nat)
    requires Opens(now, level + 1) && Window(due, level + 1) == Window(now, level + 1)
    ensures Opens(now, level)
    ensures Window(due, level) - Window(now, level) == Window(due, level) % FAR_FUTURE
  {
  }

  // ----- the wheels as a value

  /** A planned task. */
  class Schedule {
    var id: nat
    var index: nat // the deadline, truncated to 32 bits
    var remainTimes: int
    const interval: int
    var callable: bool // the callback is not null
    ghost const serial: nat

    constructor (times: int, interval: int, ghost serial: nat)
      ensures remainTimes == times && this.interval == interval && this.serial == serial && callable
    {
      id, index := 0, 0;
      remainTimes, this.interval, callable := times, interval, true;
      this.serial := serial;
    }
  }

  /** Where an item lies and the unbounded tick at which it is due. */
  datatype Item = Item(place: Place, due: nat)

  /** The contents of every slot, and the items that lie in them. */
  datatype Wheels = Wheels(lists: map<Place, seq<Schedule>>, items: map<Schedule, Item>)

  /** Every item lies in exactly one slot, once. Of the slot being walked the first `j` entries
      are done with and no longer count. */
  ghost predicate Linked(w: Wheels, walk: Place, j: nat) {
    && (forall p :: p in w.lists <==> IsPlace(p))
    && walk in w.lists && j <= |w.lists[walk]|
    && (forall p :: p in w.lists ==> NoDup(w.lists[p]))
    && (forall p, i :: p in w.lists && 0 <= i < |w.lists[p]| && (p == walk ==> j <= i) ==>
          w.lists[p][i] in w.items && w.items[w.lists[p][i]].place == p)
    && (forall x :: x in w.items ==> Holds(w, x, if w.items[x].place == walk then j else 0))
  }

  ghost predicate Holds(w: Wheels, x: Schedule, from: nat)
    requires x in w.items
  {
    var p := w.items[x].place;
    p in w.lists && exists i :: from <= i < |w.lists[p]| && w.lists[p][i] == x
  }

  /** Every item lies where its deadline says; far levels below `done` have been opened for tick
      `hi`, the others for tick `lo`. */
  ghost predicate Timed(items: map<Schedule, Item>, next: nat, done: nat, hi: nat, lo: nat) {
    forall x :: x in items ==>
      Fits(items[x].place, items[x].due, next, if items[x].place.Far? && items[x].place.level < done then hi else lo)
  }

  ghost function NoLists(): (m: map<Place, seq<Schedule>>)
    ensures forall p :: p in m <==> IsPlace(p)
    ensures forall p :: p in m ==> m[p] == []
  {
    var near := map s | 0 <= s < NEAR_FUTURE :: Near(s) := [];
    var far := map l, s | 0 <= l < NUM_FAR_WHEEL && 0 <= s < FAR_FUTURE :: Far(l, s) := [];
    assert forall s :: 0 <= s < NEAR_FUTURE ==> Near(s) in near;
    assert forall l, s :: 0 <= l < NUM_FAR_WHEEL && 0 <= s < FAR_FUTURE ==> Far(l, s) in far;
    near + far
  }

  lemma NothingLinked()
    ensures var w := Wheels(NoLists(), map[]);
            Linked(w, Near(0), 0) && Timed(w.items, 0, 0, 0, 0)
  {
  }

  function Push(w: Wheels, p: Place, x: Schedule, due: nat): (r: Wheels)
    requires p in w.lists
  {
    Wheels(w.lists[p := [x] + w.lists[p]], w.items[x := Item(p, due)])
  }

  function Take(w: Wheels, x: Schedule): (r: Wheels) {
    w.(items := w.items - {x})
  }

  function Clear(w: Wheels, p: Place): (r: Wheels) {
    w.(lists := w.lists[p := []])
  }

  lemma PushKeepsLinks(w: Wheels, walk: Place, j: nat, p: Place, x: Schedule, due: nat)
    requires Linked(w, walk, j) && p in w.lists && x !in w.items && (j == 0 || p != walk)
    ensures Linked(Push(w, p, x, due), walk, j)
  {
    var v := Push(w, p, x, due);
    assert x !in w.lists[p];
    forall y | y in v.items
      ensures Holds(v, y, if v.items[y].place == walk then j else 0)
    {
      if y == x {
        assert v.lists[p][0] == x;
      } else {
        var q := w.items[y].place;
        var from := if q == walk then j else 0;
        assert Holds(w, y, from);
        var i :| from <= i < |w.lists[q]| && w.lists[q][i] == y;
        assert q == p ==> v.lists[q][i + 1] == y;
      }
    }
  }

  lemma TakeNext(w: Wheels, walk: Place, j: nat)
    requires Linked(w, walk, j) && j < |w.lists[walk]|
    ensures var x := w.lists[walk][j];
            x in w.items && w.items[x].place == walk && Linked(Take(w, x), walk, j + 1)
  {
    var x := w.lists[walk][j];
    var v := Take(w, x);
    forall y | y in v.items
      ensures Holds(v, y, if v.items[y].place == walk then j + 1 else 0)
    {
      assert Holds(w, y, if w.items[y].place == walk then j else 0);
    }
  }

  lemma ClearDone(w: Wheels, walk: Place)
    requires walk in w.lists && Linked(w, walk, |w.lists[walk]|)
    ensures forall x :: x in w.items ==> w.items[x].place != walk
    ensures Linked(Clear(w, walk), Near(0), 0)
  {
    var v := Clear(w, walk);
    forall x | x in w.items
      ensures w.items[x].place != walk && Holds(v, x, 0)
    {
      assert Holds(w, x, if w.items[x].place == walk then |w.lists[walk]| else 0);
    }
  }

  lemma AnyWalk(w: Wheels, walk: Place, walk': Place)
    requires Linked(w, walk, 0) && IsPlace(walk')
    ensures Linked(w, walk', 0)
  {
    forall x | x in w.items ensures Holds(w, x, 0) {
      assert Holds(w, x, if w.items[x].place == walk then 0 else 0);
    }
  }

  /** The same schedules with the same deadlines, wherever they lie. */
  ghost predicate SameItems(a: map<Schedule, Item>, b: map<Schedule, Item>) {
    a.Keys == b.Keys && forall x :: x in a ==> a[x].due == b[x].due
  }

  /** p is nearer than far wheel `level`. */
  predicate Below(p: Place, level: nat) {
    p.Near? || p.level < level
  }

  /** Items have left slot p, all downwards, and no other item has moved. */
  ghost predicate SlotMoving(a: map<Schedule, Item>, b: map<Schedule, Item>, p: Place) {
    && SameItems(a, b) && p.Far?
    && forall x :: x in a ==> b[x] == a[x] || (a[x].place == p && Below(b[x].place, p.level))
  }

  lemma SlotMovingMore(a: map<Schedule, Item>, b: map<Schedule, Item>, c: map<Schedule, Item>, p: Place)
    requires p.Far?
    ensures SlotMoving(a, a, p)
    ensures SlotMoving(a, b, p) && SlotMoving(b, c, p) ==> SlotMoving(a, c, p)
  {
  }

  /** The slot of a far level below `upto` whose window holds tick `now`. */
  predicate BeginsBelow(p: Place, now: nat, upto: nat) {
    p.Far? && p.level < upto && p.slot == Window(now, p.level) % FAR_FUTURE
  }

  /** The items of these slots, and no others, have moved down. */
  ghost predicate MovedBelow(a: map<Schedule, Item>, b: map<Schedule, Item>, now: nat, upto: nat) {
    && SameItems(a, b)
    && forall x :: x in a ==>
         if BeginsBelow(a[x].place, now, upto) then Below(b[x].place, a[x].place.level) else b[x] == a[x]
  }

  lemma NoneMoved(a: map<Schedule, Item>, now: nat)
    ensures MovedBelow(a, a, now, 0)
  {
  }

  /** Emptying the slot of the next level. */
  lemma MovedMore(a: map<Schedule, Item>, b: map<Schedule, Item>, c: map<Schedule, Item>, now: nat, level: nat)
    requires MovedBelow(a, b, now, level)
    requires var p := Far(level, Window(now, level) % FAR_FUTURE);
             SlotMoving(b, c, p) && forall x :: x in c ==> c[x].place != p
    ensures MovedBelow(a, c, now, level + 1)
  {
    hide Window;
  }

  /** p is a far slot whose window begins at tick `now`: the width of its level divides the tick, and
      the slot number is the tick's at that level. */
  predicate Begins(p: Place, now: nat) {
    p.Far? && p.level < NUM_FAR_WHEEL
    && now % Width(p.level) == 0 && p.slot == now / Width(p.level) % FAR_FUTURE
  }

  /** What expand does to the items: all stay, with their deadlines; those whose window begins now
      move down, the others stay where they are. */
  ghost predicate Cascaded(a: map<Schedule, Item>, b: map<Schedule, Item>, now: nat) {
    && SameItems(a, b)
    && forall x :: x in a ==>
         if Begins(a[x].place, now) then Below(b[x].place, a[x].place.level) else b[x] == a[x]
  }

  /** The carry visits `visited` levels: exactly those whose width divides the new tick. */
  lemma CarryIsCascade(a: map<Schedule, Item>, b: map<Schedule, Item>, now: nat, visited: nat)
    requires MovedBelow(a, b, now, visited) && visited <= NUM_FAR_WHEEL
    requires forall l: nat :: l < NUM_FAR_WHEEL ==> (l < visited <==> now % Width(l) == 0)
    ensures Cascaded(a, b, now)
  {
    hide Window, Width;
    forall x | x in a ensures BeginsBelow(a[x].place, now, visited) <==> Begins(a[x].place, now) {
      if a[x].place.Far? && a[x].place.level < NUM_FAR_WHEEL {
        WindowIsShift(now, a[x].place.level);
      }
    }
  }

  /** A window of a level begins at exactly the multiples of the level's width. */
  lemma {:induction false} OpensIsMultiple(now: nat, level: nat)
    requires level < NUM_FAR_WHEEL
    ensures Opens(now, level) <==> now % Width(level) == 0
  {
    Widths();
    if level > 0 {
      OpensIsMultiple(now, level - 1);
      WindowIsShift(now, level - 1);
      MultipleOf64(now, Width(level - 1));
    }
  }

  lemma MultipleOf64(x: nat, w: nat)
    requires w > 0
    ensures x % (64 * w) == 0 <==> x % w == 0 && x / w % 64 == 0
  {
    var q, r := x / w, x % w;
    assert x == w * q + r;
    var t, u := q / 64, q % 64;
    assert w * q == 64 * w * t + w * u by {
      assert q == 64 * t + u;
      MulSplit(w, t, u);
    }
    Remainder(64 * w, t, w * u + r, x, w, u, r);
  }

  lemma MulSplit(w: nat, t: nat, u: nat)
    ensures w * (64 * t + u) == 64 * w * t + w * u
  {
  }

  /** x is t times d with a rest of u * w + r, which is below d. */
  lemma Remainder(d: nat, t: nat, rest: nat, x: nat, w: nat, u: nat, r: nat)
    requires w > 0 && d == 64 * w && rest == w * u + r && u < 64 && r < w && x == d * t + rest
    ensures x % d == rest && (rest == 0 <==> u == 0 && r == 0)
  {
    MulLe(u + 1, 64, w);
    assert rest < d;
    DivisionOf(x, d, t, rest);
    if u > 0 { MulLe(1, u, w); }
  }

  lemma DivisionOf(x: nat, d: nat, t: nat, rest: nat)
    requires d > 0 && x == d * t + rest && rest < d
    ensures x % d == rest
  {
    var q, r := x / d, x % d;
    assert x == d * q + r;
    if q < t { MulLe(q + 1, t, d); }
    if t < q { MulLe(t + 1, q, d); }
  }

  /** A level that opens does so with all lower ones. */
  lemma {:induction false} OpensDownward(now: nat, level: nat, lower: nat)
    requires Opens(now, level) && lower <= level
    ensures Opens(now, lower)
    decreases level
  {
    if lower < level { OpensDownward(now, level - 1, lower); }
  }

  /** A level that does not open keeps all higher ones closed. */
  lemma {:induction false} ClosedUpward(now: nat, level: nat, higher: nat)
    requires !Opens(now, level) && level <= higher
    ensures !Opens(now, higher)
    decreases higher
  {
    if level < higher { ClosedUpward(now, level, higher - 1); }
  }

  lemma NoLevelBegins(now: nat)
    requires now % 256 != 0
    ensures forall l: nat :: l < NUM_FAR_WHEEL ==> now % Width(l) != 0
  {
    hide Width;
    forall l: nat | l < NUM_FAR_WHEEL ensures now % Width(l) != 0 {
      ClosedUpward(now, 0, l);
      OpensIsMultiple(now, l);
    }
  }

  /** Where the carry stops: below `visited` every level opens, from there on none does. */
  lemma VisitedLevels(now: nat, visited: nat)
    requires 0 < visited <= NUM_FAR_WHEEL && Opens(now, visited - 1)
    requires visited == NUM_FAR_WHEEL || !Opens(now, visited)
    ensures forall l: nat :: l < NUM_FAR_WHEEL ==> (l < visited <==> now % Width(l) == 0)
  {
    hide Opens, Width;
    forall l: nat | l < NUM_FAR_WHEEL ensures l < visited <==> now % Width(l) == 0 {
      OpensIsMultiple(now, l);
      if l < visited {
        OpensDownward(now, visited - 1, l);
      } else {
        ClosedUpward(now, visited, l);
      }
    }
  }

  /** Before a far slot is walked: its items belong to the window that opens now. */
  lemma AboutToMove(w: Wheels, now: nat, level: nat, x: Schedule)
    requires level < NUM_FAR_WHEEL && now >= 1 && Opens(now, level)
    requires Timed(w.items, now, level, now, now - 1)
    requires x in w.items && w.items[x].place == Far(level, Window(now, level) % FAR_FUTURE)
    ensures Window(w.items[x].due, level) == Window(now, level)
  {
    WindowAdvances(now, level);
    SameSlot(Window(w.items[x].due, level), Window(now - 1, level));
  }

  lemma MoveKeepsTimes(w: Wheels, now: nat, level: nat, x: Schedule, p: Place, due: nat)
    requires p in w.lists && now >= 1
    requires Timed(w.items, now, level, now, now - 1)
    requires (p.Far? ==> p.level < level) && Fits(p, due, now, now)
    ensures Timed(Push(Take(w, x), p, x, due).items, now, level, now, now - 1)
  {
  }

  /** An item of the level that does not lie in the walked slot belongs to a later window. */
  lemma StaysAhead(p: Place, due: nat, now: nat, level: nat)
    requires level < NUM_FAR_WHEEL && now >= 1 && Opens(now, level)
    requires p.Far? && p.level == level && Fits(p, due, now, now - 1)
    requires p != Far(level, Window(now, level) % FAR_FUTURE)
    ensures Fits(p, due, now, now)
  {
    hide Window, Opens;
    WindowAdvances(now, level);
    SameSlot(Window(due, level), Window(now - 1, level));
  }

  /** After it has been walked, the level is in order for the new tick. */
  lemma LevelDone(w: Wheels, now: nat, level: nat)
    requires level < NUM_FAR_WHEEL && now >= 1 && Opens(now, level)
    requires Timed(w.items, now, level, now, now - 1)
    requires forall x :: x in w.items ==> w.items[x].place != Far(level, Window(now, level) % FAR_FUTURE)
    ensures Timed(w.items, now, level + 1, now, now - 1)
  {
    hide Window, Opens, Fits;
    forall x | x in w.items && w.items[x].place.Far? && w.items[x].place.level == level
      ensures Fits(w.items[x].place, w.items[x].due, now, now)
    {
      StaysAhead(w.items[x].place, w.items[x].due, now, level);
    }
  }

  lemma NoLevelOpened(items: map<Schedule, Item>, next: nat, lo: nat, hi: nat)
    requires Timed(items, next, 0, lo, lo)
    ensures Timed(items, next, 0, hi, lo)
  {
  }

  /** Once the carry stops at level `done`, all levels are in order for the new tick. */
  lemma CarryDone(w: Wheels, now: nat, done: nat)
    requires now >= 1 && (done >= NUM_FAR_WHEEL || !Opens(now, done))
    requires Linked(w, Near(0), 0) && Timed(w.items, now, done, now, now - 1)
    ensures Timed(w.items, now, 0, now, now)
  {
    forall x | x in w.items ensures Fits(w.items[x].place, w.items[x].due, now, now) {
      assert Holds(w, x, 0);
      if w.items[x].place.Far? && w.items[x].place.level >= done {
        CarryStops(now, done, w.items[x].place.level);
      }
    }
  }

  lemma DueMeansHere(p: Place, due: nat, now: nat)
    requires Fits(p, due, now, now)
    ensures due == now <==> p == Near(now % NEAR_FUTURE)
    ensures due != now ==> Fits(p, due, now + 1, now)
  {
  }

  /** Every deadline in the wheels that equals the current tick lies in the current near slot. */
  lemma CurrentSlot(items: map<Schedule, Item>, now: nat)
    requires Timed(items, now, 0, now, now)
    ensures forall x :: x in items ==> (items[x].due == now <==> items[x].place == Near(now % NEAR_FUTURE))
    ensures (forall x :: x in items ==> items[x].place != Near(now % NEAR_FUTURE)) ==>
              Timed(items, now + 1, 0, now, now)
  {
    hide Fits;
    forall x | x in items
      ensures items[x].due == now <==> items[x].place == Near(now % NEAR_FUTURE)
      ensures items[x].due != now ==> Fits(items[x].place, items[x].due, now + 1, now)
    {
      DueMeansHere(items[x].place, items[x].due, now);
    }
  }

  /** One item that fits keeps the rest in order. */
  lemma PushKeepsTimes(w: Wheels, next: nat, mark: nat, p: Place, x: Schedule, due: nat)
    requires p in w.lists && Timed(w.items, next, 0, mark, mark) && Fits(p, due, next, mark)
    ensures Timed(Push(w, p, x, due).items, next, 0, mark, mark)
  {
  }

  lemma TakeKeepsTimes(w: Wheels, next: nat, mark: nat, x: Schedule)
    requires Timed(w.items, next, 0, mark, mark)
    ensures Timed(Take(w, x).items, next, 0, mark, mark)
  {
  }

  /** A dispatch that has queued `order` so far. */
  ghost predicate PartWay(before: Flat, live: map<nat, Entry>, order: seq<nat>) {
    && NoDup(order)
    && (forall k :: k in order ==> k in DueNow(before))
    && live == AfterDispatch(before.live, (set k | k in order), before.now)
    && (forall k :: k in order && k in live ==> live[k].due != At(before.now))
  }

  function Fire(live: map<nat, Entry>, k: nat, now: nat): (r: map<nat, Entry>)
    requires k in live
  {
    if Repeats(live[k]) then live[k := Refire(live[k], now)] else live - {k}
  }

  lemma NothingFired(before: Flat)
    ensures PartWay(before, before.live, [])
  {
    assert AfterDispatch(before.live, {}, before.now) == before.live;
  }

  lemma FireOneMore(before: Flat, live: map<nat, Entry>, order: seq<nat>, k: nat)
    requires PartWay(before, live, order)
    requires k in live && live[k].due == At(before.now)
    requires Repeats(live[k]) ==> live[k].period >= 1
    ensures PartWay(before, Fire(live, k, before.now), [k] + order)
  {
    assert k !in order && live[k] == before.live[k];
    assert (set i | i in [k] + order) == (set i | i in order) + {k};
  }

  // ----- the timer

  lemma SerialsPush(x: Schedule, s: seq<Schedule>)
    ensures Serials([x] + s) == [x.serial] + Serials(s)
  {
  }

  ghost function Serials(s: seq<Schedule>): (r: seq<nat>)
    ensures |r| == |s|
  {
    seq(|s|, i requires 0 <= i < |s| => s[i].serial)
  }

  lemma SerialAt(s: seq<Schedule>, i: nat)
    requires i < |s|
    ensures Serials(s)[i] == s[i].serial
    ensures |s| == 1 ==> Serials(s) == [s[0].serial]
  {
  }

  lemma SerialsOfNone()
    ensures Serials([]) == []
  {
  }

  lemma SerialsRest(s: seq<Schedule>)
    requires s != []
    ensures Serials(s[1..]) == Serials(s)[1..]
  {
  }

  lemma SerialsJoin(a: seq<Schedule>, b: seq<Schedule>)
    ensures Serials(a + b) == Serials(a) + Serials(b)
  {
  }

  lemma RunnableEnds(queue: seq<nat>, removed: map<nat, nat>)
    ensures [] + Runnable(queue[0..], removed) == Runnable(queue, removed) && Runnable(queue[|queue|..], removed) == []
  {
    assert queue[0..] == queue;
  }

  lemma RunnableOne(s: nat, removed: map<nat, nat>)
    ensures Runnable([s], removed) == if s in removed then [] else [s]
  {
    assert [s][1..] == [];
  }

  lemma RunnableNext(done: seq<nat>, queue: seq<nat>, removed: map<nat, nat>, i: nat)
    requires i < |queue|
    ensures done + Runnable(queue[i..], removed)
            == (if queue[i] in removed then done else done + [queue[i]]) + Runnable(queue[i + 1..], removed)
  {
    assert queue[i..][1..] == queue[i + 1..];
  }

  class Timer {
    var lastTime: int
    var tick: nat
    var lastID: nat
    const nearFuture: array<seq<Schedule>>
    const farFuture: array2<seq<Schedule>>
    var dispatchList: seq<Schedule>
    var scheduleList: map<nat, Schedule>

    ghost var flat: Flat
    ghost var wheels: Wheels
    ghost var callList: seq<Schedule> // what the running update has still to look at
    ghost var all: set<Schedule> // every schedule accepted so far

    ghost predicate Shape() {
      nearFuture.Length == NEAR_FUTURE && farFuture.Length0 == NUM_FAR_WHEEL && farFuture.Length1 == FAR_FUTURE
    }

    /** `wheels` is what the arrays hold. */
    ghost predicate Mirrored()
      reads this`wheels, nearFuture, farFuture
    {
      Mirrors(wheels.lists)
    }

    ghost predicate Mirrors(lists: map<Place, seq<Schedule>>)
      reads nearFuture, farFuture
    {
      && Shape()
      && (forall p :: p in lists <==> IsPlace(p))
      && (forall s :: 0 <= s < NEAR_FUTURE ==> nearFuture[s] == lists[Near(s)])
      && (forall l, s :: 0 <= l < NUM_FAR_WHEEL && 0 <= s < FAR_FUTURE ==> farFuture[l, s] == lists[Far(l, s)])
    }

    /** The index of an item in a far wheel is its deadline. */
    ghost predicate Indexed()
      reads this`wheels, wheels.items.Keys
    {
      forall x :: x in wheels.items && wheels.items[x].place.Far? ==> x.index == wheels.items[x].due % U32
    }

    ghost function Mark(): (r: nat)
      reads this`flat
    {
      if flat.phase.Ticked? && flat.now > 0 then flat.now - 1 else flat.now
    }

    ghost predicate Placed()
      reads this`flat, this`wheels
    {
      && Linked(wheels, Near(0), 0)
      && Timed(wheels.items, NextDispatch(flat.now, flat.phase), 0, Mark(), Mark())
    }

    ghost predicate Books()
      reads this`wheels, this`flat, this`all, this`scheduleList, this`dispatchList, this`callList, all
    {
      Known() && Table()
    }

    /** Serials identify schedules, a callback is there until its removal, and the dispatch list is
        the queue of the flat timer. */
    ghost predicate Known()
      reads this`wheels, this`flat, this`all, this`dispatchList, this`callList, all
    {
      && wheels.items.Keys <= all
      && (forall x :: x in wheels.items ==> Ticks(x.interval) < U32)
      && (forall x :: x in all ==> 1 <= x.serial <= flat.adds && x.callable == (x.serial !in flat.removed))
      && (forall x, y :: x in all && y in all && x.serial == y.serial ==> x == y)
      && (forall s :: s in flat.removed ==> s <= flat.adds)
      && (forall x :: x in dispatchList ==> x in all)
      && flat.queue == Serials(dispatchList)
      && (forall x :: x in callList ==> x in all)
      && flat.calling == Serials(callList)
    }

    /** scheduleList holds the live schedules of the flat timer, and they are the items of the
        wheels whose remainTimes is not zero. */
    ghost predicate Table()
      reads this`wheels, this`flat, this`all, this`scheduleList, all
    {
      && (forall id :: id in scheduleList ==> BookedOk(id))
      && (forall k :: k in flat.live ==>
            flat.live[k].id in scheduleList && scheduleList[flat.live[k].id].serial == k)
      && (forall x :: x in wheels.items && x in all && x.remainTimes != 0 ==>
            x.id in scheduleList && scheduleList[x.id] == x)
    }

    ghost predicate BookedOk(id: nat)
      requires id in scheduleList
      reads this`wheels, this`flat, this`all, this`scheduleList, all
    {
      var x := scheduleList[id];
      && x in all
      && x.id == id
      && x.remainTimes != 0
      && (x.remainTimes == 1 || Ticks(x.interval) >= 1)
      && (x in wheels.items <==> Ticks(x.interval) < U32)
      && x.serial in flat.live
      && var e := flat.live[x.serial];
         && e.id == id && e.period == Ticks(x.interval) && e.remain == x.remainTimes
         && e.due == (if x in wheels.items then At(wheels.items[x].due) else Never)
    }

    ghost predicate Valid()
      reads this, nearFuture, farFuture, all
    {
      && tick == flat.now % U32
      && lastID == flat.adds % U32
      && (flat.phase.Ticked? ==> flat.now > 0)
      && Books()
      && Mirrored() && Placed() && Indexed()
    }

    constructor (now: int)
      ensures Valid() && flat == START && lastTime == now
      ensures fresh(nearFuture) && fresh(farFuture) && all == {} && callList == []
    {
      lastTime, tick, lastID := now, 0, 0;
      nearFuture := new seq<Schedule>[NEAR_FUTURE](_ => []);
      farFuture := new seq<Schedule>[NUM_FAR_WHEEL, FAR_FUTURE]((_, _) => []);
      dispatchList, scheduleList := [], map[];
      flat, all, callList := START, {}, [];
      wheels := Wheels(NoLists(), map[]);
      new;
      NewIsValid();
    }

    lemma NewIsValid()
      requires tick == 0 && lastID == 0 && dispatchList == [] && scheduleList == map[] && flat == START && all == {}
      requires callList == []
      requires wheels == Wheels(NoLists(), map[]) && Shape()
      requires forall s :: 0 <= s < NEAR_FUTURE ==> nearFuture[s] == []
      requires forall l, s :: 0 <= l < NUM_FAR_WHEEL && 0 <= s < FAR_FUTURE ==> farFuture[l, s] == []
      ensures Valid()
    {
      hide Timed, Linked, Window, Fits;
      NothingLinked();
    }

    /** forward_list::push_front on one slot. */
    method PushFront(p: Place, x: Schedule, ghost due: nat, ghost walk: Place, ghost j: nat)
      requires Mirrored() && IsPlace(p) && Linked(wheels, walk, j) && x !in wheels.items
      requires j == 0 || p != walk
      modifies this`wheels, nearFuture, farFuture
      ensures p in old(wheels).lists
      ensures Mirrored() && wheels == Push(old(wheels), p, x, due) && Linked(wheels, walk, j)
    {
      PushKeepsLinks(wheels, walk, j, p, x, due);
      match p {
        case Near(s) => nearFuture[s] := [x] + nearFuture[s];
        case Far(l, s) => farFuture[l, s] := [x] + farFuture[l, s];
      }
      wheels := Push(wheels, p, x, due);
    }

    /** Puts an item into the slot its interval asks for, counted from the current tick. */
    method Insert(x: Schedule, ghost walk: Place, ghost j: nat)
      requires Mirrored() && Linked(wheels, walk, j) && x !in wheels.items
      requires tick == flat.now % U32 && (flat.phase.Ticked? ==> flat.now > 0)
      requires j > 0 ==> flat.phase.Ready? && walk == Near(flat.now % NEAR_FUTURE) && Ticks(x.interval) >= 1
      modifies this`wheels, nearFuture, farFuture, x`index
      ensures Mirrored() && Linked(wheels, walk, j)
      ensures match DueOf(flat.now, flat.phase, Ticks(x.interval))
              case Never => wheels == old(wheels)
              case At(due) => Inserted(old(wheels), x, due, NextDispatch(flat.now, flat.phase), walk, j)
      ensures 10 <= x.interval < 10 * U32 ==>
                x in wheels.items && wheels.items[x].due == flat.now + x.interval / 10
    {
      hide Linked, Mirrors, Ticks, Window, DueOf, NextDispatch;
      DueInMs(flat.now, flat.phase, x.interval);
      var interval := Ticks(x.interval);
      ghost var due := DueOf(flat.now, flat.phase, interval);
      ghost var next := NextDispatch(flat.now, flat.phase);
      IndexOfTick(flat.now, interval);
      x.index := (tick + interval) % U32;
      if interval < NEAR_FUTURE {
        NearDeadline(flat.now, flat.phase, interval);
        PushFront(Near(x.index % NEAR_FUTURE), x, due.tick, walk, j);
      } else {
        FarDeadline(flat.now, flat.phase, interval);
        InsertFar(x, interval, next, walk, j);
      }
    }

    /** `Insert` with its effect on the whole wheels: they stay in order, and the item is due when
        the flat timer says. */
    method InsertTimed(x: Schedule, ghost walk: Place, ghost j: nat)
      requires Mirrored() && Indexed() && Linked(wheels, walk, j) && x !in wheels.items
      requires Timed(wheels.items, NextDispatch(flat.now, flat.phase), 0, Mark(), Mark())
      requires tick == flat.now % U32 && (flat.phase.Ticked? ==> flat.now > 0)
      requires j > 0 ==> flat.phase.Ready? && walk == Near(flat.now % NEAR_FUTURE) && Ticks(x.interval) >= 1
      modifies this`wheels, nearFuture, farFuture, x`index
      ensures Mirrored() && Indexed() && Linked(wheels, walk, j)
      ensures Timed(wheels.items, NextDispatch(flat.now, flat.phase), 0, Mark(), Mark())
      ensures old(walk in wheels.lists) && walk in wheels.lists
      ensures j > 0 ==> wheels.lists[walk] == old(wheels.lists[walk])
      ensures match DueOf(flat.now, flat.phase, Ticks(x.interval))
              case Never => wheels == old(wheels)
              case At(due) => due >= 0 && x in wheels.items && wheels.items[x].due == due
                              && Ticks(x.interval) < U32
                              && wheels.items == old(wheels).items[x := wheels.items[x]]
    {
      assert walk in wheels.lists;
      hide Timed, Linked, Mirrors, Ticks, Fits, NextDispatch;
      ghost var before, due := wheels, DueOf(flat.now, flat.phase, Ticks(x.interval));
      Insert(x, walk, j);
      if due.At? {
        PushKeepsTimes(before, NextDispatch(flat.now, flat.phase), Mark(), wheels.items[x].place, x, due.tick);
      }
    }

    /** x has been pushed into a slot, other than the walked one, that fits its deadline. */
    ghost predicate Inserted(before: Wheels, x: Schedule, due: int, next: nat, walk: Place, j: nat)
      reads this`wheels, this`flat, x
    {
      && due >= 0
      && x in wheels.items
      && var p := wheels.items[x].place;
         && p in before.lists && (j > 0 ==> p != walk)
         && wheels == Push(before, p, x, due)
         && Fits(p, due, next, Mark())
         && (p.Far? ==> x.index == due % U32)
    }

    method InsertFar(x: Schedule, ticks: int, ghost next: nat, ghost walk: Place, ghost j: nat)
      requires Mirrored() && Linked(wheels, walk, j) && x !in wheels.items && ticks >= NEAR_FUTURE
      requires Mark() <= flat.now <= Mark() + 1
      requires x.index == (flat.now + ticks) % U32
      requires j > 0 ==> walk.Near?
      modifies this`wheels, nearFuture, farFuture
      ensures Mirrored() && Linked(wheels, walk, j)
      ensures ticks >= U32 ==> wheels == old(wheels)
      ensures ticks < U32 ==> Inserted(old(wheels), x, flat.now + ticks, next, walk, j)
    {
      hide Linked, Mirrors;
      var interval := ticks / 256;
      var index := x.index / 256;
      for i := 0 to NUM_FAR_WHEEL
        invariant interval == Window(ticks, i) && index == Window(x.index, i) && interval >= 1
        invariant wheels == old(wheels) && Mirrored()
      {
        if interval < FAR_FUTURE {
          FarFits(flat.now, Mark(), ticks, i);
          PushFront(Far(i, index % FAR_FUTURE), x, flat.now + ticks, walk, j);
          return;
        }
        interval := interval / 64;
        index := index / 64;
      }
      BeyondWheels(ticks);
    }

    /** Carries an item of far wheel `level`, whose window has just been opened, down to the near
        wheel or to the highest lower far wheel in which its slot is still ahead. */
    method Move(x: Schedule, level: nat, ghost due: nat, ghost walk: Place, ghost j: nat)
      requires Mirrored() && level < NUM_FAR_WHEEL
      requires walk.Far? && level <= walk.level && Linked(wheels, walk, j) && x !in wheels.items
      requires x.index == due % U32
      requires Opens(flat.now, level) && Window(due, level) == Window(flat.now, level)
      modifies this`wheels, nearFuture, farFuture
      ensures Mirrored() && Linked(wheels, walk, j)
      ensures x in wheels.items && Moved(old(wheels), x, level, due)
      decreases level
    {
      hide Linked, Mirrors;
      if level == 0 {
        SlotOfIndex(due, 0);
        PushFront(Near(x.index % NEAR_FUTURE), x, due, walk, j);
      } else {
        var index := x.index / Width(level - 1) % FAR_FUTURE;
        WindowIsShift(x.index, level - 1);
        SlotOfIndex(due, level - 1);
        Carried(due, flat.now, level - 1);
        if index == 0 {
          Move(x, level - 1, due, walk, j);
        } else {
          PushFront(Far(level - 1, index), x, due, walk, j);
        }
      }
    }

    /** x has been pushed below far wheel `level`, into a slot that fits the new tick. */
    ghost predicate Moved(before: Wheels, x: Schedule, level: nat, due: nat)
      requires x in wheels.items
      reads this`wheels, this`flat
    {
      var p := wheels.items[x].place;
      && p in before.lists && wheels == Push(before, p, x, due)
      && (p.Far? ==> p.level < level)
      && Fits(p, due, flat.now, flat.now)
    }

    /** One step of the walk over a far slot whose window begins now. */
    method MoveNext(x: Schedule, level: nat, ghost walk: Place, ghost i: nat)
      requires Mirrored() && Indexed() && level < NUM_FAR_WHEEL && flat.now >= 1
      requires Opens(flat.now, level) && walk == Far(level, Window(flat.now, level) % FAR_FUTURE)
      requires Linked(wheels, walk, i) && i < |wheels.lists[walk]| && x == wheels.lists[walk][i]
      requires Timed(wheels.items, flat.now, level, flat.now, flat.now - 1)
      modifies this`wheels, nearFuture, farFuture
      ensures Mirrored() && Indexed() && Linked(wheels, walk, i + 1)
      ensures walk in wheels.lists && wheels.lists[walk] == old(wheels.lists[walk])
      ensures Timed(wheels.items, flat.now, level, flat.now, flat.now - 1)
      ensures SlotMoving(old(wheels).items, wheels.items, walk)
    {
      hide Timed, Linked, Mirrors, Window, Opens, Fits;
      TakeNext(wheels, walk, i);
      AboutToMove(wheels, flat.now, level, x);
      ghost var due := wheels.items[x].due;
      wheels := Take(wheels, x);
      Move(x, level, due, walk, i + 1);
      MoveKeepsTimes(old(wheels), flat.now, level, x, wheels.items[x].place, due);
    }

    /** Empties the slot of far wheel `level` whose window begins now; all its items move down and
        none of them into the list being walked. */
    method OpenWindow(level: nat, index: nat)
      requires Mirrored() && Indexed() && level < NUM_FAR_WHEEL && flat.now >= 1
      requires Opens(flat.now, level) && index == Window(flat.now, level) % FAR_FUTURE
      requires Linked(wheels, Near(0), 0) && Timed(wheels.items, flat.now, level, flat.now, flat.now - 1)
      modifies this`wheels, nearFuture, farFuture
      ensures Mirrored() && Indexed()
      ensures Linked(wheels, Near(0), 0) && Timed(wheels.items, flat.now, level + 1, flat.now, flat.now - 1)
      ensures SlotMoving(old(wheels).items, wheels.items, Far(level, index))
      ensures forall x :: x in wheels.items ==> wheels.items[x].place != Far(level, index)
    {
      hide Timed, Linked, Window, Opens, Mirrored, Indexed, SlotMoving, Fits;
      ghost var now := flat.now;
      ghost var walk := Far(level, index);
      var list := GetSlot(Far(level, index));
      AnyWalk(wheels, Near(0), walk);
      var i := 0;
      SlotMovingMore(wheels.items, wheels.items, wheels.items, walk);
      while i < |list|
        invariant i <= |list| && walk in wheels.lists && wheels.lists[walk] == list
        invariant Mirrored() && Indexed() && Linked(wheels, walk, i)
        invariant Timed(wheels.items, now, level, now, now - 1)
        invariant SlotMoving(old(wheels).items, wheels.items, walk)
      {
        ghost var before := wheels.items;
        MoveNext(list[i], level, walk, i);
        SlotMovingMore(old(wheels).items, before, wheels.items, walk);
        i := i + 1;
      }
      ClearDone(wheels, walk);
      LevelDone(wheels, now, level);
      ClearSlot(Far(level, index));
    }

    method GetSlot(p: Place) returns (list: seq<Schedule>)
      requires Mirrored() && IsPlace(p)
      ensures p in wheels.lists && list == wheels.lists[p]
    {
      match p
      case Near(s) => list := nearFuture[s];
      case Far(l, s) => list := farFuture[l, s];
    }

    /** list.clear() on one slot. */
    method ClearSlot(p: Place)
      requires Mirrored() && Indexed() && IsPlace(p)
      modifies this`wheels, nearFuture, farFuture
      ensures Mirrored() && Indexed() && wheels == Clear(old(wheels), p)
    {
      match p {
        case Near(s) => nearFuture[s] := [];
        case Far(l, s) => farFuture[l, s] := [];
      }
      wheels := Clear(wheels, p);
    }

    twostate predicate SameAccounts()
      reads this`flat
    {
      flat.adds == old(flat.adds) && flat.removed == old(flat.removed) && flat.calling == old(flat.calling)
    }

    /** Moving items between slots and stepping the phase leaves the books in order. */
    twostate lemma BooksKept()
      requires old(Books()) && all == old(all) && unchanged(old(all))
      requires scheduleList == old(scheduleList) && dispatchList == old(dispatchList) && callList == old(callList)
      requires SameItems(old(wheels).items, wheels.items)
      requires SameAccounts() && flat.live == old(flat.live) && flat.queue == old(flat.queue)
      ensures Books()
    {
      hide Serials;
      forall id | id in scheduleList ensures BookedOk(id) {
        assert old(BookedOk(id));
      }
    }

    /** Opens the windows that begin at the current tick, level by level until one does not. */
    method Expand()
      requires Valid() && flat.phase.Ticked?
      modifies this`wheels, this`flat, nearFuture, farFuture
      ensures Valid() && flat == Apply(old(flat), Op.Expand)
      ensures Cascaded(old(wheels).items, wheels.items, flat.now)
    {
      hide Timed, Linked, Window, Mirrors, Indexed, Books, Begins, Below;
      OpenWindows();
      flat := Apply(flat, Op.Expand);
      BooksKept();
    }

    method OpenWindows()
      requires Mirrored() && Indexed() && Linked(wheels, Near(0), 0)
      requires flat.now >= 1 && tick == flat.now % U32
      requires Timed(wheels.items, flat.now, 0, flat.now - 1, flat.now - 1)
      modifies this`wheels, nearFuture, farFuture
      ensures Mirrored() && Indexed() && Linked(wheels, Near(0), 0)
      ensures Timed(wheels.items, flat.now, 0, flat.now, flat.now)
      ensures Cascaded(old(wheels).items, wheels.items, flat.now)
    {
      hide Timed, Linked, Window, Mirrors, Indexed, Cascaded, MovedBelow, Width;
      NoLevelOpened(wheels.items, flat.now, flat.now - 1, flat.now);
      var visited := 0;
      SlotOfIndex(flat.now, 0);
      if tick % NEAR_FUTURE == 0 {
        visited := CarryUp();
      } else {
        CarryDone(wheels, flat.now, 0);
        NoLevelBegins(flat.now);
        NoneMoved(wheels.items, flat.now);
      }
      CarryIsCascade(old(wheels).items, wheels.items, flat.now, visited);
    }

    /** Returns the number of levels visited: those whose width divides the tick. */
    method CarryUp() returns (visited: nat)
      requires Mirrored() && Indexed() && Linked(wheels, Near(0), 0)
      requires flat.now >= 1 && tick == flat.now % U32 && tick % NEAR_FUTURE == 0
      requires Timed(wheels.items, flat.now, 0, flat.now, flat.now - 1)
      modifies this`wheels, nearFuture, farFuture
      ensures Mirrored() && Indexed() && Linked(wheels, Near(0), 0)
      ensures Timed(wheels.items, flat.now, 0, flat.now, flat.now)
      ensures visited <= NUM_FAR_WHEEL
      ensures forall l: nat :: l < NUM_FAR_WHEEL ==> (l < visited <==> flat.now % Width(l) == 0)
      ensures MovedBelow(old(wheels).items, wheels.items, flat.now, visited)
    {
      hide Timed, Linked, MovedBelow, SlotMoving, Width;
      ghost var now := flat.now;
      SlotOfIndex(now, 0);
      var farTick := tick / 256;
      var level := 0;
      NoneMoved(wheels.items, now);
      while level < NUM_FAR_WHEEL
        invariant level <= NUM_FAR_WHEEL && farTick == Window(tick, level) && Opens(now, level)
        invariant Mirrored() && Indexed() && Linked(wheels, Near(0), 0)
        invariant Timed(wheels.items, now, level, now, now - 1)
        invariant MovedBelow(old(wheels).items, wheels.items, now, level)
      {
        SlotOfIndex(now, level);
        var index := farTick % FAR_FUTURE;
        ghost var before := wheels.items;
        OpenWindow(level, index);
        MovedMore(old(wheels).items, before, wheels.items, now, level);
        level := level + 1;
        if index != 0 {
          break;
        }
        farTick := farTick / 64;
      }
      CarryDone(wheels, now, level);
      VisitedLevels(now, level);
      return level;
    }

    /** ++tick, which the worker does outside the locks. */
    method Advance()
      requires Valid() && flat.phase.Dispatched?
      modifies this`tick, this`flat
      ensures Valid() && flat == Apply(old(flat), Op.Tick)
    {
      hide Linked, Timed, Mirrors, Books;
      IndexOfTick(flat.now, 1);
      tick := (tick + 1) % U32;
      flat := Apply(flat, Op.Tick);
      BooksKept();
    }

    /** Half-way through a dispatch: the first i items of the current near slot are dealt with. */
    ghost predicate Dispatching(before: Flat, order: seq<nat>, i: nat)
      reads this, nearFuture, farFuture, all
    {
      && tick == flat.now % U32
      && lastID == flat.adds % U32
      && flat.phase.Ready?
      && Books()
      && Mirrored() && Indexed()
      && Linked(wheels, Near(flat.now % NEAR_FUTURE), i)
      && Timed(wheels.items, flat.now, 0, flat.now, flat.now)
      && flat == before.(live := flat.live, queue := order + before.queue)
      && PartWay(before, flat.live, order)
    }

    /** What the books say of an item in the wheels that has not been removed. */
    lemma LiveItem(x: Schedule)
      requires Books() && x in wheels.items && x.remainTimes != 0
      ensures x in all && x.id in scheduleList && scheduleList[x.id] == x && x.serial in flat.live
      ensures var e := flat.live[x.serial];
              && e.id == x.id && e.period == Ticks(x.interval) < U32 && e.remain == x.remainTimes
              && e.due == At(wheels.items[x].due)
              && (x.remainTimes == 1 || e.period >= 1)
    {
      assert BookedOk(x.id);
    }

    lemma KnownItems()
      requires Books()
      ensures wheels.items.Keys <= all
    {
    }

    twostate predicate OnlyChanged(x: Schedule)
      reads this, all
    {
      && all == old(all) && callList == old(callList)
      && (forall y :: y in old(all) && y != x ==> unchanged(y))
      && (x in all ==> x.id == old(x.id))
    }

    /** A removed item is dropped when its slot comes up. */
    twostate lemma BooksDropped(x: Schedule)
      requires old(Books()) && OnlyChanged(x) && x.callable == old(x.callable) && old(x.remainTimes) == 0
      requires wheels.items == old(wheels.items) - {x}
      requires flat == old(flat) && scheduleList == old(scheduleList) && dispatchList == old(dispatchList)
      ensures Books()
    {
      hide Serials, Ticks;
      forall id | id in scheduleList ensures BookedOk(id) {
        assert old(BookedOk(id));
      }
    }

    /** A firing item that repeats is back in the wheels with its next deadline. */
    twostate predicate Rearms(x: Schedule)
      reads this, all, x
    {
      && OnlyChanged(x) && x.callable == old(x.callable)
      && x in all && x in old(wheels.items) && old(x.remainTimes) != 0 && x.serial in old(flat.live)
      && SameAccounts() && flat.queue == [x.serial] + old(flat.queue)
      && scheduleList == old(scheduleList) && dispatchList == [x] + old(dispatchList)
      && x in wheels.items && wheels.items == old(wheels.items)[x := wheels.items[x]]
      && var e := old(flat.live)[x.serial];
         && Repeats(e) && e.period >= 1
         && x.remainTimes == Refire(e, old(flat.now)).remain
         && flat.live == old(flat.live)[x.serial := Refire(e, old(flat.now))]
         && wheels.items[x].due == old(flat.now) + e.period
    }

    twostate lemma TableRearmed(x: Schedule)
      requires old(Table()) && old(wheels.items.Keys <= all) && Rearms(x)
      ensures Table()
    {
      hide Serials, Ticks;
      assert old(BookedOk(x.id));
      forall id | id in scheduleList ensures BookedOk(id) {
        assert old(BookedOk(id));
      }
    }

    twostate lemma BooksRearmed(x: Schedule)
      requires old(Books()) && Rearms(x)
      ensures Books()
    {
      hide Table, BookedOk, Ticks, Refire, Repeats;
      SerialsPush(x, old(dispatchList));
      hide Serials;
      TableRearmed(x);
    }

    /** A firing item that is used up leaves the table and the wheels. */
    twostate predicate Retires(x: Schedule)
      reads this, all, x
    {
      && OnlyChanged(x) && x.callable == old(x.callable)
      && x in all && x in old(wheels.items) && old(x.remainTimes) != 0
      && SameAccounts() && flat.queue == [x.serial] + old(flat.queue)
      && flat.live == old(flat.live) - {x.serial}
      && wheels.items == old(wheels.items) - {x}
      && scheduleList == old(scheduleList) - {x.id} && dispatchList == [x] + old(dispatchList)
    }

    twostate lemma TableRetired(x: Schedule)
      requires old(Table()) && old(wheels.items.Keys <= all) && Retires(x)
      ensures Table()
    {
      hide Serials, Ticks;
      TableShrinks(x);
    }

    twostate lemma BooksRetired(x: Schedule)
      requires old(Books()) && Retires(x)
      ensures Books()
    {
      hide Table, BookedOk, Ticks;
      SerialsPush(x, old(dispatchList));
      hide Serials;
      TableRetired(x);
    }

    /** Taking one schedule out of the table and out of the live ones. */
    twostate lemma TableShrinks(x: Schedule)
      requires old(Table()) && OnlyChanged(x) && x in all
      requires (x.id in old(scheduleList) && old(scheduleList)[x.id] == x)
               || (x in old(wheels.items) && old(x.remainTimes) != 0)
      requires flat.live == old(flat.live) - {x.serial} && scheduleList == old(scheduleList) - {x.id}
      requires (wheels.items == old(wheels.items) - {x}) || (wheels.items == old(wheels.items) && x.remainTimes == 0)
      ensures Table()
    {
      hide Ticks;
      assert old(BookedOk(x.id));
      forall id | id in scheduleList ensures BookedOk(id) {
        assert old(BookedOk(id));
      }
    }

    /** The next item of the walked slot leaves the books of the wheels. */
    ghost method TakeOut(x: Schedule, walk: Place, i: nat)
      requires Mirrored() && Indexed() && Linked(wheels, walk, i)
      requires i < |wheels.lists[walk]| && x == wheels.lists[walk][i]
      requires Timed(wheels.items, flat.now, 0, flat.now, flat.now)
      modifies this`wheels
      ensures x in old(wheels).items && old(wheels).items[x].place == walk
      ensures wheels == Take(old(wheels), x) && walk in wheels.lists
      ensures Mirrored() && Indexed() && Linked(wheels, walk, i + 1)
      ensures Timed(wheels.items, flat.now, 0, flat.now, flat.now)
    {
      hide Timed, Linked, Mirrors;
      TakeNext(wheels, walk, i);
      TakeKeepsTimes(wheels, flat.now, flat.now, x);
      wheels := Take(wheels, x);
    }

    /** Deals with the next item of the slot being dispatched. */
    method FireNext(x: Schedule, ghost before: Flat, ghost order: seq<nat>, ghost i: nat)
      returns (ghost order': seq<nat>)
      requires Dispatching(before, order, i)
      requires var p := Near(flat.now % NEAR_FUTURE); i < |wheels.lists[p]| && x == wheels.lists[p][i]
      modifies this`wheels, this`dispatchList, this`scheduleList, this`flat, nearFuture, farFuture, x
      ensures Dispatching(before, order', i + 1)
      ensures var p := Near(flat.now % NEAR_FUTURE);
              p in wheels.lists && wheels.lists[p] == old(wheels.lists[p])
    {
      hide Books, Timed, Linked, Mirrors, PartWay, Ticks, Fits, DueNow;
      if x.remainTimes != 0 {
        order' := FireLive(x, before, order, i);
      } else {
        order' := order;
        TakeOut(x, Near(flat.now % NEAR_FUTURE), i);
        BooksDropped(x);
      }
    }

    lemma ReadyMark()
      requires flat.phase.Ready?
      ensures Mark() == flat.now == NextDispatch(flat.now, flat.phase)
    {
    }

    /** The next item of the slot is due now, and firing it continues the dispatch. */
    lemma NextFires(x: Schedule, before: Flat, order: seq<nat>, i: nat)
      requires Dispatching(before, order, i) && x.remainTimes != 0
      requires var p := Near(flat.now % NEAR_FUTURE); i < |wheels.lists[p]| && x == wheels.lists[p][i]
      ensures x in wheels.items && x in all && x.id in scheduleList && scheduleList[x.id] == x && x.serial in flat.live
      ensures var e := flat.live[x.serial];
              && e.id == x.id && e.period == Ticks(x.interval) < U32 && e.remain == x.remainTimes
              && (x.remainTimes == 1 || e.period >= 1)
      ensures PartWay(before, Fire(flat.live, x.serial, flat.now), [x.serial] + order)
    {
      hide Books, Timed, Linked, Mirrors, PartWay, Ticks, Fits;
      TakeNext(wheels, Near(flat.now % NEAR_FUTURE), i);
      CurrentSlot(wheels.items, flat.now);
      LiveItem(x);
      FireOneMore(before, flat.live, order, x.serial);
    }

    method FireLive(x: Schedule, ghost before: Flat, ghost order: seq<nat>, ghost i: nat)
      returns (ghost order': seq<nat>)
      requires Dispatching(before, order, i) && x.remainTimes != 0
      requires var p := Near(flat.now % NEAR_FUTURE); i < |wheels.lists[p]| && x == wheels.lists[p][i]
      modifies this`wheels, this`dispatchList, this`scheduleList, this`flat, nearFuture, farFuture, x
      ensures Dispatching(before, order', i + 1)
      ensures var p := Near(flat.now % NEAR_FUTURE);
              p in wheels.lists && wheels.lists[p] == old(wheels.lists[p])
    {
      hide Books, Timed, Linked, Mirrors, PartWay, Ticks, Fits, DueNow, DueOf, Mark, NextDispatch, Inserted, Indexed;
      ghost var walk, k := Near(flat.now % NEAR_FUTURE), x.serial;
      NextFires(x, before, order, i);
      TakeOut(x, walk, i);
      dispatchList := [x] + dispatchList;
      order' := [k] + order;
      flat := flat.(live := Fire(flat.live, k, flat.now), queue := order' + before.queue);
      Rearm(x, walk, i + 1);
      if Repeats(old(flat).live[k]) {
        BooksRearmed(x);
      } else {
        BooksRetired(x);
      }
    }

    /** Counts a firing down, and puts the item back into the wheels or drops its schedule. */
    method Rearm(x: Schedule, ghost walk: Place, ghost j: nat)
      requires Mirrored() && Indexed() && Linked(wheels, walk, j) && x !in wheels.items && j > 0
      requires Timed(wheels.items, flat.now, 0, flat.now, flat.now)
      requires tick == flat.now % U32 && flat.phase.Ready? && walk == Near(flat.now % NEAR_FUTURE)
      requires x.remainTimes != 0
      requires x.remainTimes != 1 ==> 1 <= Ticks(x.interval) < U32
      modifies this`wheels, this`scheduleList, nearFuture, farFuture, x`index, x`remainTimes
      ensures Mirrored() && Indexed() && Linked(wheels, walk, j)
      ensures Timed(wheels.items, flat.now, 0, flat.now, flat.now)
      ensures old(walk in wheels.lists) && walk in wheels.lists && wheels.lists[walk] == old(wheels.lists[walk])
      ensures var n := old(x.remainTimes);
              if n == -1 || n - 1 > 0 then
                && x.remainTimes == (if n == -1 then -1 else n - 1) && scheduleList == old(scheduleList)
                && x in wheels.items && wheels.items == old(wheels.items)[x := wheels.items[x]]
                && wheels.items[x].due == flat.now + Ticks(x.interval)
              else wheels == old(wheels) && scheduleList == old(scheduleList) - {x.id}
    {
      assert walk in wheels.lists;
      hide Timed, Linked, Mirrors, Ticks, DueOf, Mark, NextDispatch;
      var again := x.remainTimes == -1;
      if !again {
        x.remainTimes := x.remainTimes - 1;
        again := x.remainTimes > 0;
      }
      if again {
        Rearmed(flat.now, Ticks(x.interval));
        ReadyMark();
        InsertTimed(x, walk, j);
        ReadyMark();
      } else {
        scheduleList := scheduleList - {x.id};
      }
    }

    /** When no item is left in the current slot, everything that was due has been queued. */
    lemma AllDispatched(before: Flat, order: seq<nat>, i: nat)
      requires Dispatching(before, order, i)
      requires forall x :: x in wheels.items ==> wheels.items[x].due != flat.now
      ensures Enumerates(order, DueNow(before))
      ensures flat.live == AfterDispatch(before.live, DueNow(before), before.now)
    {
      forall k | k in flat.live ensures flat.live[k].due != At(flat.now) {
        assert BookedOk(flat.live[k].id);
      }
      forall k | k in DueNow(before) && k !in order ensures k in flat.live && flat.live[k] == before.live[k] {
      }
      assert (set k | k in order) == DueNow(before);
    }

    twostate lemma BooksClosed()
      requires old(Books()) && all == old(all) && unchanged(old(all))
      requires scheduleList == old(scheduleList) && dispatchList == old(dispatchList) && callList == old(callList)
      requires wheels.items == old(wheels).items
      requires SameAccounts() && flat.live == old(flat.live) && flat.queue == old(flat.queue)
      ensures Books()
    {
      hide Serials;
      forall id | id in scheduleList ensures BookedOk(id) {
        assert old(BookedOk(id));
      }
    }

    /** Queues every live schedule of the current near slot and re-arms those that repeat. */
    method Dispatch() returns (ghost order: seq<nat>)
      requires Valid() && flat.phase.Ready?
      modifies this`wheels, this`dispatchList, this`scheduleList, this`flat, nearFuture, farFuture, all
      ensures Valid() && Enabled(old(flat), Op.Dispatch(order))
      ensures flat == Apply(old(flat), Op.Dispatch(order))
    {
      hide Books, Timed, Linked, Mirrored, Indexed, PartWay;
      SlotOfIndex(flat.now, 0);
      ghost var before := flat;
      ghost var walk := Near(flat.now % NEAR_FUTURE);
      order := [];
      var list := GetSlot(Near(tick % NEAR_FUTURE));
      AnyWalk(wheels, Near(0), walk);
      NothingFired(before);
      var i := 0;
      while i < |list|
        invariant i <= |list| && walk in wheels.lists && wheels.lists[walk] == list
        invariant all == old(all) && Dispatching(before, order, i)
      {
        TakeNext(wheels, walk, i);
        KnownItems();
        order := FireNext(list[i], before, order, i);
        i := i + 1;
      }
      FinishDispatch(before, order, i);
    }

    /** list.clear() after the walk. */
    method FinishDispatch(ghost before: Flat, ghost order: seq<nat>, ghost i: nat)
      requires Dispatching(before, order, i) && before.phase.Ready? && Near(flat.now % NEAR_FUTURE) in wheels.lists
      requires i == |wheels.lists[Near(flat.now % NEAR_FUTURE)]|
      modifies this`wheels, this`flat, nearFuture, farFuture
      ensures Valid() && Enabled(before, Op.Dispatch(order)) && flat == Apply(before, Op.Dispatch(order))
    {
      hide Books, Timed, Linked, Mirrored, Indexed, PartWay;
      SlotOfIndex(flat.now, 0);
      ClearDone(wheels, Near(flat.now % NEAR_FUTURE));
      CurrentSlot(wheels.items, flat.now);
      AllDispatched(before, order, i);
      ClearSlot(Near(tick % NEAR_FUTURE));
      flat := Apply(before, Op.Dispatch(order));
      BooksClosed();
    }

    /** A new schedule enters the table, and the wheels unless its interval is too long for them. */
    twostate predicate Admits(new x: Schedule)
      reads this, all, x
    {
      && all == old(all) + {x} && x !in old(all) && unchanged(old(all)) && callList == old(callList)
      && x.callable && x.id == NewId(old(flat)) && x.serial == old(flat.adds) + 1
      && x.remainTimes != 0 && (x.remainTimes == 1 || Ticks(x.interval) >= 1)
      && scheduleList == old(scheduleList)[x.id := x] && dispatchList == old(dispatchList)
      && flat.adds == x.serial && flat.removed == old(flat.removed)
      && flat.queue == old(flat.queue) && flat.calling == old(flat.calling)
      && x.serial in flat.live
      && var e := flat.live[x.serial];
         && flat.live == old(flat.live)[x.serial := e]
         && e.id == x.id && e.period == Ticks(x.interval) && e.remain == x.remainTimes
         && (if e.due.Never? then Ticks(x.interval) >= U32 && wheels == old(wheels)
             else && Ticks(x.interval) < U32 && x in wheels.items && wheels.items[x].due == e.due.tick
                  && wheels.items == old(wheels.items)[x := wheels.items[x]])
    }

    twostate lemma AllBooked(new x: Schedule)
      requires old(Books()) && Admits(x)
      ensures forall id :: id in scheduleList ==> BookedOk(id)
    {
      hide Serials, Ticks, NewId;
      forall id | id in scheduleList ensures BookedOk(id) {
        if id != x.id { assert old(BookedOk(id)); }
      }
    }

    twostate lemma BookedIds()
      requires old(Table())
      ensures forall id :: id in old(scheduleList) ==> IdInUse(old(flat), id)
    {
      forall id | id in old(scheduleList) ensures IdInUse(old(flat), id) {
        assert old(BookedOk(id));
      }
    }

    twostate lemma TableAdmitted(new x: Schedule)
      requires old(Books()) && Admits(x) && !IdInUse(old(flat), x.id)
      ensures Table()
    {
      hide Serials, Ticks, NewId, BookedOk, IdInUse;
      BookedIds();
      AllBooked(x);
    }

    twostate lemma BooksAdmitted(new x: Schedule)
      requires old(Books()) && Admits(x) && !IdInUse(old(flat), x.id)
      ensures Books()
    {
      hide Table, BookedOk, Serials, Ticks, NewId;
      TableAdmitted(x);
    }

    lemma AddedDue(f: Flat, interval: int, times: int, callable: bool)
      requires Accepted(Add(interval, times, callable)) && 10 <= interval < 10 * U32
      ensures var g := ApplyAdd(f, Add(interval, times, callable));
              g.adds in g.live && g.live[g.adds].due == At(f.now + interval / 10)
    {
      TicksOfMs(interval);
    }

    lemma AcceptedPeriod(interval: int)
      ensures interval >= MIN_INTERVAL ==> Ticks(interval) >= 1
    {
    }

    /** addTimeCall: plans a callback and returns its id, or 0 when it is refused. */
    method AddTimeCall(interval: int, callable: bool, times: int) returns (id: nat)
      requires Valid() && Enabled(flat, Add(interval, times, callable))
      modifies this`lastID, this`scheduleList, this`wheels, this`flat, this`all, nearFuture, farFuture
      ensures Valid() && flat == Apply(old(flat), Add(interval, times, callable))
      ensures fresh(all - old(all))
      ensures if callable && times != 0 && (times == 1 || interval >= 10) then
                && id == NewId(old(flat)) && flat.adds == old(flat).adds + 1
                && (10 <= interval < 10 * U32 ==>
                      flat.adds in flat.live && flat.live[flat.adds].due == At(flat.now + interval / 10))
              else id == 0 && flat == old(flat)
    {
      hide Books, Timed, Linked, Mirrors, Ticks, Indexed, DueOf, IdInUse, Placed;
      AcceptedPeriod(interval);
      if Accepted(Add(interval, times, callable)) && 10 <= interval < 10 * U32 {
        AddedDue(flat, interval, times, callable);
      }
      if callable && times != 0 && (times == 1 || interval >= MIN_INTERVAL) {
        var schedule := new Schedule(times, interval, flat.adds + 1);
        Admit(schedule);
        flat := Apply(old(flat), Add(interval, times, callable));
        return lastID;
      }
      return 0;
    }

    /** The locked part of addTimeCall. */
    method Admit(schedule: Schedule)
      requires Valid() && schedule !in all && !IdInUse(flat, NewId(flat))
      requires schedule.callable && schedule.serial == flat.adds + 1 && schedule.remainTimes != 0
      requires schedule.remainTimes == 1 || Ticks(schedule.interval) >= 1
      modifies this`lastID, this`scheduleList, this`wheels, this`flat, this`all, nearFuture, farFuture
      modifies schedule`id, schedule`index
      ensures Valid() && all == old(all) + {schedule} && lastID == NewId(old(flat))
      ensures var s, times, period := schedule.serial, schedule.remainTimes, Ticks(schedule.interval);
              var due := DueOf(old(flat).now, old(flat).phase, period);
              flat == old(flat).(adds := s, live := old(flat).live[s := Entry(lastID, due, period, times, 0)],
                                 born := old(flat).born[s := Birth(due, period, times)])
    {
      hide Books, Mirrored, Placed, Indexed, Ticks, DueOf, IdInUse;
      KnownItems();
      ghost var due := DueOf(flat.now, flat.phase, Ticks(schedule.interval));
      Number(schedule, due);
      scheduleList := scheduleList[lastID := schedule];
      all := all + {schedule};
      EnterFlat(schedule, due);
      BooksAdmitted(schedule);
    }

    /** The next id, and the slot. */
    method Number(schedule: Schedule, ghost due: Deadline)
      requires Mirrored() && Placed() && Indexed() && schedule !in wheels.items
      requires tick == flat.now % U32 && lastID == flat.adds % U32 && (flat.phase.Ticked? ==> flat.now > 0)
      requires due == DueOf(flat.now, flat.phase, Ticks(schedule.interval))
      modifies this`lastID, this`wheels, nearFuture, farFuture, schedule`id, schedule`index
      ensures Mirrored() && Placed() && Indexed() && lastID == schedule.id == NewId(flat)
      ensures if due.Never? then Ticks(schedule.interval) >= U32 && wheels == old(wheels)
              else && Ticks(schedule.interval) < U32 && schedule in wheels.items
                   && wheels.items[schedule].due == due.tick
                   && wheels.items == old(wheels.items)[schedule := wheels.items[schedule]]
    {
      hide Timed, Linked, Mirrored, Ticks, Fits, DueOf, NextDispatch;
      NeverDue(flat.now, flat.phase, Ticks(schedule.interval));
      lastID := (lastID + 1) % U32;
      schedule.id := lastID;
      InsertTimed(schedule, Near(0), 0);
    }

    ghost method EnterFlat(x: Schedule, due: Deadline)
      requires Mirrored() && Placed() && Indexed()
      modifies this`flat
      ensures Mirrored() && Placed() && Indexed()
      ensures var s, times, period := x.serial, x.remainTimes, Ticks(x.interval);
              flat == old(flat).(adds := s, live := old(flat).live[s := Entry(x.id, due, period, times, 0)],
                                 born := old(flat).born[s := Birth(due, period, times)])
    {
      hide Timed, Linked, Mirrors, Ticks;
      var s, times, period := x.serial, x.remainTimes, Ticks(x.interval);
      flat := flat.(adds := s, live := flat.live[s := Entry(x.id, due, period, times, 0)],
                    born := flat.born[s := Birth(due, period, times)]);
    }

    twostate predicate Forgets(x: Schedule)
      reads this, all, x
    {
      && OnlyChanged(x) && wheels == old(wheels)
      && x in all && x.id in old(scheduleList) && old(scheduleList)[x.id] == x
      && x.remainTimes == 0 && !x.callable && scheduleList == old(scheduleList) - {x.id}
      && dispatchList == old(dispatchList)
      && flat.live == old(flat.live) - {x.serial} && flat.removed.Keys == old(flat.removed).Keys + {x.serial}
      && flat.adds == old(flat.adds) && flat.queue == old(flat.queue) && flat.calling == old(flat.calling)
    }

    twostate lemma BooksForgot(x: Schedule)
      requires old(Books()) && Forgets(x)
      ensures Books()
    {
      hide Table, BookedOk, Serials, Ticks;
      TableShrinks(x);
    }

    /** The list in one slot. */
    function SlotOf(p: Place): (r: seq<Schedule>)
      requires Shape() && IsPlace(p)
      reads nearFuture, farFuture
    {
      match p
      case Near(s) => nearFuture[s]
      case Far(l, s) => farFuture[l, s]
    }

    /** Slot p holds, at position i, a schedule with this id that has not been removed or used up. */
    ghost predicate LiesAt(id: nat, p: Place, i: nat)
      requires Shape()
      reads nearFuture, farFuture, if IsPlace(p) then SlotOf(p) else []
    {
      IsPlace(p) && i < |SlotOf(p)| && SlotOf(p)[i].id == id && SlotOf(p)[i].remainTimes != 0
    }

    /** Index agreement: the table and the slots hold the same live schedules, but for those whose
        interval of 2^32 ticks or more fits no wheel. An id is in the table, with a shorter interval,
        exactly when some slot holds a live schedule with that id; then only one slot does, once, and
        it is the schedule of the table. */
    lemma IndexAgreement(id: nat)
      requires Valid()
      ensures id in scheduleList && Ticks(scheduleList[id].interval) < U32 <==> exists p, i: nat :: LiesAt(id, p, i)
      ensures forall p, i: nat :: LiesAt(id, p, i) ==> SlotOf(p)[i] == scheduleList[id]
      ensures forall p, i: nat, p', j: nat :: LiesAt(id, p, i) && LiesAt(id, p', j) ==> p == p' && i == j
    {
      hide Timed, Window, Fits, Serials, Ticks;
      forall p, i: nat | LiesAt(id, p, i)
        ensures id in scheduleList && SlotOf(p)[i] == scheduleList[id] && scheduleList[id] in wheels.items
        ensures Ticks(scheduleList[id].interval) < U32 && wheels.items[scheduleList[id]].place == p
      {
        var x := SlotOf(p)[i];
        assert wheels.lists[p][i] == x && x in wheels.items;
        LiveItem(x);
      }
      if id in scheduleList && Ticks(scheduleList[id].interval) < U32 {
        assert BookedOk(id);
        var x := scheduleList[id];
        assert Holds(wheels, x, 0);
        var p := wheels.items[x].place;
        var i: nat :| i < |wheels.lists[p]| && wheels.lists[p][i] == x;
        assert LiesAt(id, p, i);
      }
    }

    /** The schedule booked under an id is the one the flat timer removes. */
    lemma BookedUnder(id: nat)
      requires Books()
      ensures id in scheduleList <==> IdInUse(flat, id)
      ensures id in scheduleList ==>
                var x := scheduleList[id];
                x in all && x.id == id && x.serial in flat.live && flat.live[x.serial].id == id
                && forall k :: k in flat.live && flat.live[k].id == id ==> k == x.serial
    {
      if id in scheduleList {
        assert BookedOk(id);
      }
    }

    /** remove: forgets a planned callback; its item stays in its slot until the slot comes up. */
    method Remove(id: nat)
      requires Valid()
      modifies this`scheduleList, this`flat, all
      ensures Valid() && flat == Apply(old(flat), Op.Remove(id))
    {
      hide Books, Timed, Linked, Mirrors;
      BookedUnder(id);
      if id in scheduleList {
        Forget(scheduleList[id]);
        flat := Apply(old(flat), Op.Remove(id));
      }
    }

    method Forget(x: Schedule)
      requires Valid() && x in all && x.id in scheduleList && scheduleList[x.id] == x
      modifies this`scheduleList, this`flat, x`remainTimes, x`callable
      ensures Valid()
      ensures flat == old(flat).(live := old(flat).live - {x.serial},
                                 removed := old(flat).removed[x.serial := |old(flat).history|])
    {
      hide Books, Timed, Linked, Mirrors;
      x.remainTimes := 0;
      x.callable := false;
      scheduleList := scheduleList - {x.id};
      flat := flat.(live := flat.live - {x.serial}, removed := flat.removed[x.serial := |flat.history|]);
      BooksForgot(x);
    }

    /** The locked part of update. */
    method SwapOut() returns (swapped: seq<Schedule>)
      requires Valid() && callList == []
      modifies this`dispatchList, this`callList, this`flat
      ensures Valid() && Enabled(old(flat), Swap) && flat == Apply(old(flat), Swap)
      ensures swapped == callList == old(dispatchList) && dispatchList == []
    {
      hide Timed, Linked, Mirrors, Books;
      QueuedAreKnown();
      swapped := dispatchList;
      dispatchList := [];
      callList := swapped;
      flat := Apply(flat, Swap);
      BooksUpdated();
    }

    /** One turn of the loop of update: a callback that has not been removed by now is run. */
    method RunNext(item: Schedule) returns (runs: bool)
      requires Valid() && callList != [] && item == callList[0]
      modifies this`callList, this`flat
      ensures Valid() && Enabled(old(flat), CallNext) && flat == Apply(old(flat), CallNext)
      ensures callList == old(callList)[1..]
      ensures runs == (item.serial !in old(flat).removed)
      ensures flat.ran == old(flat).ran + if runs then [item.serial] else []
    {
      hide Timed, Linked, Mirrors, Books;
      QueuedAreKnown();
      runs := item.callable;
      SerialAt(callList, 0);
      SerialsRest(callList);
      RunnableOne(item.serial, flat.removed);
      callList := callList[1..];
      flat := Apply(flat, CallNext);
      BooksUpdated();
    }

    /** update when nothing comes in between: runs the queued callbacks that have not been removed, in
        order, and empties the queue. */
    method Update() returns (called: seq<Schedule>)
      requires Valid() && callList == []
      modifies this`dispatchList, this`callList, this`flat
      ensures Valid() && callList == [] && dispatchList == []
      ensures Serials(called) == Runnable(old(flat).queue, old(flat).removed)
      ensures flat == old(flat).(queue := [], ran := old(flat).ran + Serials(called))
    {
      hide Books, Placed, Mirrored, Indexed, Runnable, Serials;
      QueuedAreKnown();
      var list := SwapOut();
      called := [];
      ghost var queue, removed := Serials(list), flat.removed;
      RunnableEnds(queue, removed);
      SerialsOfNone();
      for i := 0 to |list|
        invariant Valid() && dispatchList == [] && callList == list[i..]
        invariant flat == old(flat).(queue := [], calling := flat.calling, ran := old(flat).ran + Serials(called))
        invariant Serials(called) + Runnable(queue[i..], removed) == Runnable(queue, removed)
      {
        RunnableNext(Serials(called), queue, removed, i);
        SerialAt(list, i);
        var runs := RunNext(list[i]);
        if runs {
          SerialsJoin(called, [list[i]]);
          SerialAt([list[i]], 0);
          called := called + [list[i]];
        }
      }
      QueuedAreKnown();
    }

    lemma QueuedAreKnown()
      requires Books()
      ensures flat.queue == Serials(dispatchList) && flat.calling == Serials(callList)
      ensures forall x :: x in dispatchList ==> x in all && x.callable == (x.serial !in flat.removed)
      ensures forall x :: x in callList ==> x in all && x.callable == (x.serial !in flat.removed)
    {
    }

    twostate lemma BooksUpdated()
      requires old(Books()) && all == old(all) && unchanged(old(all)) && wheels == old(wheels)
      requires scheduleList == old(scheduleList)
      requires forall x :: x in dispatchList || x in callList ==> x in all
      requires flat.queue == Serials(dispatchList) && flat.calling == Serials(callList)
      requires flat.adds == old(flat.adds) && flat.removed == old(flat.removed) && flat.live == old(flat.live)
      ensures Books()
    {
      forall id | id in scheduleList ensures BookedOk(id) {
        assert old(BookedOk(id));
      }
    }

    /** One turn of the loop of timerProc at time `now` (nanoseconds): the ticks that have elapsed
        since lastTime are worked off one by one, and lastTime moves on by whole ticks. With `start`,
        the time of tick 0, fixed: afterwards the tick is the number of whole 10 ms since start, so
        tick t is worked off in the first turn at or after start + 10 ms * (t + 1). */
    method CatchUp(now: int) returns (ghost ops: seq<Op>)
      requires Valid() && flat.phase.Ready? && now >= lastTime
      modifies this, nearFuture, farFuture, all
      ensures Valid() && flat.phase.Ready? && all == old(all)
      ensures CanRun(old(flat), ops) && flat == Run(old(flat), ops)
      ensures lastTime - 10_000_000 * flat.now == old(lastTime) - 10_000_000 * old(flat).now
      ensures 0 <= now - lastTime < 10_000_000
      ensures var start := lastTime - 10_000_000 * flat.now;
              && flat.now == (now - start) / 10_000_000
              && forall t: nat :: t < flat.now <==> now >= TimeOf(start, t)
      ensures |ops| == 3 * (flat.now - old(flat).now)
    {
      hide Books, Timed, Linked, Mirrors, Indexed, Enabled, Apply;
      var delta := (now - lastTime) / TICK_LENGTH;
      lastTime := lastTime + delta * TICK_LENGTH;
      ops := [];
      for i := 0 to delta
        invariant Valid() && flat.phase.Ready? && all == old(all) && flat.now == old(flat).now + i
        invariant CanRun(old(flat), ops) && flat == Run(old(flat), ops)
        invariant lastTime == old(lastTime) + delta * TICK_LENGTH && |ops| == 3 * i
      {
        var order := Round(old(flat), ops);
        ops := ops + [Op.Dispatch(order), Op.Tick, Op.Expand];
      }
    }

    /** dispatch(); ++tick; expand(); */
    method Round(ghost f: Flat, ghost ops: seq<Op>) returns (ghost order: seq<nat>)
      requires Valid() && flat.phase.Ready?
      requires CanRun(f, ops) && flat == Run(f, ops)
      modifies this, nearFuture, farFuture, all
      ensures Valid() && flat.phase.Ready? && all == old(all) && lastTime == old(lastTime)
      ensures flat.now == old(flat).now + 1
      ensures var more := ops + [Op.Dispatch(order), Op.Tick, Op.Expand];
              CanRun(f, more) && flat == Run(f, more)
    {
      hide Books, Timed, Linked, Mirrors, Indexed, Placed;
      order := Dispatch();
      RunMore(f, ops, Op.Dispatch(order));
      Advance();
      RunMore(f, ops + [Op.Dispatch(order)], Op.Tick);
      Expand();
      RunMore(f, ops + [Op.Dispatch(order)] + [Op.Tick], Op.Expand);
      assert ops + [Op.Dispatch(order)] + [Op.Tick] + [Op.Expand] == ops + [Op.Dispatch(order), Op.Tick, Op.Expand];
    }
  }

  const TICK_LENGTH := 1_000_000 * MIN_INTERVAL // one tick in nanoseconds

  /** The time from which on tick t is worked off, when tick 0 began at `start`, in nanoseconds. */
  function TimeOf(start: int, t: nat): (time: int) {
    start + 10_000_000 * (t + 1)
  }

  /** The n-th firing of an interval of ms milliseconds is n times ms, less at most 9 ms for each
      interval, after the tick at which it was added; exactly n times ms for whole tens. */
  lemma FiringTime(start: int, t0: nat, ms: nat, n: nat)
    ensures var late := TimeOf(start, NthMultiple(t0, ms, n)) - TimeOf(start, t0);
            && 1_000_000 * n * (ms - ms % 10) == late
            && (ms % 10 == 0 ==> late == 1_000_000 * n * ms)
  {
    var d := ms / 10;
    assert ms - ms % 10 == 10 * d;
    assert n * (10 * d) == 10 * (n * d);
  }

  // ----- every interleaving of clients and worker

  /** A client call, the next step of update on the thread that calls it (which swaps the queue out, or
      looks at the next callback), or the next step of the worker. */
  datatype Call =
    | CallAdd(interval: int, times: int, callable: bool)
    | CallRemove(id: nat)
    | UpdateStep
    | WorkerStep

  /** The flat timer's operation for a call; the worker's step depends on where it stands. */
  predicate Follows(call: Call, op: Op) {
    match call
    case CallAdd(interval, times, callable) => op == Add(interval, times, callable)
    case CallRemove(id) => op == Op.Remove(id)
    case UpdateStep => op.Swap? || op.CallNext?
    case WorkerStep => op.Dispatch? || op.Tick? || op.Expand?
  }

  ghost predicate FollowAll(calls: seq<Call>, ops: seq<Op>) {
    |calls| == |ops| && forall i :: 0 <= i < |calls| ==> Follows(calls[i], ops[i])
  }

  /** Which additions are accepted; the interval is in milliseconds. */
  predicate AcceptedCall(call: Call) {
    call.CallAdd? && call.callable && call.times != 0 && (call.times == 1 || call.interval >= 10)
  }

  /** The number of schedules accepted, and so the id of the last one. */
  function Accepts(calls: seq<Call>): (r: nat)
    decreases |calls|
  {
    if calls == [] then 0
    else Accepts(calls[..|calls| - 1]) + if AcceptedCall(calls[|calls| - 1]) then 1 else 0
  }

  function WorkerSteps(calls: seq<Call>): (r: nat)
    decreases |calls|
  {
    if calls == [] then 0
    else WorkerSteps(calls[..|calls| - 1]) + if calls[|calls| - 1].WorkerStep? then 1 else 0
  }

  /** The tick after these calls: the second of every three worker steps is `++tick`. */
  function TickAfter(calls: seq<Call>): (r: nat) {
    (WorkerSteps(calls) + 1) / 3
  }

  /** The number of dispatches done: the first of every three worker steps. */
  function DispatchesAfter(calls: seq<Call>): (r: nat) {
    (WorkerSteps(calls) + 2) / 3
  }

  function PhaseAfter(calls: seq<Call>): (r: Phase) {
    var k := WorkerSteps(calls) % 3;
    if k == 0 then Ready else if k == 1 then Dispatched else Ticked
  }

  /** The n-th multiple of an interval of `ms` milliseconds after tick t0, in ticks of 10 ms. */
  function NthMultiple(t0: nat, ms: nat, n: nat): (t: nat) {
    t0 + n * (ms / 10)
  }

  /** An addition after `before` asks to be fired at tick t. Intervals of 10 ms or more give their
      multiples, as many as the count says (-1: all; any other negative count: one), unless they are
      2^32 ticks or longer. A shorter one-shot is due at the next dispatch that its near slot gets. */
  ghost predicate AsksFor(before: seq<Call>, call: Call, t: nat)
    requires call.CallAdd?
  {
    var t0, ms, passed := TickAfter(before), call.interval, WorkerSteps(before) % 3 == 1;
    if ms >= 10 * 0x1_0000_0000 then false
    else if ms >= 10 then
      exists n: nat :: 1 <= n && (call.times == -1 || n == 1 || n <= call.times) && NthMultiple(t0, ms, n) == t
    else if ms >= 0 then t == (if passed then t0 + 256 else t0)
    else
      var next := if passed then t0 + 1 else t0;
      t == next + (t0 - (-ms) / 10 - next) % 256
  }

  /** What the i-th call's schedule must do, in terms of the calls alone: the call asks for tick t, and
      no later call has removed its id before tick t was dispatched. */
  ghost predicate FiresOnTick(calls: seq<Call>, i: nat, t: nat)
    requires i < |calls| && calls[i].CallAdd?
  {
    && AsksFor(calls[..i], calls[i], t)
    && !(exists k :: i < k < |calls| && calls[k] == CallRemove(Accepts(calls[..i]) + 1)
                     && DispatchesAfter(calls[..k]) <= t)
  }

  ghost predicate Tallied(calls: seq<Call>, f: Flat) {
    && f.adds == Accepts(calls) && f.now == TickAfter(calls) && f.phase == PhaseAfter(calls)
    && |f.history| == DispatchesAfter(calls)
  }

  /** Counting through a run that follows the calls. */
  lemma {:induction false} Tally(calls: seq<Call>, ops: seq<Op>, i: nat)
    requires CanRun(START, ops) && FollowAll(calls, ops) && i <= |ops|
    ensures Tallied(calls[..i], Before(ops, i))
    decreases i
  {
    if i == 0 {
      assert Before(ops, 0) == START && calls[..0] == [];
    } else {
      Tally(calls, ops, i - 1);
      BeforeNext(ops, i - 1);
      assert calls[..i][..i - 1] == calls[..i - 1];
      hide Run, CanRun, DueNow, AfterDispatch, DueOf, IdInUse, Enumerates, Runnable, Ticks;
      StepTallied(calls[..i], Before(ops, i - 1), ops[i - 1]);
    }
  }

  lemma StepTallied(calls: seq<Call>, f: Flat, op: Op)
    requires calls != [] && Tallied(calls[..|calls| - 1], f) && Follows(calls[|calls| - 1], op) && Enabled(f, op)
    ensures Tallied(calls, Apply(f, op))
  {
    hide DueNow, AfterDispatch, DueOf, Enumerates, Runnable, Ticks;
    var before := WorkerSteps(calls[..|calls| - 1]);
    assert before == 3 * (before / 3) + before % 3;
  }

  /** The deadlines of an accepted addition in the flat timer are what the call asks for. */
  lemma BirthAsks(before: seq<Call>, call: Call, f: Flat, t: nat)
    requires AcceptedCall(call) && Tallied(before, f)
    ensures FiresAt(BirthOf(f, Add(call.interval, call.times, call.callable)), t) <==> AsksFor(before, call, t)
  {
    hide Occurrence, Accepts, WorkerSteps, NthDeadline, NthMultiple, Ticks;
    var op := Add(call.interval, call.times, call.callable);
    TicksOfMs(call.interval);
    if 10 <= call.interval < 10 * 0x1_0000_0000 {
      RegularFirings(f, op, t);
      MultiplesAsked(op, f.now, t);
    } else if call.interval < 10 {
      OneFiring(BirthOf(f, op), t);
    }
  }

  lemma OneFiring(b: Birth, t: int)
    requires b.times == 1 && b.first.At?
    ensures FiresAt(b, t) <==> t == b.first.tick
  {
    assert Occurrence(b, 0) == b.first.tick && WithinCount(b.times, 0);
  }

  lemma MultiplesAsked(op: Op, now: nat, t: nat)
    requires op.Add? && op.interval >= 0
    ensures AskedFor(op, now, t) <==>
            exists n: nat :: 1 <= n && (op.times == -1 || n == 1 || n <= op.times)
                             && NthMultiple(now, op.interval, n) == t
  {
    hide Ticks;
    TicksOfMs(op.interval);
    if AskedFor(op, now, t) {
      var j: nat :| WithinCount(op.times, j) && NthDeadline(now, Ticks(op.interval), j) == t;
      assert NthMultiple(now, op.interval, j + 1) == t;
    }
    if n: nat :| 1 <= n && (op.times == -1 || n == 1 || n <= op.times) && NthMultiple(now, op.interval, n) == t {
      assert NthDeadline(now, Ticks(op.interval), n - 1) == t;
    }
  }

  /** The exact firing ticks of every accepted addition among the calls. */
  lemma CallFires(calls: seq<Call>, ops: seq<Op>, i: nat, t: nat)
    requires Accepts(calls) < U32 - 1 && CanRun(START, ops) && FollowAll(calls, ops)
    requires i < |calls| && AcceptedCall(calls[i]) && t < |Run(START, ops).history|
    ensures Accepts(calls[..i]) + 1 in Run(START, ops).history[t] <==> FiresOnTick(calls, i, t)
  {
    hide Run, CanRun, Ticks, Accepts, TickAfter, DispatchesAfter, PhaseAfter, FiresAt, BirthOf, AsksFor;
    assert Follows(calls[i], ops[i]);
    FiringsOfAny(ops, i, t);
    Tally(calls, ops, i);
    BirthAsks(calls[..i], calls[i], Before(ops, i), t);
    var s := Accepts(calls[..i]) + 1;
    AcceptsGrow(calls, i);
    forall k | i < k < |ops|
      ensures ops[k] == Op.Remove(s % U32) <==> calls[k] == CallRemove(s)
      ensures |Before(ops, k).history| == DispatchesAfter(calls[..k])
    {
      assert Follows(calls[k], ops[k]);
      Tally(calls, ops, k);
    }
  }

  lemma {:induction false} AcceptsGrow(calls: seq<Call>, i: nat)
    requires i <= |calls|
    ensures Accepts(calls[..i]) <= Accepts(calls)
    ensures i < |calls| && AcceptedCall(calls[i]) ==> Accepts(calls[..i]) < Accepts(calls)
    decreases |calls| - i
  {
    hide AcceptedCall;
    if i < |calls| {
      AcceptsGrow(calls, i + 1);
      assert calls[..i + 1][..i] == calls[..i];
    } else {
      assert calls[..i] == calls;
    }
  }

  /** What the calls returned: the id of each accepted addition, which is its serial, and else 0. */
  ghost predicate IdsOf(calls: seq<Call>, ids: seq<nat>) {
    && |ids| == |calls|
    && forall i :: 0 <= i < |calls| ==> ids[i] == if AcceptedCall(calls[i]) then Accepts(calls[..i]) + 1 else 0
  }

  /** Makes any interleaving of client calls and worker steps on a new timer. The timer goes through
      the run of the flat timer that follows the calls. Every accepted addition fires at exactly the
      ticks it asks for, until a later call removes it; and of the schedules not removed each dispatch
      has been run once, or is pending. `ran` are the schedules whose callbacks have been run, in
      order. */
  method Interleave(calls: seq<Call>, now: int)
    returns (timer: Timer, ids: seq<nat>, ran: seq<Schedule>, ghost ops: seq<Op>)
    requires Accepts(calls) < U32 - 1
    requires forall i :: 0 <= i < |calls| && calls[i].CallAdd? ==> -0x8000_0000 < calls[i].times < 0x8000_0000
    ensures FollowAll(calls, ops) && CanRun(START, ops)
    ensures timer.Valid() && timer.flat == Run(START, ops) && Tallied(calls, timer.flat)
    ensures IdsOf(calls, ids) && Serials(ran) == timer.flat.ran
    ensures forall i: nat, t: nat :: i < |calls| && AcceptedCall(calls[i]) && t < DispatchesAfter(calls) ==>
              (Accepts(calls[..i]) + 1 in timer.flat.history[t] <==> FiresOnTick(calls, i, t))
    ensures forall s, t: nat :: s in timer.flat.born && t < |timer.flat.history| ==>
              var f := timer.flat;
              s in f.history[t] <==> FiresAt(f.born[s], t) && (s in f.removed ==> t < f.removed[s])
    ensures Delivered(timer.flat)
  {
    hide Run, CanRun, Timer.Valid, Serials, Inv, Delivered, FollowAll, Tallied, FiresOnTick, FiresAt, IdsOf, Accepts;
    timer, ids, ran, ops := Perform(calls, now);
    BeforeEnd(calls, ops);
    StartOk();
    RunKeepsInv(START, ops);
    NoFiringLost(START, ops);
    forall i: nat, t: nat | i < |calls| && AcceptedCall(calls[i]) && t < DispatchesAfter(calls)
      ensures Accepts(calls[..i]) + 1 in timer.flat.history[t] <==> FiresOnTick(calls, i, t)
    {
      TalliedHistory(calls, timer.flat);
      CallFires(calls, ops, i, t);
    }
    forall s, t: nat | s in timer.flat.born && t < |timer.flat.history|
      ensures var f := timer.flat;
              s in f.history[t] <==> FiresAt(f.born[s], t) && (s in f.removed ==> t < f.removed[s])
    {
      PeriodicExactness(ops, s, t);
    }
  }

  lemma BeforeEnd(calls: seq<Call>, ops: seq<Op>)
    requires CanRun(START, ops) && FollowAll(calls, ops)
    ensures Tallied(calls, Run(START, ops))
  {
    Tally(calls, ops, |ops|);
    assert ops[..|ops|] == ops && calls[..|ops|] == calls;
  }

  lemma TalliedHistory(calls: seq<Call>, f: Flat)
    requires Tallied(calls, f)
    ensures |f.history| == DispatchesAfter(calls)
  {
  }

  /** The calls themselves. */
  method Perform(calls: seq<Call>, now: int)
    returns (timer: Timer, ids: seq<nat>, ran: seq<Schedule>, ghost ops: seq<Op>)
    requires Accepts(calls) < U32 - 1
    requires forall i :: 0 <= i < |calls| && calls[i].CallAdd? ==> -0x8000_0000 < calls[i].times < 0x8000_0000
    ensures FollowAll(calls, ops) && CanRun(START, ops) && timer.Valid() && timer.flat == Run(START, ops)
    ensures IdsOf(calls, ids) && Serials(ran) == timer.flat.ran
  {
    hide Timer.Books, Timed, Linked, Timer.Mirrors, Timer.Indexed, Timer.Placed, Timer.Valid,
      Apply, Accepted, Serials, Accepts, FollowAll, IdsOf;
    timer := new Timer(now);
    ids, ran, ops := [], [], [];
    var phase, callList := Ready, [];
    NothingDone(calls);
    for i := 0 to |calls|
      invariant fresh(timer) && fresh(timer.nearFuture) && fresh(timer.farFuture) && fresh(timer.all)
      invariant timer.Valid() && CanRun(START, ops) && timer.flat == Run(START, ops)
      invariant timer.flat.adds == Accepts(calls[..i]) <= Accepts(calls) && phase == timer.flat.phase
      invariant FollowAll(calls[..i], ops) && IdsOf(calls[..i], ids)
      invariant Serials(ran) == timer.flat.ran && callList == timer.callList
    {
      ghost var op;
      var id: nat := 0;
      AcceptsGrow(calls, i);
      AcceptsGrow(calls, i + 1);
      ghost var f := timer.flat;
      match calls[i] {
        case CallAdd(interval, times, callable) =>
          op := Add(interval, times, callable);
          FreshId(ops, op);
          id := timer.AddTimeCall(interval, callable, times);
        case CallRemove(removed) =>
          op := Op.Remove(removed);
          timer.Remove(removed);
        case UpdateStep =>
          if callList == [] {
            op := Swap;
            callList := timer.SwapOut();
          } else {
            op := CallNext;
            var runs := timer.RunNext(callList[0]);
            SerialsJoin(ran, [callList[0]]);
            SerialAt([callList[0]], 0);
            if runs { ran := ran + [callList[0]]; }
            callList := callList[1..];
          }
        case WorkerStep =>
          phase, op := NextStep(timer, phase);
      }
      RunMore(START, ops, op);
      StepEffect(f, op);
      OneMoreCall(calls, i, ops, op, ids, id);
      ops := ops + [op];
      ids := ids + [id];
    }
    assert calls[..|calls|] == calls;
  }

  /** The next step of the worker. */
  method NextStep(timer: Timer, phase: Phase) returns (next: Phase, ghost op: Op)
    requires timer.Valid() && phase == timer.flat.phase
    modifies timer, timer.nearFuture, timer.farFuture, timer.all
    ensures Follows(WorkerStep, op) && Enabled(old(timer.flat), op)
    ensures timer.Valid() && timer.flat == Apply(old(timer.flat), op)
    ensures timer.all == old(timer.all) && timer.callList == old(timer.callList)
    ensures next == timer.flat.phase
  {
    hide Timer.Books, Timed, Linked, Timer.Mirrors, Timer.Indexed, Timer.Placed;
    if phase.Ready? {
      ghost var order := timer.Dispatch();
      return Dispatched, Op.Dispatch(order);
    } else if phase.Dispatched? {
      timer.Advance();
      return Ticked, Op.Tick;
    } else {
      timer.Expand();
      return Ready, Op.Expand;
    }
  }

  lemma NothingDone(calls: seq<Call>)
    ensures FollowAll(calls[..0], []) && IdsOf(calls[..0], []) && Accepts(calls[..0]) == 0 && Serials([]) == []
  {
  }

  lemma OneMoreCall(calls: seq<Call>, i: nat, ops: seq<Op>, op: Op, ids: seq<nat>, id: nat)
    requires i < |calls| && FollowAll(calls[..i], ops) && IdsOf(calls[..i], ids) && Follows(calls[i], op)
    requires id == if AcceptedCall(calls[i]) then Accepts(calls[..i]) + 1 else 0
    ensures FollowAll(calls[..i + 1], ops + [op]) && IdsOf(calls[..i + 1], ids + [id])
    ensures Accepts(calls[..i + 1]) == Accepts(calls[..i]) + if Accepted(op) then 1 else 0
  {
    assert calls[..i + 1][..i] == calls[..i];
    forall k | 0 <= k <= i ensures calls[..i + 1][..k] == calls[..k] && (k < i ==> calls[..i][..k] == calls[..k]) {}
  }

  lemma StepEffect(f: Flat, op: Op)
    requires Enabled(f, op)
    ensures Apply(f, op).adds == f.adds + if Accepted(op) then 1 else 0
    ensures !op.CallNext? ==> Apply(f, op).ran == f.ran
    ensures Apply(f, op).phase == (if op.Dispatch? then Dispatched else if op.Tick? then Ticked
                                   else if op.Expand? then Ready else f.phase)
  {
  }

  lemma LiveId(f: Flat, s: nat)
    requires Inv(f) && s in f.live
    ensures f.live[s].id == s % U32 && s <= f.adds
  {
    hide FiredExactly, Finished, Occurrence, WithinCount, NextDispatch;
    assert SerialOk(f, s);
  }

  /** Fewer than 2^32 additions never reuse an id. */
  lemma FreshId(ops: seq<Op>, op: Op)
    requires CanRun(START, ops) && op.Add? && Run(START, ops).adds < U32 - 1
    requires -0x8000_0000 < op.times < 0x8000_0000
    ensures Enabled(Run(START, ops), op)
  {
    hide Run, CanRun, Inv, Accepted;
    var f := Run(START, ops);
    StartOk();
    RunKeepsInv(START, ops);
    forall s | s in f.live ensures f.live[s].id != NewId(f) {
      LiveId(f, s);
    }
  }
}
