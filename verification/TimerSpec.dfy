/** The flat timer: what the hierarchical wheels of `Timer` must agree with.
    Every live schedule is held in one map with its absolute deadline; there are no wheels
    and no 32-bit fields. Ticks are unbounded natural numbers. */
module TimerSpec {
  import opened Basics

  const MIN_INTERVAL := 10 // milliseconds in one tick

  /** Where the worker stands inside one round "dispatch; ++tick; expand". */
  datatype Phase = Ready | Dispatched | Ticked

  datatype Deadline = At(tick: int) | Never

  /** What a schedule was created with: its first deadline, its period in ticks, its repeat count. */
  datatype Birth = Birth(first: Deadline, period: int, times: int)

  datatype Entry = Entry(id: nat, due: Deadline, period: int, remain: int, fired: nat)

  /** `adds` numbers the accepted schedules: a schedule is identified by its serial, its public id
      is the serial truncated to 32 bits. `history[t]` holds the serials dispatched at tick t,
      `removed[s]` the number of dispatches done when s was removed, `queue` what the next update
      will see, `calling` what the running update has still to look at, `ran` the callbacks that
      have been run. */
  datatype Flat = Flat(now: nat, phase: Phase, adds: nat,
                       live: map<nat, Entry>, born: map<nat, Birth>, removed: map<nat, nat>,
                       history: seq<set<nat>>, queue: seq<nat>, calling: seq<nat>, ran: seq<nat>)

  const START := Flat(0, Ready, 0, map[], map[], map[], [], [], [], [])

  /** An operation. update swaps the queue out under its lock and then looks at one dispatch after the
      other without it, so that other operations may come in between. `order` is the order in which one
      dispatch queues the due schedules, which the source leaves to the order of its lists. */
  datatype Op =
    | Add(interval: int, times: int, callable: bool)
    | Remove(id: nat)
    | Swap
    | CallNext
    | Dispatch(order: seq<nat>)
    | Tick
    | Expand

  /** Integer division of the source: truncation toward zero. */
  function TruncDiv(a: int, b: int): (r: int)
    requires b > 0
  {
    if a >= 0 then a / b else -((-a) / b)
  }

  function Ticks(interval: int): (r: int) {
    TruncDiv(interval, MIN_INTERVAL)
  }

  /** The first tick whose dispatch is still to come. */
  function NextDispatch(now: nat, phase: Phase): (r: nat) {
    if phase.Dispatched? then now + 1 else now
  }

  /** The deadline a schedule really gets. An interval of 2^32 ticks or more fits no wheel; an
      interval of no ticks lands in a near slot that may just have been passed. */
  function DueOf(now: nat, phase: Phase, ticks: int): (r: Deadline) {
    if ticks >= U32 then Never
    else if ticks >= 1 then At(now + ticks)
    else
      var next := NextDispatch(now, phase);
      At(next + (now + ticks - next) % 256)
  }

  /** A schedule is due exactly `ticks` after it was added if and only if the interval is 1 to
      2^32-1 ticks, or is zero ticks and the current tick has not been dispatched yet. */
  lemma DueIsExact(now: nat, phase: Phase, ticks: int)
    ensures DueOf(now, phase, ticks) == At(now + ticks) <==>
            (1 <= ticks < U32 || (ticks == 0 && !phase.Dispatched?))
    ensures ticks == 0 && phase.Dispatched? ==> DueOf(now, phase, ticks) == At(now + 256)
  {
    if ticks < 0 {
      var next := NextDispatch(now, phase);
      assert (now + ticks - next) % 256 >= 0;
    }
  }

  /** An interval in milliseconds counts for as many ticks as it has whole tens, toward zero. */
  lemma TicksOfMs(ms: int)
    ensures ms >= 0 ==> Ticks(ms) == ms / 10 && 10 * Ticks(ms) <= ms < 10 * (Ticks(ms) + 1)
    ensures ms < 0 ==> Ticks(ms) == -((-ms) / 10) && 10 * (Ticks(ms) - 1) < ms <= 10 * Ticks(ms)
  {
  }

  predicate Accepted(op: Op) {
    op.Add? && op.callable && op.times != 0 && (op.times == 1 || op.interval >= MIN_INTERVAL)
  }

  function NewId(f: Flat): (r: nat) {
    (f.adds + 1) % U32
  }

  predicate IdInUse(f: Flat, id: nat) {
    exists s :: s in f.live && f.live[s].id == id
  }

  function DueNow(f: Flat): (r: set<nat>) {
    set s | s in f.live && f.live[s].due == At(f.now)
  }

  ghost predicate Enumerates(order: seq<nat>, s: set<nat>) {
    && (forall i, j :: 0 <= i < j < |order| ==> order[i] != order[j])
    && (forall k :: k in order <==> k in s)
  }

  ghost predicate Enabled(f: Flat, op: Op) {
    match op
    case Add(_, times, _) => -0x8000_0000 < times < 0x8000_0000 && (Accepted(op) ==> !IdInUse(f, NewId(f)))
    case Dispatch(order) => f.phase.Ready? && Enumerates(order, DueNow(f))
    case Swap => f.calling == []
    case CallNext => f.calling != []
    case Tick => f.phase.Dispatched?
    case Expand => f.phase.Ticked?
    case _ => true
  }

  /** A schedule is live again after firing, or used up. */
  predicate Repeats(e: Entry) {
    e.remain == -1 || e.remain - 1 > 0
  }

  function Refire(e: Entry, now: nat): (r: Entry) {
    e.(due := At(now + e.period), remain := if e.remain == -1 then -1 else e.remain - 1, fired := e.fired + 1)
  }

  function AfterDispatch(live: map<nat, Entry>, due: set<nat>, now: nat): (r: map<nat, Entry>) {
    map s | s in live && (s in due ==> Repeats(live[s])) ::
      if s in due then Refire(live[s], now) else live[s]
  }

  /** The queued serials whose schedule has not been removed. */
  function Runnable(queue: seq<nat>, removed: map<nat, nat>): (r: seq<nat>) {
    if queue == [] then []
    else (if queue[0] in removed then [] else [queue[0]]) + Runnable(queue[1..], removed)
  }

  function ApplyAdd(f: Flat, op: Op): (r: Flat)
    requires op.Add?
  {
    if !Accepted(op) then f
    else
      var s := f.adds + 1;
      var due := DueOf(f.now, f.phase, Ticks(op.interval));
      f.(adds := s,
         live := f.live[s := Entry(NewId(f), due, Ticks(op.interval), op.times, 0)],
         born := f.born[s := Birth(due, Ticks(op.interval), op.times)])
  }

  ghost function ApplyRemove(f: Flat, id: nat): (r: Flat) {
    if !IdInUse(f, id) then f
    else
      var s :| s in f.live && f.live[s].id == id;
      f.(live := f.live - {s}, removed := f.removed[s := |f.history|])
  }

  ghost function Apply(f: Flat, op: Op): (r: Flat)
    requires Enabled(f, op)
  {
    match op
    case Add(_, _, _) => ApplyAdd(f, op)
    case Remove(id) => ApplyRemove(f, id)
    case Swap => f.(queue := [], calling := f.queue)
    case CallNext => f.(calling := f.calling[1..], ran := f.ran + Runnable([f.calling[0]], f.removed))
    case Dispatch(order) =>
      f.(phase := Dispatched,
         live := AfterDispatch(f.live, DueNow(f), f.now),
         history := f.history + [DueNow(f)],
         queue := order + f.queue)
    case Tick => f.(phase := Ticked, now := f.now + 1)
    case Expand => f.(phase := Ready)
  }

  // ----- what every run keeps

  /** The j-th deadline of a schedule that is never removed, for j below its repeat count. */
  function Occurrence(b: Birth, j: nat): (r: int)
    requires b.first.At?
  {
    b.first.tick + j * b.period
  }

  /** times == -1 repeats for ever; any other negative count fires once. */
  predicate WithinCount(times: int, j: nat) {
    times == -1 || j == 0 || j < times
  }

  /** Tick t is one of the deadlines the schedule was created with. */
  ghost predicate FiresAt(b: Birth, t: int) {
    b.first.At? && exists j: nat :: WithinCount(b.times, j) && Occurrence(b, j) == t
  }

  ghost predicate WellBorn(b: Birth) {
    && b.times != 0
    && (b.times == 1 || b.period >= 1)
  }

  ghost predicate EntryOk(f: Flat, s: nat)
    requires s in f.live && s in f.born
  {
    var e, b := f.live[s], f.born[s];
    && e.id == s % U32
    && e.period == b.period
    && WithinCount(b.times, e.fired)
    && e.remain == (if b.times == -1 then -1 else b.times - e.fired)
    && (b.first.Never? ==> e.due.Never? && e.fired == 0)
    && (b.first.At? ==>
          && e.due == At(Occurrence(b, e.fired))
          && e.due.tick >= |f.history|
          && (e.fired > 0 ==> Occurrence(b, e.fired - 1) < |f.history|))
  }

  /** Every deadline of a schedule that is neither live nor removed has passed. */
  ghost predicate Finished(b: Birth, t: nat) {
    b.first.At? && forall j: nat :: WithinCount(b.times, j) ==> Occurrence(b, j) < t
  }

  /** Serial s was dispatched at exactly its deadlines up to now, cut off by its removal. */
  ghost predicate FiredExactly(f: Flat, s: nat)
    requires s in f.born
  {
    forall t :: 0 <= t < |f.history| ==>
      (s in f.history[t] <==> FiresAt(f.born[s], t) && (s in f.removed ==> t < f.removed[s]))
  }

  ghost predicate SerialOk(f: Flat, s: nat)
    requires s in f.born
  {
    && WellBorn(f.born[s])
    && FiredExactly(f, s)
    && (s in f.live ==> EntryOk(f, s) && s !in f.removed)
    && (s in f.removed ==> f.removed[s] <= |f.history|)
    && (s !in f.live && s !in f.removed ==> Finished(f.born[s], |f.history|))
  }

  ghost predicate Inv(f: Flat) {
    && |f.history| == NextDispatch(f.now, f.phase)
    && (forall s :: s in f.born <==> 1 <= s <= f.adds)
    && (forall s :: s in f.live ==> s in f.born)
    && (forall s :: s in f.removed ==> s in f.born)
    && (forall t, s :: 0 <= t < |f.history| && s in f.history[t] ==> s in f.born)
    && (forall s :: s in f.born ==> SerialOk(f, s))
    && (forall s, r :: s in f.live && r in f.live && f.live[s].id == f.live[r].id ==> s == r)
  }

  lemma OccurrenceStep(b: Birth, j: nat)
    requires b.first.At?
    ensures Occurrence(b, j + 1) == Occurrence(b, j) + b.period
  {
    assert (j + 1) * b.period == j * b.period + b.period;
  }

  lemma {:induction false} OccurrenceMono(b: Birth, i: nat, j: nat)
    requires b.first.At? && b.period >= 1 && i < j
    ensures Occurrence(b, i) + b.period <= Occurrence(b, j)
    decreases j
  {
    OccurrenceStep(b, j - 1);
    if i < j - 1 {
      OccurrenceMono(b, i, j - 1);
    }
  }

  /** A live schedule's deadline is the only one of its ticks at or before it that is still to come. */
  lemma DueIsNext(f: Flat, s: nat, t: int)
    requires s in f.born && s in f.live && WellBorn(f.born[s]) && EntryOk(f, s)
    requires |f.history| <= t
    requires FiresAt(f.born[s], t)
    ensures f.live[s].due.At? && f.live[s].due.tick <= t
  {
    var b, e := f.born[s], f.live[s];
    var j: nat :| WithinCount(b.times, j) && Occurrence(b, j) == t;
    if j < e.fired {
      if j < e.fired - 1 { OccurrenceMono(b, j, e.fired - 1); }
    } else if e.fired < j {
      OccurrenceMono(b, e.fired, j);
    }
  }

  lemma SerialAfterAdd(f: Flat, op: Op)
    requires Inv(f) && op.Add? && Accepted(op)
    ensures SerialOk(ApplyAdd(f, op), f.adds + 1)
  {
    var s := f.adds + 1;
    var g := ApplyAdd(f, op);
    var b, e := g.born[s], g.live[s];
    assert s !in f.born;
    assert Ticks(op.interval) >= 1 || op.times == 1;
    if b.first.At? {
      var next := NextDispatch(f.now, f.phase);
      assert b.first.tick >= next by {
        if Ticks(op.interval) < 1 { assert (f.now + Ticks(op.interval) - next) % 256 >= 0; }
      }
      forall t | 0 <= t < |g.history| ensures !FiresAt(b, t) {
        forall j: nat | WithinCount(b.times, j) ensures Occurrence(b, j) != t {
          if j > 0 { OccurrenceMono(b, 0, j); }
        }
      }
    }
  }

  lemma FiredAfterDispatch(f: Flat, order: seq<nat>, s: nat)
    requires Inv(f) && Enabled(f, Dispatch(order)) && s in f.born
    ensures FiredExactly(Apply(f, Dispatch(order)), s)
  {
    var g := Apply(f, Dispatch(order));
    var b, t := f.born[s], |f.history|;
    assert SerialOk(f, s);
    forall u | 0 <= u < |g.history|
      ensures s in g.history[u] <==> FiresAt(b, u) && (s in g.removed ==> u < g.removed[s])
    {
      if u < t {
        assert g.history[u] == f.history[u];
      } else {
        assert g.history[u] == DueNow(f);
        if s in f.live {
          if FiresAt(b, t) { DueIsNext(f, s, t); }
        }
      }
    }
  }

  lemma SerialAfterDispatch(f: Flat, order: seq<nat>, s: nat)
    requires Inv(f) && Enabled(f, Dispatch(order)) && s in f.born
    ensures SerialOk(Apply(f, Dispatch(order)), s)
  {
    hide FiredExactly, Occurrence;
    FiredAfterDispatch(f, order, s);
    var g := Apply(f, Dispatch(order));
    var b, t := f.born[s], |f.history|;
    assert SerialOk(f, s);
    if s in f.live {
      var e := f.live[s];
      if s in DueNow(f) && Repeats(e) {
        OccurrenceMono(b, e.fired, e.fired + 1);
        OccurrenceStep(b, e.fired);
        assert EntryOk(g, s);
      } else if s in DueNow(f) {
        forall j: nat | WithinCount(b.times, j) ensures Occurrence(b, j) < t + 1 {
          if j < e.fired { OccurrenceMono(b, j, e.fired); }
        }
      } else {
        assert EntryOk(g, s);
      }
    }
  }

  lemma InvAfterAdd(f: Flat, op: Op)
    requires Inv(f) && op.Add? && Enabled(f, op)
    ensures Inv(Apply(f, op))
  {
    hide DueOf, Ticks, FiresAt, Occurrence, WithinCount;
    if Accepted(op) {
      var g := Apply(f, op);
      SerialAfterAdd(f, op);
      forall s | s in g.born ensures SerialOk(g, s) {
        if s != f.adds + 1 {
          assert SerialOk(f, s);
          assert s in f.live <==> s in g.live;
        }
      }
    }
  }

  lemma InvAfterRemove(f: Flat, id: nat)
    requires Inv(f)
    ensures Inv(Apply(f, Remove(id)))
  {
    if IdInUse(f, id) {
      var g := Apply(f, Remove(id));
      forall s | s in g.born ensures SerialOk(g, s) {
        assert SerialOk(f, s);
      }
    }
  }

  lemma InvAfterDispatch(f: Flat, order: seq<nat>)
    requires Inv(f) && Enabled(f, Dispatch(order))
    ensures Inv(Apply(f, Dispatch(order)))
  {
    var g := Apply(f, Dispatch(order));
    forall s | s in g.born ensures SerialOk(g, s) {
      SerialAfterDispatch(f, order, s);
    }
  }

  lemma InvAfterTick(f: Flat, op: Op)
    requires Inv(f) && Enabled(f, op) && (op.Swap? || op.CallNext? || op.Tick? || op.Expand?)
    ensures Inv(Apply(f, op))
  {
    var g := Apply(f, op);
    forall s | s in g.born ensures SerialOk(g, s) {
      assert SerialOk(f, s);
    }
  }

  lemma InvKept(f: Flat, op: Op)
    requires Inv(f) && Enabled(f, op)
    ensures Inv(Apply(f, op))
  {
    match op
    case Add(_, _, _) => InvAfterAdd(f, op);
    case Remove(id) => InvAfterRemove(f, id);
    case Dispatch(order) => InvAfterDispatch(f, order);
    case _ => InvAfterTick(f, op);
  }

  // ----- whole runs

  ghost predicate CanRun(f: Flat, ops: seq<Op>)
    decreases ops
  {
    ops == [] || (Enabled(f, ops[0]) && CanRun(Apply(f, ops[0]), ops[1..]))
  }

  ghost function Run(f: Flat, ops: seq<Op>): (r: Flat)
    requires CanRun(f, ops)
    decreases ops
  {
    if ops == [] then f else Run(Apply(f, ops[0]), ops[1..])
  }

  lemma {:induction false} RunKeepsInv(f: Flat, ops: seq<Op>)
    requires Inv(f) && CanRun(f, ops)
    ensures Inv(Run(f, ops))
    decreases ops
  {
    if ops != [] {
      InvKept(f, ops[0]);
      RunKeepsInv(Apply(f, ops[0]), ops[1..]);
    }
  }

  /** A run may be cut in two anywhere. */
  lemma {:induction false} RunSplit(f: Flat, ops: seq<Op>, i: nat)
    requires CanRun(f, ops) && i <= |ops|
    ensures CanRun(f, ops[..i]) && CanRun(Run(f, ops[..i]), ops[i..])
    ensures Run(Run(f, ops[..i]), ops[i..]) == Run(f, ops)
    decreases i
  {
    if i == 0 {
      assert ops[0..] == ops;
    } else {
      RunSplit(Apply(f, ops[0]), ops[1..], i - 1);
      assert ops[..i][1..] == ops[1..][..i - 1];
      assert ops[1..][i - 1..] == ops[i..];
    }
  }

  /** The state before the i-th step of a run from the start. */
  ghost function Before(ops: seq<Op>, i: nat): (r: Flat)
    requires CanRun(START, ops) && i <= |ops|
  {
    RunSplit(START, ops, i);
    Run(START, ops[..i])
  }

  lemma BeforeNext(ops: seq<Op>, i: nat)
    requires CanRun(START, ops) && i < |ops|
    ensures Enabled(Before(ops, i), ops[i]) && Before(ops, i + 1) == Apply(Before(ops, i), ops[i])
    ensures CanRun(Before(ops, i + 1), ops[i + 1..]) && Run(Before(ops, i + 1), ops[i + 1..]) == Run(START, ops)
  {
    hide Apply, Enabled, START;
    RunSplit(START, ops, i);
    RunSplit(START, ops, i + 1);
    assert ops[i..][0] == ops[i];
    RunMore(START, ops[..i], ops[i]);
    assert ops[..i] + [ops[i]] == ops[..i + 1];
  }

  lemma {:induction false} RunMore(f: Flat, ops: seq<Op>, op: Op)
    requires CanRun(f, ops) && Enabled(Run(f, ops), op)
    ensures CanRun(f, ops + [op]) && Run(f, ops + [op]) == Apply(Run(f, ops), op)
    decreases ops
  {
    if ops == [] {
      assert Run(Apply(f, op), []) == Apply(f, op);
    } else {
      RunMore(Apply(f, ops[0]), ops[1..], op);
      assert (ops + [op])[1..] == ops[1..] + [op];
    }
  }

  /** In every run from the start, whatever the interleaving, each accepted schedule has been
      dispatched at exactly its own deadlines so far, and at none after its removal. */
  lemma PeriodicExactness(ops: seq<Op>, s: nat, t: nat)
    requires CanRun(START, ops)
    requires var f := Run(START, ops); s in f.born && t < |f.history|
    ensures var f := Run(START, ops);
            s in f.history[t] <==> FiresAt(f.born[s], t) && (s in f.removed ==> t < f.removed[s])
  {
    RunKeepsInv(START, ops);
    assert SerialOk(Run(START, ops), s);
  }

  // ----- what a client gets

  /** The number of ticks at which s was dispatched. */
  function Dispatches(history: seq<set<nat>>, s: nat): (r: nat) {
    if history == [] then 0
    else Dispatches(history[..|history| - 1], s) + (if s in history[|history| - 1] then 1 else 0)
  }

  lemma {:induction false} BirthKept(f: Flat, ops: seq<Op>, s: nat)
    requires Inv(f) && s in f.born && CanRun(f, ops)
    ensures s in Run(f, ops).born && Run(f, ops).born[s] == f.born[s]
    decreases ops
  {
    if ops != [] {
      InvKept(f, ops[0]);
      BirthKept(Apply(f, ops[0]), ops[1..], s);
    }
  }

  /** The dispatches before tick t of a schedule that is not removed are as many as its deadlines
      before t. */
  lemma {:induction false} DispatchesCounted(f: Flat, s: nat, t: nat) returns (k: nat)
    requires Inv(f) && s in f.born && s !in f.removed && t <= |f.history|
    requires f.born[s].first.At? && f.born[s].first.tick >= 0
    ensures Dispatches(f.history[..t], s) == k
    ensures forall j: nat :: j < k ==> WithinCount(f.born[s].times, j) && Occurrence(f.born[s], j) < t
    ensures WithinCount(f.born[s].times, k) ==> Occurrence(f.born[s], k) >= t
    decreases t
  {
    var b := f.born[s];
    if t == 0 {
      return 0;
    }
    k := DispatchesCounted(f, s, t - 1);
    assert f.history[..t][..t - 1] == f.history[..t - 1];
    assert SerialOk(f, s);
    if WithinCount(b.times, k) && Occurrence(b, k) == t - 1 {
      OccurrenceStep(b, k);
      k := k + 1;
    } else {
      forall j: nat | WithinCount(b.times, j) ensures Occurrence(b, j) != t - 1 {
        if k < j { OccurrenceMono(b, k, j); }
      }
    }
  }

  /** The (j+1)-st tick at which a schedule added at tick `now` with period d is due. */
  function NthDeadline(now: nat, d: int, j: nat): (r: int) {
    now + (j + 1) * d
  }

  /** What a schedule that is added in this state is created with. */
  function BirthOf(f: Flat, op: Op): (b: Birth)
    requires op.Add?
  {
    Birth(DueOf(f.now, f.phase, Ticks(op.interval)), Ticks(op.interval), op.times)
  }

  /** A schedule added at any point of a run fires at exactly the deadlines it was created with, until
      it is removed. */
  lemma AddedFires(before: seq<Op>, op: Op, after: seq<Op>, t: nat)
    requires CanRun(START, before) && op.Add? && Accepted(op)
    requires Enabled(Run(START, before), op) && CanRun(Apply(Run(START, before), op), after)
    requires t < |Run(Apply(Run(START, before), op), after).history|
    ensures var f0, f := Run(START, before), Run(Apply(Run(START, before), op), after);
            var s := f0.adds + 1;
            s in f.history[t] <==> (s in f.removed ==> t < f.removed[s]) && FiresAt(BirthOf(f0, op), t)
  {
    hide FiresAt, BirthOf;
    AddedIsBorn(before, op, after);
    var f0 := Run(START, before);
    assert SerialOk(Run(Apply(f0, op), after), f0.adds + 1);
  }

  /** With an interval of 1 to 2^32-1 ticks these are the multiples of the interval, as many as asked
      for. */
  lemma RegularFirings(f: Flat, op: Op, t: nat)
    requires op.Add? && 1 <= Ticks(op.interval) < U32
    ensures FiresAt(BirthOf(f, op), t) <==> AskedFor(op, f.now, t)
  {
    hide Ticks, Occurrence, NthDeadline;
    var b := BirthOf(f, op);
    forall j: nat ensures Occurrence(b, j) == NthDeadline(f.now, Ticks(op.interval), j) {
      BirthDeadline(b, f.now, j);
    }
  }

  lemma AddedFiresExactly(before: seq<Op>, op: Op, after: seq<Op>, t: nat)
    requires CanRun(START, before) && op.Add? && Accepted(op) && 1 <= Ticks(op.interval) < U32
    requires Enabled(Run(START, before), op) && CanRun(Apply(Run(START, before), op), after)
    requires t < |Run(Apply(Run(START, before), op), after).history|
    ensures var f0, f := Run(START, before), Run(Apply(Run(START, before), op), after);
            var s := f0.adds + 1;
            s in f.history[t] <==>
              && (s in f.removed ==> t < f.removed[s])
              && exists j: nat :: WithinCount(op.times, j) && NthDeadline(f0.now, Ticks(op.interval), j) == t
  {
    AddedFires(before, op, after, t);
    RegularFirings(Run(START, before), op, t);
  }

  lemma {:induction false} RemovedStays(f: Flat, ops: seq<Op>, s: nat)
    requires Inv(f) && s in f.removed && CanRun(f, ops)
    ensures s in Run(f, ops).removed && Run(f, ops).removed[s] == f.removed[s]
    decreases ops
  {
    if ops != [] {
      InvKept(f, ops[0]);
      assert SerialOk(f, s);
      RemovedStays(Apply(f, ops[0]), ops[1..], s);
    }
  }

  /** Only a removal of its id removes a schedule, and it cuts its dispatches off at once. */
  lemma {:induction false} RemovedBy(f: Flat, ops: seq<Op>, s: nat) returns (k: nat)
    requires Inv(f) && s in f.born && s !in f.removed && CanRun(f, ops) && s in Run(f, ops).removed
    ensures k < |ops| && ops[k] == Remove(s % U32)
    ensures CanRun(f, ops[..k]) && Run(f, ops).removed[s] == |Run(f, ops[..k]).history|
    decreases ops
  {
    var g := Apply(f, ops[0]);
    InvKept(f, ops[0]);
    assert SerialOk(f, s);
    if s in g.removed {
      k := 0;
      RemovedStays(g, ops[1..], s);
    } else {
      k := RemovedBy(g, ops[1..], s);
      k := k + 1;
      assert ops[..k][1..] == ops[1..][..k - 1];
    }
  }

  lemma NotLiveAfterRemove(f: Flat, s: nat)
    requires Inv(f) && s in f.born
    ensures var g := Apply(f, Remove(s % U32));
            s !in g.live && s in g.born && g.history == f.history
  {
    if s in f.live {
      assert SerialOk(f, s) && f.live[s].id == s % U32;
    }
  }

  /** A schedule that is not live any more fires no more. */
  lemma SilentWhenDead(f: Flat, ops: seq<Op>, s: nat, t: nat)
    requires Inv(f) && s in f.born && s !in f.live && CanRun(f, ops) && |f.history| <= t < |Run(f, ops).history|
    ensures s !in Run(f, ops).history[t]
  {
    hide Occurrence;
    RunKeepsInv(f, ops);
    BirthKept(f, ops, s);
    assert SerialOk(f, s) && SerialOk(Run(f, ops), s);
    if s in f.removed {
      RemovedStays(f, ops, s);
    }
  }

  /** The deadlines a client asks for by adding at tick `now`. */
  ghost predicate AskedFor(op: Op, now: nat, t: nat)
    requires op.Add?
  {
    exists j: nat :: WithinCount(op.times, j) && NthDeadline(now, Ticks(op.interval), j) == t
  }

  /** A removal of serial s after step i and before the dispatch of tick t. */
  ghost predicate TakenBack(ops: seq<Op>, i: nat, s: nat, t: nat)
    requires CanRun(START, ops)
  {
    exists k :: i < k < |ops| && ops[k] == Remove(s % U32) && |Before(ops, k).history| <= t
  }

  /** The whole story of one addition in a run: step i adds a schedule, which fires at exactly the
      deadlines it is created with, up to the first removal of its id. */
  lemma FiringsOfAny(ops: seq<Op>, i: nat, t: nat)
    requires CanRun(START, ops) && i < |ops| && t < |Run(START, ops).history|
    requires ops[i].Add? && Accepted(ops[i])
    ensures var s := Before(ops, i).adds + 1;
            s in Run(START, ops).history[t] <==>
              FiresAt(BirthOf(Before(ops, i), ops[i]), t) && !TakenBack(ops, i, s, t)
  {
    hide Inv, Run, CanRun, Apply, Accepted, Enabled, Ticks, FiresAt, BirthOf;
    BeforeNext(ops, i);
    var f0, f1, f, s := Before(ops, i), Before(ops, i + 1), Run(START, ops), Before(ops, i).adds + 1;
    RunSplit(START, ops, i);
    AddedFires(ops[..i], ops[i], ops[i + 1..], t);
    AddedIsNew(ops, i);
    if TakenBack(ops, i, s, t) {
      var k :| i < k < |ops| && ops[k] == Remove(s % U32) && |Before(ops, k).history| <= t;
      TakenBackIsSilent(ops, i, k, t);
    } else if s in f.removed {
      var k := RemovedBy(f1, ops[i + 1..], s);
      BeforeLater(ops, i + 1, k);
    }
  }

  /** With an interval of 1 to 2^32-1 ticks: it fires at exactly the multiples of its interval within
      its count, up to the first removal of its id. */
  lemma FiringsOf(ops: seq<Op>, i: nat, t: nat)
    requires CanRun(START, ops) && i < |ops| && t < |Run(START, ops).history|
    requires ops[i].Add? && Accepted(ops[i]) && 1 <= Ticks(ops[i].interval) < U32
    ensures var s := Before(ops, i).adds + 1;
            s in Run(START, ops).history[t] <==>
              AskedFor(ops[i], Before(ops, i).now, t) && !TakenBack(ops, i, s, t)
  {
    hide Run, CanRun, Accepted, FiresAt, BirthOf, AskedFor, TakenBack;
    FiringsOfAny(ops, i, t);
    RegularFirings(Before(ops, i), ops[i], t);
  }

  lemma AddedIsNew(ops: seq<Op>, i: nat)
    requires CanRun(START, ops) && i < |ops| && ops[i].Add? && Accepted(ops[i])
    ensures var s, f1 := Before(ops, i).adds + 1, Before(ops, i + 1);
            Inv(Before(ops, i)) && Inv(f1) && s in f1.born && s !in f1.removed
  {
    hide Run, CanRun;
    StartOk();
    RunSplit(START, ops, i);
    RunKeepsInv(START, ops[..i]);
    BeforeNext(ops, i);
    InvKept(Before(ops, i), ops[i]);
  }

  lemma BeforeLater(ops: seq<Op>, i: nat, k: nat)
    requires CanRun(START, ops) && i + k <= |ops| && CanRun(Before(ops, i), ops[i..][..k])
    ensures Before(ops, i + k) == Run(Before(ops, i), ops[i..][..k])
  {
    hide Run, CanRun, START;
    RunSplit(START, ops, i);
    RunSplit(START, ops, i + k);
    RunSplit(START, ops[..i + k], i);
    Slices(ops, i, k);
  }

  lemma Slices<T>(q: seq<T>, i: nat, k: nat)
    requires i + k <= |q|
    ensures q[..i + k][..i] == q[..i] && q[..i + k][i..] == q[i..][..k]
  {
    var a, b := q[..i + k][i..], q[i..][..k];
    forall j | 0 <= j < k ensures a[j] == b[j] {}
  }

  lemma TakenBackIsSilent(ops: seq<Op>, i: nat, k: nat, t: nat)
    requires CanRun(START, ops) && i < k < |ops| && t < |Run(START, ops).history|
    requires ops[i].Add? && Accepted(ops[i]) && ops[k] == Remove((Before(ops, i).adds + 1) % U32)
    requires |Before(ops, k).history| <= t
    ensures Before(ops, i).adds + 1 !in Run(START, ops).history[t]
  {
    hide Run, CanRun, START, Inv, Apply, Enabled, Accepted;
    var s, f1 := Before(ops, i).adds + 1, Before(ops, i + 1);
    AddedIsNew(ops, i);
    BeforeNext(ops, i);
    RunSplit(f1, ops[i + 1..], k - i - 1);
    BeforeLater(ops, i + 1, k - i - 1);
    var g := Before(ops, k);
    RunKeepsInv(f1, ops[i + 1..][..k - i - 1]);
    BirthKept(f1, ops[i + 1..][..k - i - 1], s);
    BeforeNext(ops, k);
    InvKept(g, ops[k]);
    NotLiveAfterRemove(g, s);
    SilentWhenDead(Before(ops, k + 1), ops[k + 1..], s, t);
  }

  /** A count of n gives n firings, no more and no fewer, once the last deadline has passed. */
  lemma AddedFiresCount(before: seq<Op>, op: Op, after: seq<Op>)
    requires CanRun(START, before) && op.Add? && Accepted(op) && 1 <= Ticks(op.interval) < U32 && op.times >= 1
    requires Enabled(Run(START, before), op) && CanRun(Apply(Run(START, before), op), after)
    requires var f0, f := Run(START, before), Run(Apply(Run(START, before), op), after);
             f0.adds + 1 !in f.removed && NthDeadline(f0.now, Ticks(op.interval), op.times - 1) < |f.history|
    ensures var f0, f := Run(START, before), Run(Apply(Run(START, before), op), after);
            Dispatches(f.history, f0.adds + 1) == op.times
  {
    hide Inv, Run, CanRun, Occurrence, NthDeadline, Ticks, Apply, Accepted, Enabled;
    var f0 := Run(START, before);
    var f, s, n := Run(Apply(f0, op), after), f0.adds + 1, op.times;
    AddedIsBorn(before, op, after);
    var b := f.born[s];
    BirthDeadline(b, f0.now, n - 1);
    var k := DispatchesCounted(f, s, |f.history|);
    assert f.history[..|f.history|] == f.history;
    if k < n {
      if k < n - 1 { OccurrenceMono(b, k, n - 1); }
    }
    assert k > n ==> !WithinCount(n, n);
  }

  lemma BirthDeadline(b: Birth, now: nat, j: nat)
    requires b.first == At(now + b.period)
    ensures Occurrence(b, j) == NthDeadline(now, b.period, j)
  {
    assert (j + 1) * b.period == j * b.period + b.period;
  }

  lemma AddedIsBorn(before: seq<Op>, op: Op, after: seq<Op>)
    requires CanRun(START, before) && op.Add? && Accepted(op)
    requires Enabled(Run(START, before), op) && CanRun(Apply(Run(START, before), op), after)
    ensures var f0, f := Run(START, before), Run(Apply(Run(START, before), op), after);
            Inv(f) && f0.adds + 1 in f.born && f.born[f0.adds + 1] == BirthOf(f0, op)
  {
    hide Inv, Run, CanRun, DueOf, Ticks;
    StartOk();
    RunKeepsInv(START, before);
    var f0 := Run(START, before);
    InvKept(f0, op);
    BornWhenAdded(f0, op);
    RunKeepsInv(Apply(f0, op), after);
    BirthKept(Apply(f0, op), after, f0.adds + 1);
  }

  lemma BornWhenAdded(f: Flat, op: Op)
    requires op.Add? && Accepted(op) && Enabled(f, op)
    ensures f.adds + 1 in Apply(f, op).born && Apply(f, op).born[f.adds + 1] == BirthOf(f, op)
  {
  }

  lemma StartOk()
    ensures Inv(START) && Delivered(START)
  {
  }

  // ----- callbacks: what update runs

  lemma {:induction false} RunnableCounts(queue: seq<nat>, removed: map<nat, nat>, s: nat)
    ensures multiset(Runnable(queue, removed))[s] == if s in removed then 0 else multiset(queue)[s]
  {
    if queue != [] {
      assert queue == [queue[0]] + queue[1..];
      RunnableCounts(queue[1..], removed, s);
    }
  }

  /** A removal that finds its schedule live silences it for good: its callback does not run again,
      not even for dispatches that were queued, or swapped out by a running update, before. */
  lemma {:induction false} CancelledNeverRuns(f: Flat, ops: seq<Op>, s: nat)
    requires Inv(f) && s in f.removed && CanRun(f, ops)
    ensures s in Run(f, ops).removed
    ensures multiset(Run(f, ops).ran)[s] == multiset(f.ran)[s]
    decreases ops
  {
    if ops != [] {
      InvKept(f, ops[0]);
      assert SerialOk(f, s);
      if ops[0].CallNext? { RunnableCounts([f.calling[0]], f.removed, s); }
      CancelledNeverRuns(Apply(f, ops[0]), ops[1..], s);
    }
  }

  lemma RemoveSilences(f: Flat, s: nat, ops: seq<Op>)
    requires Inv(f) && s in f.live
    requires CanRun(Apply(f, Remove(f.live[s].id)), ops)
    ensures multiset(Run(Apply(f, Remove(f.live[s].id)), ops).ran)[s] == multiset(f.ran)[s]
  {
    InvKept(f, Remove(f.live[s].id));
    CancelledNeverRuns(Apply(f, Remove(f.live[s].id)), ops, s);
  }

  /** The dispatches whose callbacks have not been looked at. */
  function Pending(f: Flat): (q: seq<nat>) {
    f.calling + f.queue
  }

  /** remove stops a pending callback exactly when the schedule is still live. The last firing of a
      counted schedule leaves the table when it is queued, so removing its id no longer stops it. */
  lemma RemoveStopsQueuedIffLive(f: Flat, s: nat)
    requires Inv(f) && s in f.born && s !in f.removed && s in Pending(f)
    ensures s in Runnable(Pending(f), Apply(f, Remove(s % U32)).removed) <==> s !in f.live
  {
    var g := Apply(f, Remove(s % U32));
    RunnableCounts(Pending(f), g.removed, s);
    assert SerialOk(f, s);
  }

  ghost predicate Delivered(f: Flat) {
    forall s: nat :: s !in f.removed ==>
      Dispatches(f.history, s) == multiset(f.ran)[s] + multiset(Pending(f))[s]
  }

  lemma {:induction false} EnumeratesCounts(order: seq<nat>, due: set<nat>, s: nat)
    requires Enumerates(order, due)
    ensures multiset(order)[s] == if s in due then 1 else 0
  {
    if s in due {
      var i :| 0 <= i < |order| && order[i] == s;
      forall k | 0 <= k < |order| && order[k] == s ensures k == i {}
      CountOnce(order, i);
    }
  }

  lemma CountOnce(order: seq<nat>, i: nat)
    requires i < |order| && forall k :: 0 <= k < |order| && order[k] == order[i] ==> k == i
    ensures multiset(order)[order[i]] == 1
  {
    var front, back := order[..i], order[i + 1..];
    assert order == front + [order[i]] + back;
    assert order[i] !in front && order[i] !in back;
  }

  /** What has run or is pending grows by what is dispatched. */
  lemma PendingAfter(f: Flat, op: Op, s: nat)
    requires Enabled(f, op) && s !in f.removed
    ensures var g := Apply(f, op);
            multiset(g.ran)[s] + multiset(Pending(g))[s] == multiset(f.ran)[s] + multiset(Pending(f))[s]
                                                           + if op.Dispatch? && s in DueNow(f) then 1 else 0
  {
    hide DueNow, DueOf, AfterDispatch, Accepted, Runnable, Pending;
    match op
    case CallNext => PendingAfterCall(f, s);
    case Swap => assert Pending(f) == Pending(Apply(f, op)) by { SwapPending(f); }
    case Dispatch(order) => PendingAfterDispatch(f, order, s);
    case _ => SamePending(f, op);
  }

  lemma SwapPending(f: Flat)
    requires Enabled(f, Swap)
    ensures Pending(Apply(f, Swap)) == Pending(f)
  {
  }

  lemma SamePending(f: Flat, op: Op)
    requires Enabled(f, op) && !op.Swap? && !op.CallNext? && !op.Dispatch?
    ensures Pending(Apply(f, op)) == Pending(f) && Apply(f, op).ran == f.ran
  {
    hide DueNow, DueOf, AfterDispatch, Accepted, Runnable;
  }

  lemma PendingAfterCall(f: Flat, s: nat)
    requires Enabled(f, CallNext) && s !in f.removed
    ensures var g := Apply(f, CallNext);
            multiset(g.ran)[s] + multiset(Pending(g))[s] == multiset(f.ran)[s] + multiset(Pending(f))[s]
  {
    hide Runnable;
    RunnableCounts([f.calling[0]], f.removed, s);
    assert Pending(f) == [f.calling[0]] + Pending(Apply(f, CallNext));
  }

  lemma PendingAfterDispatch(f: Flat, order: seq<nat>, s: nat)
    requires Enabled(f, Dispatch(order))
    ensures var g := Apply(f, Dispatch(order));
            && g.ran == f.ran
            && multiset(Pending(g))[s] == multiset(Pending(f))[s] + if s in DueNow(f) then 1 else 0
  {
    hide DueNow, AfterDispatch, Enumerates;
    EnumeratesCounts(order, DueNow(f), s);
    PutBetween(f.calling, order, f.queue);
  }

  lemma PutBetween(a: seq<nat>, b: seq<nat>, c: seq<nat>)
    ensures multiset(a + (b + c)) == multiset(b) + multiset(a + c)
  {
  }

  lemma DeliveredKept(f: Flat, op: Op)
    requires Inv(f) && Delivered(f) && Enabled(f, op)
    ensures Delivered(Apply(f, op))
  {
    hide Inv, Pending, Runnable, DueOf, AfterDispatch, Accepted;
    var g := Apply(f, op);
    forall s: nat | s !in g.removed
      ensures Dispatches(g.history, s) == multiset(g.ran)[s] + multiset(Pending(g))[s]
    {
      assert s !in f.removed;
      PendingAfter(f, op, s);
      if op.Dispatch? { assert g.history[..|g.history| - 1] == f.history; }
    }
  }

  /** In every run, each dispatch of a schedule that is not removed is either still pending or has
      run its callback once: none is lost between the worker and update, and none runs twice. */
  lemma {:induction false} NoFiringLost(f: Flat, ops: seq<Op>)
    requires Inv(f) && Delivered(f) && CanRun(f, ops)
    ensures Delivered(Run(f, ops))
    decreases ops
  {
    if ops != [] {
      InvKept(f, ops[0]);
      DeliveredKept(f, ops[0]);
      NoFiringLost(Apply(f, ops[0]), ops[1..]);
    }
  }
}
