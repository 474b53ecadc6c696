/** The database queue as a protocol: client calls, any number of workers and the destructor, in
    atomic steps that interleave freely. Requests are numbered in the order they are added. */
module DBQueueProtocol {
  import opened Basics

  /** Where a worker stands in its loop. */
  datatype Worker =
    | Top            // about to test isExit
    | Ready          // isExit was false
    | Holding(r: nat) // has a request
    | Ran(r: nat)    // has run onRequest
    | Stopped

  /** The owner's thread: in service, or how far the destructor has come. */
  datatype Owner = Serving | Draining | Joining | Leaving | LastUpdate | Gone

  datatype Event = OnRequest(r: nat) | OnFinish(r: nat)

  datatype State = State(
    work: seq<nat>, workers: map<nat, Worker>, exits: set<nat>, finish: seq<nat>,
    batch: seq<nat>, // what update has swapped out and not delivered yet
    added: nat, owner: Owner, log: seq<Event>,
    late: bool,      // a request was added after the destructor had seen an empty queue
    crowded: bool)   // two workers have existed at the same time

  const START := State([], map[], {}, [], [], 0, Serving, [], false, false)

  datatype Step =
    | Add
    | StartWorker(w: nat)
    | SignalExit(w: nat)
    | Join(w: nat)
    | Check(w: nat)
    | Take(w: nat)
    | Run(w: nat)
    | Finish(w: nat)
    | Swap
    | Deliver
    | Destroy
    | SeeEmpty
    | AllJoined
    | Leave

  predicate IsAt(s: State, w: nat, here: Worker) {
    w in s.workers && s.workers[w] == here
  }

  predicate Holds(s: State, w: nat) {
    w in s.workers && s.workers[w].Holding?
  }

  predicate HasRun(s: State, w: nat) {
    w in s.workers && s.workers[w].Ran?
  }

  predicate Enabled(s: State, step: Step) {
    match step
    case Add => true
    case StartWorker(w) => s.owner.Serving? && w !in s.workers
    case SignalExit(w) => w in s.workers && (s.owner.Serving? || s.owner.Joining?)
    case Join(w) => IsAt(s, w, Stopped) && (s.owner.Serving? || s.owner.Joining?)
    case Check(w) => IsAt(s, w, Top)
    case Take(w) => IsAt(s, w, Ready)
    case Run(w) => Holds(s, w)
    case Finish(w) => HasRun(s, w)
    case Swap => s.batch == [] && (s.owner.Serving? || s.owner.Draining? || s.owner.Leaving?)
    case Deliver => s.batch != []
    case Destroy => s.owner.Serving? && s.batch == []
    case SeeEmpty => s.owner.Draining? && s.batch == [] && s.work == []
    case AllJoined => s.owner.Joining? && s.workers == map[]
    case Leave => s.owner.LastUpdate? && s.batch == []
  }

  /** The destructor has seen an empty queue. */
  predicate Closing(s: State) {
    s.owner.Joining? || s.owner.Leaving? || s.owner.LastUpdate? || s.owner.Gone?
  }

  function Move(s: State, w: nat, to: Worker): (r: State) {
    s.(workers := s.workers[w := to])
  }

  function Apply(s: State, step: Step): (r: State)
    requires Enabled(s, step)
  {
    match step
    case Add =>
      s.(work := s.work + [s.added], added := s.added + 1,
         late := s.late || Closing(s))
    case StartWorker(w) => Move(s, w, Top).(crowded := s.crowded || s.workers != map[], exits := s.exits - {w})
    case SignalExit(w) => s.(exits := s.exits + {w})
    case Join(w) => s.(workers := s.workers - {w})
    case Check(w) => Move(s, w, if w in s.exits then Stopped else Ready)
    case Take(w) =>
      if s.work == [] then Move(s, w, Top)
      else Move(s, w, Holding(s.work[0])).(work := s.work[1..])
    case Run(w) => Move(s, w, Ran(s.workers[w].r)).(log := s.log + [OnRequest(s.workers[w].r)])
    case Finish(w) => Move(s, w, Top).(finish := s.finish + [s.workers[w].r])
    case Swap => s.(batch := s.finish, finish := [], owner := if s.owner.Leaving? then LastUpdate else s.owner)
    case Deliver => s.(batch := s.batch[1..], log := s.log + [OnFinish(s.batch[0])])
    case Destroy => s.(owner := Draining)
    case SeeEmpty => s.(owner := Joining)
    case AllJoined => s.(owner := Leaving)
    case Leave => s.(owner := Gone)
  }

  // ----- each request is in exactly one place

  predicate Carries(s: State, w: nat, r: nat) {
    w in s.workers && (s.workers[w] == Holding(r) || s.workers[w] == Ran(r))
  }

  ghost predicate InFlight(s: State, r: nat) {
    exists w :: Carries(s, w, r)
  }

  ghost predicate Delivered(s: State, r: nat) {
    OnFinish(r) in s.log
  }

  ghost predicate Placed(s: State, r: nat) {
    r in s.work || InFlight(s, r) || r in s.finish || r in s.batch || Delivered(s, r)
  }

  /** Every added request is queued, in flight, finished, being delivered or delivered, and in one
      of these only. */
  ghost predicate Conserved(s: State) {
    && (forall r: nat :: r < s.added <==> Placed(s, r))
    && NoDup(s.work) && NoDup(s.finish) && NoDup(s.batch)
    && (forall w, v, r :: Carries(s, w, r) && Carries(s, v, r) ==> w == v)
    && (forall w, r :: Carries(s, w, r) ==> r !in s.work && r !in s.finish && r !in s.batch && !Delivered(s, r))
    && (forall r :: r in s.work ==> r !in s.finish && r !in s.batch && !Delivered(s, r))
    && (forall r :: r in s.finish ==> r !in s.batch && !Delivered(s, r))
    && (forall r :: r in s.batch ==> !Delivered(s, r))
  }

  /** onRequest has run. */
  ghost predicate Requested(s: State, r: nat) {
    OnRequest(r) in s.log
  }

  /** onRequest runs once for each request that has got that far, and before its only onFinish. */
  ghost predicate Logged(s: State) {
    && NoDup(s.log)
    && (forall r :: r in s.work ==> !Requested(s, r))
    && (forall w, r :: Carries(s, w, r) ==> (Requested(s, r) <==> s.workers[w].Ran?))
    && (forall r :: r in s.finish || r in s.batch ==> Requested(s, r))
    && (forall r: nat :: Requested(s, r) ==> r < s.added)
    && (forall i :: 0 <= i < |s.log| && s.log[i].OnFinish? ==>
          exists j :: 0 <= j < i && s.log[j] == OnRequest(s.log[i].r))
  }

  /** Once the destructor has seen an empty queue, it stays empty unless something is added; once the
      workers are joined nothing new is finished, so its last update leaves nothing behind. */
  ghost predicate Ending(s: State) {
    && (Closing(s) ==> s.late || s.work == [])
    && (Closing(s) && !s.owner.Joining? ==> s.workers == map[])
    && (s.owner.LastUpdate? || s.owner.Gone? ==> s.finish == [])
    && (s.owner.Gone? ==> s.batch == [])
  }

  ghost predicate Inv(s: State) {
    Conserved(s) && Logged(s) && Ending(s)
  }

  // ----- every step keeps the invariant

  /** No request changes hands between workers and queues. */
  ghost predicate SameHands(s: State, t: State) {
    forall w, r :: Carries(s, w, r) <==> Carries(t, w, r)
  }

  lemma SameFlights(s: State, t: State)
    requires SameHands(s, t)
    ensures forall r :: InFlight(s, r) <==> InFlight(t, r)
  {
    forall r ensures InFlight(s, r) <==> InFlight(t, r) {
      if InFlight(s, r) { var w :| Carries(s, w, r); assert Carries(t, w, r); }
      if InFlight(t, r) { var w :| Carries(t, w, r); assert Carries(s, w, r); }
    }
  }

  /** Worker w, and nobody else, has taken up or put down request r. */
  ghost predicate HandsOver(s: State, t: State, w: nat, r: nat) {
    && Carries(t, w, r)
    && (forall v, q :: Carries(t, v, q) <==> Carries(s, v, q) || (v == w && q == r))
    && (forall q :: !Carries(s, w, q))
  }

  lemma OneMoreFlight(s: State, t: State, w: nat, r: nat)
    requires HandsOver(s, t, w, r)
    ensures forall q :: InFlight(t, q) <==> InFlight(s, q) || q == r
  {
    forall q ensures InFlight(t, q) <==> InFlight(s, q) || q == r {
      if InFlight(s, q) { var v :| Carries(s, v, q); assert Carries(t, v, q); }
      if InFlight(t, q) { var v :| Carries(t, v, q); assert Carries(s, v, q) || q == r; }
    }
  }

  lemma SplitFirst<T>(q: seq<T>)
    requires q != []
    ensures q[0] in q && forall r :: r in q <==> r == q[0] || r in q[1..]
    ensures NoDup(q) ==> NoDup(q[1..]) && q[0] !in q[1..]
  {
    assert q == [q[0]] + q[1..];
  }

  lemma SplitLast<T>(q: seq<T>, x: T)
    ensures forall r :: r in q + [x] <==> r == x || r in q
    ensures NoDup(q) && x !in q ==> NoDup(q + [x])
  {
  }

  lemma SameLog(s: State, t: State)
    requires t.log == s.log
    ensures forall r :: Requested(t, r) <==> Requested(s, r)
    ensures forall r :: Delivered(t, r) <==> Delivered(s, r)
  {
  }

  /** One more event: what comes before what in the log stays. */
  lemma LongerLog(s: State, t: State, e: Event)
    requires Logged(s) && t.log == s.log + [e] && e !in s.log
    requires e.OnFinish? ==> Requested(s, e.r)
    ensures NoDup(t.log)
    ensures forall r :: Requested(t, r) <==> Requested(s, r) || e == OnRequest(r)
    ensures forall r :: Delivered(t, r) <==> Delivered(s, r) || e == OnFinish(r)
    ensures forall i :: 0 <= i < |t.log| && t.log[i].OnFinish? ==>
              exists j :: 0 <= j < i && t.log[j] == OnRequest(t.log[i].r)
  {
    forall i | 0 <= i < |t.log| && t.log[i].OnFinish?
      ensures exists j :: 0 <= j < i && t.log[j] == OnRequest(t.log[i].r)
    {
      if i == |s.log| {
        var j :| 0 <= j < |s.log| && s.log[j] == OnRequest(e.r);
        assert t.log[j] == OnRequest(e.r);
      } else {
        var j :| 0 <= j < i && s.log[j] == OnRequest(s.log[i].r);
        assert t.log[j] == OnRequest(t.log[i].r);
      }
    }
  }

  /** Steps of a worker that carries nothing before or after, and of the owner's bookkeeping. */
  lemma QuietStep(s: State, t: State)
    requires Inv(s) && SameHands(s, t)
    requires t.work == s.work && t.finish == s.finish && t.batch == s.batch && t.log == s.log && t.added == s.added
    requires forall w, r :: Carries(s, w, r) ==> s.workers[w] == t.workers[w]
    ensures Conserved(t) && Logged(t)
  {
    SameFlights(s, t);
    forall r: nat ensures Placed(t, r) <==> Placed(s, r) {}
    forall w, r | Carries(t, w, r) ensures Carries(s, w, r) {}
    SameLog(s, t);
  }

  lemma AddKeeps(s: State)
    requires Inv(s)
    ensures Inv(Apply(s, Add))
  {
    var t := Apply(s, Add);
    assert SameHands(s, t);
    SameFlights(s, t);
    SplitLast(s.work, s.added);
    assert !Placed(s, s.added);
    forall r: nat ensures Placed(t, r) <==> Placed(s, r) || r == s.added {}
    forall w, r | Carries(t, w, r) ensures Carries(s, w, r) && r != s.added {
      assert Placed(s, r) by { assert InFlight(s, r); }
    }
    SameLog(s, t);
    assert !Requested(s, s.added);
  }

  lemma TakeKeeps(s: State, w: nat)
    requires Inv(s) && Enabled(s, Take(w))
    ensures Inv(Apply(s, Take(w)))
  {
    var t := Apply(s, Take(w));
    if s.work == [] {
      assert SameHands(s, t);
      QuietStep(s, t);
    } else {
      var r := s.work[0];
      SplitFirst(s.work);
      assert HandsOver(s, t, w, r);
      OneMoreFlight(s, t, w, r);
      SameLog(s, t);
      forall q: nat ensures Placed(t, q) <==> Placed(s, q) {}
    }
  }

  lemma RunKeeps(s: State, w: nat)
    requires Inv(s) && Enabled(s, Run(w))
    ensures Inv(Apply(s, Run(w)))
  {
    var t, r := Apply(s, Run(w)), s.workers[w].r;
    assert Carries(s, w, r);
    assert SameHands(s, t);
    SameFlights(s, t);
    LongerLog(s, t, OnRequest(r));
    forall q: nat ensures Placed(t, q) <==> Placed(s, q) && (Delivered(t, q) <==> Delivered(s, q)) {}
    forall v, q | Carries(t, v, q) ensures Carries(s, v, q) {}
    assert Placed(s, r) by { assert InFlight(s, r); }
  }

  lemma FinishKeeps(s: State, w: nat)
    requires Inv(s) && Enabled(s, Finish(w))
    ensures Inv(Apply(s, Finish(w)))
  {
    var t, r := Apply(s, Finish(w)), s.workers[w].r;
    assert Carries(s, w, r);
    SplitLast(s.finish, r);
    assert HandsOver(t, s, w, r);
    OneMoreFlight(t, s, w, r);
    SameLog(s, t);
    forall q: nat ensures Placed(t, q) <==> Placed(s, q) {}
    forall v, q | Carries(t, v, q) ensures Carries(s, v, q) && q != r {}
  }

  lemma DeliverKeeps(s: State)
    requires Inv(s) && Enabled(s, Deliver)
    ensures Inv(Apply(s, Deliver))
  {
    var t, r := Apply(s, Deliver), s.batch[0];
    SplitFirst(s.batch);
    assert Requested(s, r) && !Delivered(s, r);
    LongerLog(s, t, OnFinish(r));
    assert SameHands(s, t);
    SameFlights(s, t);
    forall q: nat ensures Placed(t, q) <==> Placed(s, q) {}
  }

  lemma SwapKeeps(s: State)
    requires Inv(s) && Enabled(s, Swap)
    ensures Inv(Apply(s, Swap))
  {
    var t := Apply(s, Swap);
    assert SameHands(s, t);
    SameFlights(s, t);
    SameLog(s, t);
    forall r: nat ensures Placed(t, r) <==> Placed(s, r) {}
  }

  lemma InvKept(s: State, step: Step)
    requires Inv(s) && Enabled(s, step)
    ensures Inv(Apply(s, step))
  {
    match step
    case Add => AddKeeps(s);
    case Take(w) => TakeKeeps(s, w);
    case Run(w) => RunKeeps(s, w);
    case Finish(w) => FinishKeeps(s, w);
    case Deliver => DeliverKeeps(s);
    case Swap => SwapKeeps(s);
    case _ =>
      assert SameHands(s, Apply(s, step));
      QuietStep(s, Apply(s, step));
  }

  // ----- whole runs

  predicate CanRun(s: State, steps: seq<Step>)
    decreases steps
  {
    steps == [] || (Enabled(s, steps[0]) && CanRun(Apply(s, steps[0]), steps[1..]))
  }

  function RunAll(s: State, steps: seq<Step>): (r: State)
    requires CanRun(s, steps)
    decreases steps
  {
    if steps == [] then s else RunAll(Apply(s, steps[0]), steps[1..])
  }

  lemma {:induction false} RunKeepsInv(s: State, steps: seq<Step>)
    requires Inv(s) && CanRun(s, steps)
    ensures Inv(RunAll(s, steps))
    decreases steps
  {
    if steps != [] {
      InvKept(s, steps[0]);
      RunKeepsInv(Apply(s, steps[0]), steps[1..]);
    }
  }

  /** A run is run step by step. */
  lemma {:induction false} RunSplit(s: State, steps: seq<Step>, i: nat)
    requires CanRun(s, steps) && i < |steps|
    ensures CanRun(s, steps[..i]) && CanRun(s, steps[..i + 1])
    ensures var t := RunAll(s, steps[..i]);
            Enabled(t, steps[i]) && RunAll(s, steps[..i + 1]) == Apply(t, steps[i])
    decreases i
  {
    var t := Apply(s, steps[0]);
    if i == 0 {
      assert steps[..1] == [steps[0]];
      assert CanRun(t, []) && RunAll(t, []) == t;
    } else {
      RunSplit(t, steps[1..], i - 1);
      assert steps[..i][1..] == steps[1..][..i - 1];
      assert steps[..i + 1][1..] == steps[1..][..i];
    }
  }

  lemma StartOk()
    ensures Inv(START)
  {
    forall r: nat ensures !Placed(START, r) {
      assert !InFlight(START, r);
    }
  }

  /** In every run no request is lost or duplicated, and onRequest runs once before onFinish. */
  lemma RequestsConserved(steps: seq<Step>)
    requires CanRun(START, steps)
    ensures Conserved(RunAll(START, steps)) && Logged(RunAll(START, steps))
  {
    StartOk();
    RunKeepsInv(START, steps);
  }

  /** If the destructor returns, the requests not delivered are exactly those left in the work
      queue; when nothing was added after it had seen the queue empty, all have been delivered. For
      what was added later, see `DeliveryIsCertainIff`. */
  lemma DestroyedMeansDelivered(steps: seq<Step>, r: nat)
    requires CanRun(START, steps)
    requires var s := RunAll(START, steps); s.owner.Gone? && r < s.added
    ensures var s := RunAll(START, steps);
            (Delivered(s, r) <==> r !in s.work) && (!s.late ==> Delivered(s, r))
  {
    var s := RunAll(START, steps);
    StartOk();
    RunKeepsInv(START, steps);
    assert Placed(s, r);
    assert !InFlight(s, r) by {
      forall w ensures !Carries(s, w, r) {}
    }
  }

  /** A request that comes too late is lost: a run in which it is never delivered. */
  lemma LateRequestIsLost() returns (steps: seq<Step>)
    ensures CanRun(START, steps)
    ensures var s := RunAll(START, steps); s.owner.Gone? && s.added == 1 && !Delivered(s, 0)
  {
    steps := [Destroy, SeeEmpty, Add, AllJoined, Swap, Leave];
    var a := Apply(START, Destroy);
    var b := Apply(a, SeeEmpty);
    var c := Apply(b, Add);
    var d := Apply(c, AllJoined);
    var e := Apply(d, Swap);
    var f := Apply(e, Leave);
    assert steps[1..] == [SeeEmpty, Add, AllJoined, Swap, Leave];
    assert steps[1..][1..] == [Add, AllJoined, Swap, Leave];
    assert steps[1..][1..][1..] == [AllJoined, Swap, Leave];
    assert steps[1..][1..][1..][1..] == [Swap, Leave];
    assert steps[1..][1..][1..][1..][1..] == [Leave];
    assert RunAll(f, []) == f;
    assert RunAll(e, [Leave]) == f;
    assert RunAll(d, [Swap, Leave]) == f;
    assert RunAll(c, [AllJoined, Swap, Leave]) == f;
    assert RunAll(b, [Add, AllJoined, Swap, Leave]) == f;
  }

  // ----- when delivery is certain

  ghost predicate NoAdds(steps: seq<Step>) {
    forall i :: 0 <= i < |steps| ==> !steps[i].Add?
  }

  /** Whatever the threads do, unless something more is added, the destructor returns only after
      everything has been delivered. */
  ghost predicate CertainlyDelivered(s: State) {
    forall steps :: CanRun(s, steps) && NoAdds(steps) && RunAll(s, steps).owner.Gone? ==>
      forall r: nat :: r < s.added ==> Delivered(RunAll(s, steps), r)
  }

  /** The workers that have found isExit false and not asked for a request since. */
  function ReadyWorkers(s: State): (ws: set<nat>) {
    set w | w in s.workers && s.workers[w].Ready?
  }

  /** Enough workers are bound to ask once more. */
  ghost predicate Covered(s: State) {
    |s.work| <= |ReadyWorkers(s)|
  }

  lemma {:induction false} Subset(a: set<nat>, b: set<nat>)
    requires a <= b
    ensures |a| <= |b|
    decreases a
  {
    if a != {} {
      var x :| x in a;
      Subset(a - {x}, b - {x});
    }
  }

  /** Each request taken uses up one worker that was bound to ask. */
  lemma CoveredKept(s: State, step: Step)
    requires Covered(s) && Closing(s) && Enabled(s, step) && !step.Add?
    ensures Covered(Apply(s, step)) && Closing(Apply(s, step)) && Apply(s, step).added == s.added
  {
    var t := Apply(s, step);
    match step
    case Take(w) =>
      assert ReadyWorkers(s) == ReadyWorkers(t) + {w} && w !in ReadyWorkers(t);
    case Check(w) =>
      Subset(ReadyWorkers(s), ReadyWorkers(t));
    case Run(w) => assert ReadyWorkers(t) == ReadyWorkers(s);
    case Finish(w) => assert ReadyWorkers(t) == ReadyWorkers(s);
    case Join(w) => assert ReadyWorkers(t) == ReadyWorkers(s);
    case _ =>
  }

  lemma {:induction false} CoveredRun(s: State, steps: seq<Step>)
    requires Covered(s) && Closing(s) && CanRun(s, steps) && NoAdds(steps)
    ensures Covered(RunAll(s, steps)) && RunAll(s, steps).added == s.added
    decreases steps
  {
    if steps != [] {
      CoveredKept(s, steps[0]);
      assert NoAdds(steps[1..]);
      CoveredRun(Apply(s, steps[0]), steps[1..]);
    }
  }

  /** When the destructor has returned, exactly the requests in the work queue are undelivered. */
  lemma GoneDelivers(s: State, r: nat)
    requires Inv(s) && s.owner.Gone? && r < s.added
    ensures Delivered(s, r) <==> r !in s.work
  {
    assert Placed(s, r);
    assert !InFlight(s, r) by {
      forall w ensures !Carries(s, w, r) {}
    }
  }

  // ----- a run that leaves requests behind

  lemma {:induction false} RunJoined(s: State, a: seq<Step>, b: seq<Step>)
    requires CanRun(s, a) && CanRun(RunAll(s, a), b)
    ensures CanRun(s, a + b) && RunAll(s, a + b) == RunAll(RunAll(s, a), b)
    decreases a
  {
    if a == [] {
      assert a + b == b;
    } else {
      RunJoined(Apply(s, a[0]), a[1..], b);
      assert (a + b)[1..] == a[1..] + b;
    }
  }

  lemma OneStep(s: State, step: Step)
    requires Enabled(s, step)
    ensures CanRun(s, [step]) && RunAll(s, [step]) == Apply(s, step)
  {
    assert [step][1..] == [];
    assert RunAll(Apply(s, step), []) == Apply(s, step);
  }

  /** Worker w is stopped and joined, taking one more request only if it was bound to ask. */
  ghost predicate Retired(s: State, t: State, w: nat)
    requires w in s.workers
  {
    && t.workers == s.workers - {w} && t.owner == s.owner && t.added == s.added
    && t.work == if s.workers[w].Ready? && s.work != [] then s.work[1..] else s.work
  }

  /** The step that brings worker w nearer to its end once isExit is set. */
  function NextOf(s: State, w: nat): (step: Step)
    requires w in s.workers
  {
    match s.workers[w]
    case Top => if w in s.exits then Check(w) else SignalExit(w)
    case Ready => Take(w)
    case Holding(_) => Run(w)
    case Ran(_) => Finish(w)
    case Stopped => Join(w)
  }

  function StepsLeft(s: State, w: nat): (n: nat)
    requires w in s.workers
  {
    match s.workers[w]
    case Ready => 6
    case Holding(_) => 5
    case Ran(_) => 4
    case Top => if w in s.exits then 2 else 3
    case Stopped => 1
  }

  lemma {:induction false} Retire(s: State, w: nat) returns (steps: seq<Step>)
    requires w in s.workers && s.owner.Joining?
    ensures CanRun(s, steps) && NoAdds(steps) && w in s.workers && Retired(s, RunAll(s, steps), w)
    decreases StepsLeft(s, w)
  {
    var step := NextOf(s, w);
    var t := Apply(s, step);
    OneStep(s, step);
    if step.Join? {
      steps := [step];
    } else {
      assert t.workers.Keys == s.workers.Keys;
      assert t.workers - {w} == s.workers - {w};
      var rest := Retire(t, w);
      steps := [step] + rest;
      RunJoined(s, [step], rest);
    }
  }

  /** All workers are stopped one after the other; each that was bound to ask takes one request. */
  lemma {:induction false} RetireAll(s: State) returns (steps: seq<Step>)
    requires s.owner.Joining? && !Covered(s)
    ensures CanRun(s, steps) && NoAdds(steps)
    ensures var t := RunAll(s, steps);
            t.owner.Joining? && t.workers == map[] && t.work != [] && t.added == s.added
    decreases |s.workers|
  {
    if s.workers == map[] {
      assert ReadyWorkers(s) == {};
      steps := [];
    } else {
      var w :| w in s.workers;
      var first := Retire(s, w);
      var t := RunAll(s, first);
      OneFewer(s, t, w);
      var rest := RetireAll(t);
      steps := first + rest;
      RunJoined(s, first, rest);
    }
  }

  lemma OneFewer(s: State, t: State, w: nat)
    requires w in s.workers && Retired(s, t, w) && !Covered(s)
    ensures !Covered(t) && |t.workers| < |s.workers|
  {
    assert ReadyWorkers(t) == ReadyWorkers(s) - {w};
    assert t.workers.Keys == s.workers.Keys - {w};
    assert |t.workers.Keys| == |t.workers| && |s.workers.Keys| == |s.workers|;
  }

  /** onFinish on all that update has swapped out. */
  lemma {:induction false} DeliverAll(s: State) returns (steps: seq<Step>)
    ensures CanRun(s, steps) && NoAdds(steps)
    ensures var t := RunAll(s, steps);
            && t.batch == [] && t.work == s.work && t.workers == s.workers && t.owner == s.owner && t.added == s.added
    decreases |s.batch|
  {
    if s.batch == [] {
      steps := [];
    } else {
      OneStep(s, Deliver);
      var rest := DeliverAll(Apply(s, Deliver));
      steps := [Deliver] + rest;
      RunJoined(s, [Deliver], rest);
    }
  }

  /** The destructor's way out once no worker is left. */
  lemma WayOut(s: State) returns (steps: seq<Step>)
    requires Closing(s) && s.workers == map[]
    ensures CanRun(s, steps) && NoAdds(steps)
    ensures RunAll(s, steps).owner.Gone? && RunAll(s, steps).work == s.work && RunAll(s, steps).added == s.added
    decreases if s.owner.Joining? then 3 else if s.owner.Leaving? then 2 else if s.owner.LastUpdate? then 1 else 0
  {
    if s.owner.Gone? {
      return [];
    }
    var first := DeliverAll(s);
    var t := RunAll(s, first);
    var step := if t.owner.Joining? then AllJoined else if t.owner.Leaving? then Swap else Leave;
    OneStep(t, step);
    RunJoined(s, first, [step]);
    var rest := WayOut(Apply(t, step));
    steps := (first + [step]) + rest;
    RunJoined(s, first + [step], rest);
  }

  /** From a state in which too few workers are bound to ask, a run in which the destructor returns
      and requests are left. */
  lemma LeftBehind(s: State) returns (steps: seq<Step>)
    requires Inv(s) && Closing(s) && !Covered(s)
    ensures CanRun(s, steps) && NoAdds(steps)
    ensures RunAll(s, steps).owner.Gone? && RunAll(s, steps).work != [] && RunAll(s, steps).added == s.added
  {
    var first: seq<Step> := [];
    if s.owner.Joining? {
      first := RetireAll(s);
    }
    var rest := WayOut(RunAll(s, first));
    steps := first + rest;
    RunJoined(s, first, rest);
  }

  /** Once the destructor has seen an empty queue, and if nothing more is added, everything is certain
      to be delivered exactly when no more requests are queued than there are workers which have
      found isExit false and are about to ask for one. */
  lemma DeliveryIsCertainIff(s: State)
    requires Inv(s) && Closing(s)
    ensures CertainlyDelivered(s) <==> |s.work| <= |ReadyWorkers(s)|
  {
    hide Inv;
    if Covered(s) {
      forall steps, r: nat | CanRun(s, steps) && NoAdds(steps) && RunAll(s, steps).owner.Gone? && r < s.added
        ensures Delivered(RunAll(s, steps), r)
      {
        CoveredRun(s, steps);
        RunKeepsInv(s, steps);
        NothingLeft(RunAll(s, steps));
        GoneDelivers(RunAll(s, steps), r);
      }
    } else {
      var steps := LeftBehind(s);
      var t := RunAll(s, steps);
      RunKeepsInv(s, steps);
      var r := t.work[0];
      QueuedWasAdded(t, r);
      GoneDelivers(t, r);
    }
  }

  lemma NothingLeft(s: State)
    requires Inv(s) && s.owner.Gone? && Covered(s)
    ensures s.work == []
  {
    assert ReadyWorkers(s) == {};
  }

  lemma QueuedWasAdded(s: State, r: nat)
    requires Inv(s) && r in s.work
    ensures r < s.added
  {
    assert Placed(s, r);
  }

  // ----- a single worker delivers in order

  /** The requests in the order of their onFinish calls. */
  function Finished(log: seq<Event>): (r: seq<nat>)
    decreases |log|
  {
    if log == [] then []
    else
      var last := log[|log| - 1];
      Finished(log[..|log| - 1]) + if last.OnFinish? then [last.r] else []
  }

  ghost function InHand(s: State): (r: seq<nat>) {
    if exists w, r :: Carries(s, w, r) then
      var w, r :| Carries(s, w, r);
      [r]
    else []
  }

  function UpTo(n: nat): (r: seq<nat>) {
    seq(n, i => i)
  }

  /** As long as no two workers have existed at once, the requests stand in one line. */
  ghost predicate InLine(s: State) {
    !s.crowded ==>
      && (forall w, v :: w in s.workers && v in s.workers ==> w == v)
      && Finished(s.log) + s.batch + s.finish + InHand(s) + s.work == UpTo(s.added)
  }

  lemma InHandIs(s: State, w: nat)
    requires w in s.workers && forall v :: v in s.workers ==> v == w
    ensures s.workers[w].Holding? || s.workers[w].Ran? ==> InHand(s) == [s.workers[w].r]
    ensures !(s.workers[w].Holding? || s.workers[w].Ran?) ==> InHand(s) == []
  {
    if s.workers[w].Holding? || s.workers[w].Ran? {
      assert Carries(s, w, s.workers[w].r);
    }
  }

  lemma NobodyInHand(s: State)
    requires s.workers == map[]
    ensures InHand(s) == []
  {
  }

  lemma FinishedMore(log: seq<Event>, e: Event)
    ensures Finished(log + [e]) == Finished(log) + if e.OnFinish? then [e.r] else []
  {
    assert (log + [e])[..|log|] == log;
  }

  lemma UpToMore(n: nat)
    ensures UpTo(n + 1) == UpTo(n) + [n]
  {
  }

  lemma Regroup(a: seq<nat>, b: seq<nat>, c: seq<nat>, d: seq<nat>, e: seq<nat>)
    ensures a + b + c + d + e == a + (b + (c + (d + e)))
  {
  }

  lemma InLineAfterWork(s: State, step: Step, w: nat)
    requires InLine(s) && Enabled(s, step)
    requires step == Check(w) || step == Take(w) || step == Run(w) || step == Finish(w)
    ensures InLine(Apply(s, step))
  {
    hide InHand, Finished;
    var t := Apply(s, step);
    if !t.crowded {
      InHandIs(s, w);
      InHandIs(t, w);
      match step
      case Take(_) => if s.work != [] { assert s.work == [s.work[0]] + s.work[1..]; }
      case Run(_) => FinishedMore(s.log, OnRequest(s.workers[w].r));
      case _ =>
    }
  }

  lemma InLineAfterThreads(s: State, step: Step)
    requires InLine(s) && Enabled(s, step) && (step.StartWorker? || step.Join?)
    ensures InLine(Apply(s, step))
  {
    hide InHand, Finished;
    if !Apply(s, step).crowded {
      match step
      case StartWorker(w) =>
        NobodyInHand(s);
        InHandIs(Apply(s, step), w);
      case Join(w) =>
        InHandIs(s, w);
        NobodyInHand(Apply(s, step));
    }
  }

  lemma InLineAfterQueues(s: State, step: Step)
    requires InLine(s) && Enabled(s, step) && Apply(s, step).workers == s.workers
    ensures InLine(Apply(s, step))
  {
    hide InHand, Finished;
    if !Apply(s, step).crowded {
      SameInHand(s, Apply(s, step));
      match step
      case Add => UpToMore(s.added);
      case Deliver =>
        FinishedMore(s.log, OnFinish(s.batch[0]));
        assert s.batch == [s.batch[0]] + s.batch[1..];
      case _ =>
    }
  }

  lemma InLineKept(s: State, step: Step)
    requires InLine(s) && Enabled(s, step)
    ensures InLine(Apply(s, step))
  {
    hide InLine;
    match step
    case StartWorker(_) => InLineAfterThreads(s, step);
    case Join(_) => InLineAfterThreads(s, step);
    case Check(w) => InLineAfterWork(s, step, w);
    case Take(w) => InLineAfterWork(s, step, w);
    case Run(w) => InLineAfterWork(s, step, w);
    case Finish(w) => InLineAfterWork(s, step, w);
    case _ => InLineAfterQueues(s, step);
  }

  lemma SameInHand(s: State, t: State)
    requires s.workers == t.workers
    requires forall w, v :: w in s.workers && v in s.workers ==> w == v
    ensures InHand(s) == InHand(t)
  {
    if s.workers == map[] {
      NobodyInHand(s);
      NobodyInHand(t);
    } else {
      var w :| w in s.workers;
      InHandIs(s, w);
      InHandIs(t, w);
    }
  }

  lemma {:induction false} RunKeepsLine(s: State, steps: seq<Step>)
    requires InLine(s) && CanRun(s, steps)
    ensures InLine(RunAll(s, steps))
    decreases steps
  {
    if steps != [] {
      InLineKept(s, steps[0]);
      RunKeepsLine(Apply(s, steps[0]), steps[1..]);
    }
  }

  /** With one worker at a time, onFinish is called in the order the requests were added. */
  lemma SingleWorkerIsFifo(steps: seq<Step>)
    requires CanRun(START, steps) && !RunAll(START, steps).crowded
    ensures var s := RunAll(START, steps); Finished(s.log) <= UpTo(s.added)
  {
    NobodyInHand(START);
    RunKeepsLine(START, steps);
    var s := RunAll(START, steps);
    Regroup(Finished(s.log), s.batch, s.finish, InHand(s), s.work);
  }
}
