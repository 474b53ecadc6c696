/** The queue object: each locked region of its methods is one step of `DBQueueProtocol`. */
module DBQueues {
  import opened Basics
  import opened DBQueueProtocol

  class DBQueue {
    var workQueue: seq<nat>
    var workQueueLength: nat
    var finishQueue: seq<nat>
    ghost var s: State

    ghost predicate Valid()
      reads this
    {
      && workQueue == s.work && workQueueLength == |workQueue| && finishQueue == s.finish
      && Inv(s) && InLine(s)
    }

    constructor ()
      ensures Valid() && s == START
    {
      workQueue, workQueueLength, finishQueue, s := [], 0, [], START;
      StartOk();
      NobodyInHand(START);
    }

    /** Records one step of the protocol. */
    ghost method Record(step: Step)
      requires Inv(s) && InLine(s) && Enabled(s, step)
      modifies this`s
      ensures s == Apply(old(s), step) && Inv(s) && InLine(s)
    {
      InvKept(s, step);
      InLineKept(s, step);
      s := Apply(s, step);
    }

    /** A step of some thread that touches neither queue. */
    ghost method Elsewhere(step: Step)
      requires Valid() && Enabled(s, step) && !step.Add? && !step.Take? && !step.Finish? && !step.Swap?
      modifies this`s
      ensures Valid() && s == Apply(old(s), step)
    {
      hide Inv, InLine;
      Record(step);
    }

    method AddRequest(request: nat)
      requires Valid() && request == s.added
      modifies this
      ensures Valid() && s == Apply(old(s), Add)
    {
      hide Inv, InLine;
      workQueue := workQueue + [request];
      workQueueLength := |workQueue|;
      Record(Add);
    }

    method GetQueueLength() returns (n: nat)
      requires Valid()
      ensures n == |s.work|
    {
      n := workQueueLength;
    }

    /** getRequest, called by worker w. */
    method GetRequest(ghost w: nat) returns (request: Option<nat>)
      requires Valid() && Enabled(s, Take(w))
      modifies this
      ensures Valid() && s == Apply(old(s), Take(w))
      ensures request == if old(s).work == [] then None else Some(old(s).work[0])
    {
      hide Inv, InLine;
      request := None;
      if workQueue != [] {
        request := Some(workQueue[0]);
        workQueue := workQueue[1..];
        workQueueLength := |workQueue|;
      }
      Record(Take(w));
    }

    /** The locked push of the worker loop, after onRequest. */
    method FinishRequest(ghost w: nat, request: nat)
      requires Valid() && IsAt(s, w, Ran(request))
      modifies this
      ensures Valid() && s == Apply(old(s), Finish(w))
    {
      hide Inv, InLine;
      finishQueue := finishQueue + [request];
      Record(Finish(w));
    }

    /** The locked part of update. */
    method SwapOut() returns (tmpQueue: seq<nat>)
      requires Valid() && Enabled(s, Swap)
      modifies this
      ensures Valid() && s == Apply(old(s), Swap) && tmpQueue == s.batch
    {
      hide Inv, InLine;
      tmpQueue := [];
      if finishQueue != [] {
        tmpQueue := finishQueue;
        finishQueue := [];
      }
      Record(Swap);
    }

    /** One turn of the worker loop when no other thread gets in between: a request is taken, run and
        put into the finish queue. */
    method WorkRound(ghost w: nat, isExit: bool) returns (stopped: bool)
      requires Valid() && IsAt(s, w, Top) && isExit == (w in s.exits)
      modifies this
      ensures Valid() && stopped == isExit
      ensures IsAt(s, w, if isExit then Stopped else Top) && s.added == old(s).added
      ensures isExit ==> s == Apply(old(s), Check(w))
      ensures !isExit && old(workQueue) == [] ==> s.log == old(s).log && finishQueue == old(finishQueue)
      ensures !isExit && old(workQueue) != [] ==>
                && workQueue == old(workQueue)[1..] && finishQueue == old(finishQueue) + [old(workQueue)[0]]
                && s.log == old(s).log + [OnRequest(old(workQueue)[0])]
    {
      hide Inv, InLine;
      Elsewhere(Check(w));
      if isExit {
        return true;
      }
      stopped := false;
      var request := GetRequest(w);
      if request.Some? {
        Elsewhere(Run(w)); // request->onRequest(db)
        FinishRequest(w, request.value);
      }
    }

    /** update: swaps the finish queue out and calls onFinish on each request in it. */
    method Update()
      requires Valid() && Enabled(s, Swap)
      modifies this
      ensures Valid() && finishQueue == [] && s.batch == [] && workQueue == old(workQueue)
      ensures Finished(s.log) == Finished(old(s).log) + old(finishQueue)
      ensures s == Apply(old(s), Swap).(batch := [], log := s.log)
    {
      hide Inv, InLine, Finished;
      var tmpQueue := SwapOut();
      for i := 0 to |tmpQueue|
        invariant Valid() && s == Apply(old(s), Swap).(batch := tmpQueue[i..], log := s.log)
        invariant workQueue == old(workQueue)
        invariant Finished(s.log) == Finished(old(s).log) + tmpQueue[..i]
      {
        assert s.batch[0] == tmpQueue[i] && tmpQueue[i..][1..] == tmpQueue[i + 1..];
        FinishedMore(s.log, OnFinish(tmpQueue[i]));
        Elsewhere(Deliver); // request->onFinish()
        assert tmpQueue[..i + 1] == tmpQueue[..i] + [tmpQueue[i]];
      }
      assert tmpQueue[..|tmpQueue|] == tmpQueue;
    }
  }

  /** The local variables of the threads: what each worker carries, and what update is delivering. */
  ghost predicate Remembers(s: State, hand: map<nat, nat>, tmpQueue: seq<nat>) {
    tmpQueue == s.batch && forall w, r :: Carries(s, w, r) ==> w in hand && hand[w] == r
  }

  lemma StillRemembers(s: State, step: Step, hand: map<nat, nat>, tmpQueue: seq<nat>)
    requires Enabled(s, step) && Remembers(s, hand, tmpQueue)
    ensures Remembers(Apply(s, step),
                      if step.Take? && s.work != [] then hand[step.w := s.work[0]] else hand,
                      match step case Swap => s.finish case Deliver => tmpQueue[1..] case _ => tmpQueue)
    ensures Apply(s, step).added == if step.Add? then s.added + 1 else s.added
    ensures step.Finish? ==> step.w in hand && IsAt(s, step.w, Ran(hand[step.w]))
    ensures step.Swap? ==> Apply(s, step).batch == s.finish
    ensures step.Deliver? ==> tmpQueue != []
  {
    var t := Apply(s, step);
    forall w, r | Carries(t, w, r) ensures Carries(s, w, r) || (step == Take(w) && s.work != [] && r == s.work[0]) {
      if step.Take? && w == step.w {
      } else if step.Run? && w == step.w {
        assert Carries(s, w, s.workers[w].r);
      }
    }
    if step.Finish? {
      assert Carries(s, step.w, s.workers[step.w].r);
    }
  }

  /** Drives a new queue through any run of the protocol, whatever the interleaving of its threads:
      the object goes where the protocol goes. */
  method Interleave(steps: seq<Step>) returns (queue: DBQueue)
    requires CanRun(START, steps)
    ensures queue.Valid() && queue.s == RunAll(START, steps)
  {
    hide Inv, InLine, CanRun, RunAll, Apply, Remembers;
    queue := new DBQueue();
    var hand: map<nat, nat>, tmpQueue: seq<nat>, added: nat := map[], [], 0;
    NoSteps(steps);
    for i := 0 to |steps|
      invariant fresh(queue) && queue.Valid()
      invariant CanRun(START, steps[..i]) && queue.s == RunAll(START, steps[..i])
      invariant Remembers(queue.s, hand, tmpQueue) && added == queue.s.added
    {
      RunSplit(START, steps, i);
      StillRemembers(queue.s, steps[i], hand, tmpQueue);
      match steps[i] {
        case Add =>
          queue.AddRequest(added);
          added := added + 1;
        case Take(w) =>
          var request := queue.GetRequest(w);
          if request.Some? { hand := hand[w := request.value]; }
        case Finish(w) =>
          queue.FinishRequest(w, hand[w]);
        case Swap =>
          tmpQueue := queue.SwapOut();
        case Deliver =>
          queue.Elsewhere(Deliver); // request->onFinish()
          tmpQueue := tmpQueue[1..];
        case _ =>
          queue.Elsewhere(steps[i]);
      }
    }
    assert steps[..|steps|] == steps;
  }

  lemma NoSteps(steps: seq<Step>)
    ensures CanRun(START, steps[..0]) && RunAll(START, steps[..0]) == START
    ensures Remembers(START, map[], [])
  {
  }
}
