/**
 What the invariant of the transport gives in every reachable state: first-in first-out order
 within the capacity, one place for every connection, no lost wakeup, and a shutdown that
 ends with every accepted connection closed exactly once.
 */
module QueueSafety {
  import opened RequestQueue
  import opened QueueProtocol

  ghost predicate Reachable(capacity: nat, s: State) {
    exists workers: nat, actions: seq<Action> ::
      0 < workers && IsRun(capacity, Initial(workers), actions) && After(capacity, Initial(workers), actions) == s
  }

  lemma ReachableKeepsInvariant(capacity: nat, s: State)
    requires 0 < capacity && Reachable(capacity, s)
    ensures Invariant(capacity, s)
  {
    hide Invariant;
    var workers: nat, actions: seq<Action> :|
      0 < workers && IsRun(capacity, Initial(workers), actions) && After(capacity, Initial(workers), actions) == s;
    InitialState(capacity, workers);
    RunKeepsInvariant(capacity, Initial(workers), actions);
  }

  // ---------------------------------------------------------------- order and capacity

  /** The queue holds the oldest connections that no worker has taken, in order, within its capacity. */
  lemma QueueIsFifo(capacity: nat, s: State)
    requires 0 < capacity && Reachable(capacity, s)
    ensures |s.queue.contents| <= capacity
    ensures forall i | 0 <= i < |s.taken| :: s.taken[i] == i
    ensures forall i | 0 <= i < |s.queue.contents| :: s.queue.contents[i] == |s.taken| + i
    ensures |s.taken| + |s.queue.contents| <= s.accepted
  {
    ReachableKeepsInvariant(capacity, s);
    var all := s.taken + s.queue.contents + InProducer(s);
    assert all == UpTo(s.accepted);
    forall i | 0 <= i < |s.taken| ensures s.taken[i] == i {
      assert all[i] == s.taken[i];
    }
    forall i | 0 <= i < |s.queue.contents| ensures s.queue.contents[i] == |s.taken| + i {
      assert all[|s.taken| + i] == s.queue.contents[i];
    }
  }

  // ---------------------------------------------------------------- one place each

  /** The connection that the accepting thread has and has not closed. */
  function Pending(p: Producer): multiset<int> {
    match p
    case Holding(c) => multiset{c}
    case AwaitingSpace(c) => multiset{c}
    case Rejected(c) => multiset{c}
    case _ => multiset{}
  }

  /** Everything the transport knows: pending, queued, in a worker's hands, closed. */
  function Places(s: State): multiset<int> {
    Pending(s.producer) + multiset(s.queue.contents) + Hands(s.workers) + multiset(s.closed)
  }

  lemma {:induction false} UpToOccurrences(n: nat, c: int)
    ensures multiset(UpTo(n))[c] == if 0 <= c < n then 1 else 0
  {
    if n > 0 {
      UpToOccurrences(n - 1, c);
      assert UpTo(n) == UpTo(n - 1) + [n - 1];
    }
  }

  lemma PlacesAreAccepted(s: State)
    requires Accounted(s)
    ensures Places(s) == multiset(UpTo(s.accepted))
  {
    hide Hands, UpTo, Busy;
    var t, q, r := multiset(s.taken), multiset(s.queue.contents), multiset(s.refused);
    assert multiset(s.taken + s.queue.contents + InProducer(s)) == t + q + multiset(InProducer(s));
    assert Pending(s.producer) + r == multiset(InProducer(s)) by {
      if s.producer.Holding? || s.producer.AwaitingSpace? || s.producer.Rejected? {
        assert r == multiset{};
      }
    }
    assert Places(s) == Pending(s.producer) + q + (t + r);
  }

  /** Every accepted connection is in exactly one place, once. */
  lemma EveryConnectionInOnePlace(capacity: nat, s: State, c: int)
    requires 0 < capacity && Reachable(capacity, s)
    ensures Pending(s.producer)[c] + multiset(s.queue.contents)[c] + Hands(s.workers)[c] + multiset(s.closed)[c]
         == if 0 <= c < s.accepted then 1 else 0
  {
    ReachableKeepsInvariant(capacity, s);
    PlacesAreAccepted(s);
    UpToOccurrences(s.accepted, c);
    hide Hands, UpTo, Invariant;
    assert Places(s)[c] == Pending(s.producer)[c] + multiset(s.queue.contents)[c] + Hands(s.workers)[c] + multiset(s.closed)[c];
  }

  // ---------------------------------------------------------------- who is refused

  /** Only after a signal a connection is refused, and only the one that the accepting thread has then. */
  predicate RefusesOnlyAtTheEnd(s: State) {
    && |s.refused| <= 1
    && (s.refused != [] || s.producer.Rejected? ==> s.stop)
  }

  lemma StepRefuses(capacity: nat, s: State, a: Action)
    requires Invariant(capacity, s) && RefusesOnlyAtTheEnd(s) && Enabled(capacity, s, a)
    ensures RefusesOnlyAtTheEnd(Apply(capacity, s, a))
  {
    hide Hands, Busy, UpTo, Wake, WakeAll, SomeoneAwake;
  }

  lemma {:induction false} RunRefuses(capacity: nat, s: State, actions: seq<Action>)
    requires Invariant(capacity, s) && RefusesOnlyAtTheEnd(s) && IsRun(capacity, s, actions)
    ensures RefusesOnlyAtTheEnd(After(capacity, s, actions))
    decreases |actions|
  {
    if actions != [] {
      hide Invariant, RefusesOnlyAtTheEnd, Enabled, Apply;
      StepRefuses(capacity, s, actions[0]);
      StepKeepsInvariant(capacity, s, actions[0]);
      RunRefuses(capacity, Apply(capacity, s, actions[0]), actions[1..]);
    }
  }

  lemma ReachableRefuses(capacity: nat, s: State)
    requires 0 < capacity && Reachable(capacity, s)
    ensures RefusesOnlyAtTheEnd(s)
  {
    hide Invariant;
    var workers: nat, actions: seq<Action> :|
      0 < workers && IsRun(capacity, Initial(workers), actions) && After(capacity, Initial(workers), actions) == s;
    InitialState(capacity, workers);
    RunRefuses(capacity, Initial(workers), actions);
  }

  /**
   Without a signal no connection is refused. After one, all but the last accepted connection
   are in the queue or went to a worker, in order, and at most that last one was refused.
   */
  lemma OnlyTheLastIsRefused(capacity: nat, s: State)
    requires 0 < capacity && Reachable(capacity, s)
    ensures !s.stop ==> s.refused == []
    ensures s.taken + s.queue.contents + (if s.refused == [] then PendingList(s.producer) else s.refused) == UpTo(s.accepted)
    ensures |s.refused| <= 1 && |PendingList(s.producer)| <= 1
    ensures s.refused != [] ==> PendingList(s.producer) == []
  {
    ReachableKeepsInvariant(capacity, s);
    ReachableRefuses(capacity, s);
    hide Hands, Busy, UpTo, NoLostWakeup, Reachable;
  }

  /** The same connections in the order of acceptance. */
  function PendingList(p: Producer): seq<int> {
    match p
    case Holding(c) => [c]
    case AwaitingSpace(c) => [c]
    case Rejected(c) => [c]
    case _ => []
  }

  // ---------------------------------------------------------------- no lost wakeup

  /** Actions that a thread takes on its own: no signal, no outcome of accept, no stray wakeup. */
  predicate Internal(a: Action) {
    a.CheckStop? || a.Push? || a.CloseRejected? || a.Stop? || a.Take? || a.Close? || a.Finish? || a.Join?
  }

  lemma AwakeWorkerCanAct(capacity: nat, s: State, w: nat) returns (a: Action)
    requires w < |s.workers| && Awake(s.workers[w])
    ensures Internal(a) && Enabled(capacity, s, a)
  {
    match s.workers[w]
    case Idle => a := Take(w);
    case Serving(_) => a := Close(w);
    case Served => a := Finish(w);
  }

  lemma HolderCanAct(capacity: nat, s: State) returns (a: Action)
    requires s.producer.Holding?
    ensures Internal(a) && Enabled(capacity, s, a)
  {
    a := Push({});
    if PushRegion(capacity, s.queue, s.producer.connection, s.stop).1 == Pushed && !NoneAwaitsWork(s) {
      var w: nat :| w < |s.workers| && s.workers[w] == AwaitingWork;
      a := Push({w});
    }
  }

  /** The server waits for the next client and has nothing left to do. */
  predicate Resting(s: State) {
    s.producer == InAccept && s.queue.contents == [] && forall w | 0 <= w < |s.workers| :: s.workers[w] == AwaitingWork
  }

  /** No thread can move on its own. */
  ghost predicate Stuck(capacity: nat, s: State) {
    forall a | Internal(a) :: !Enabled(capacity, s, a)
  }

  lemma SomebodyCanAct(capacity: nat, s: State) returns (a: Action)
    requires Invariant(capacity, s) && !Resting(s) && s.producer != Done
    ensures Internal(a) && Enabled(capacity, s, a)
  {
    hide Accounted;
    if s.producer == Checking { a := CheckStop; }
    else if s.producer.Holding? { a := HolderCanAct(capacity, s); }
    else if s.producer.Rejected? { a := CloseRejected; }
    else if s.producer == Leaving { a := Stop; }
    else if s.producer == Joining && AllExited(s) { a := Join; }
    else {
      assert SomeoneAwake(s.workers) by {
        if s.producer == InAccept && s.queue.contents == [] {
          var w :| 0 <= w < |s.workers| && s.workers[w] != AwaitingWork;
          assert Awake(s.workers[w]);
        } else if s.producer == Joining {
          var w :| 0 <= w < |s.workers| && s.workers[w] != Exited;
          assert Awake(s.workers[w]);
        }
      }
      var w: nat :| w < |s.workers| && Awake(s.workers[w]);
      a := AwakeWorkerCanAct(capacity, s, w);
    }
  }

  /** Threads are stuck exactly at rest and after the return: no wakeup is lost. */
  lemma NobodySleepsForever(capacity: nat, s: State)
    requires 0 < capacity && Reachable(capacity, s)
    ensures Stuck(capacity, s) <==> Resting(s) || s.producer == Done
  {
    ReachableKeepsInvariant(capacity, s);
    StuckExactly(capacity, s);
  }

  lemma StuckExactly(capacity: nat, s: State)
    requires Invariant(capacity, s)
    ensures Stuck(capacity, s) <==> Resting(s) || s.producer == Done
  {
    hide Accounted;
    if !Resting(s) && s.producer != Done {
      var a := SomebodyCanAct(capacity, s);
    }
  }

  /** A queued connection always has a worker that is not waiting, and who waits for space waits for a full queue. */
  lemma SleepersHaveAReason(capacity: nat, s: State)
    requires 0 < capacity && Reachable(capacity, s)
    ensures s.queue.contents != [] ==> exists w | 0 <= w < |s.workers| :: s.workers[w] != AwaitingWork && s.workers[w] != Exited
    ensures s.producer.AwaitingSpace? ==> |s.queue.contents| == capacity && !s.queue.stopping
    ensures s.queue.stopping ==> NoneAwaitsWork(s)
  {
    ReachableKeepsInvariant(capacity, s);
    hide Accounted;
    if s.queue.contents != [] {
      var w :| 0 <= w < |s.workers| && Awake(s.workers[w]);
      assert s.workers[w] != AwaitingWork && s.workers[w] != Exited;
    }
  }

  // ---------------------------------------------------------------- shutdown

  function Steps(pc: Worker): nat {
    match pc
    case Serving(_) => 3
    case Served => 2
    case Idle => 1
    case AwaitingWork => 0
    case Exited => 0
  }

  function StepsOf(workers: seq<Worker>): nat {
    if workers == [] then 0 else StepsOf(workers[..|workers| - 1]) + Steps(workers[|workers| - 1])
  }

  lemma {:induction false} UpdateSteps(workers: seq<Worker>, w: nat, pc: Worker)
    requires w < |workers|
    ensures StepsOf(workers[w := pc]) + Steps(workers[w]) == StepsOf(workers) + Steps(pc)
    decreases |workers|
  {
    var last := |workers| - 1;
    if w == last {
      assert workers[w := pc][..last] == workers[..last];
    } else {
      assert workers[w := pc][..last] == workers[..last][w := pc];
      UpdateSteps(workers[..last], w, pc);
    }
  }

  lemma {:induction false} WakeAllSteps(workers: seq<Worker>)
    ensures StepsOf(WakeAll(workers)) <= StepsOf(workers) + |workers|
  {
    if workers != [] {
      var last := |workers| - 1;
      assert WakeAll(workers)[..last] == WakeAll(workers[..last]);
      WakeAllSteps(workers[..last]);
    }
  }

  lemma {:induction false} WakeSteps(workers: seq<Worker>, woken: set<nat>)
    requires forall w <- woken :: w < |workers| ==> workers[w] == AwaitingWork
    ensures StepsOf(Wake(workers, woken)) <= StepsOf(workers) + |workers|
  {
    if workers != [] {
      var last := |workers| - 1;
      assert Wake(workers, woken)[..last] == Wake(workers[..last], woken);
      WakeSteps(workers[..last], woken);
    }
  }

  /**
   The way that the accepting thread still has to go, to the next `accept` or to its end. What
   it puts into the queue and whom it wakes on that way is counted with it.
   */
  function Way(p: Producer, workers: nat): nat {
    match p
    case AwaitingSpace(_) => 2 * workers + 7
    case Holding(_) => 2 * workers + 8
    case Rejected(_) => workers + 3
    case Checking => workers + 3
    case Leaving => workers + 2
    case Joining => 1
    case Done => 0
    case InAccept => 0
  }

  /** How many actions the threads can take on their own, at most. */
  function Remaining(s: State): nat {
    4 * |s.queue.contents| + StepsOf(s.workers) + Way(s.producer, |s.workers|)
  }

  /** The stop is on its way: the accepting thread is out of its loop, or will see the flag before it accepts again. */
  predicate Ending(s: State) {
    s.producer.Leaving? || s.producer.Joining? || s.producer.Done? || (s.stop && s.producer != InAccept)
  }

  predicate AllInternal(actions: seq<Action>) {
    forall i | 0 <= i < |actions| :: Internal(actions[i])
  }

  lemma WorkerStep(capacity: nat, s: State, a: Action)
    requires Enabled(capacity, s, a) && (a.Take? || a.Close? || a.Finish?)
    ensures Remaining(Apply(capacity, s, a)) < Remaining(s)
  {
    hide StepsOf;
    var next := Apply(capacity, s, a);
    UpdateSteps(s.workers, a.worker, next.workers[a.worker]);
  }

  lemma PushStep(capacity: nat, s: State, woken: set<nat>)
    requires Enabled(capacity, s, Push(woken))
    ensures Remaining(Apply(capacity, s, Push(woken))) < Remaining(s)
  {
    hide StepsOf;
    WakeSteps(s.workers, woken);
  }

  /** Every action of a thread uses up some of what remains; an ending stays one, and `accept` is left only from outside. */
  lemma InternalStep(capacity: nat, s: State, a: Action)
    requires Invariant(capacity, s) && Enabled(capacity, s, a) && Internal(a)
    ensures var next := Apply(capacity, s, a);
      && Remaining(next) < Remaining(s) && next.accepted == s.accepted
      && (Ending(s) ==> Ending(next))
      && (s.producer == InAccept ==> next.producer == InAccept)
  {
    hide Accounted, StepsOf;
    if a.Take? || a.Close? || a.Finish? {
      WorkerStep(capacity, s, a);
    } else if a.Push? {
      PushStep(capacity, s, a.woken);
    } else if a.Stop? {
      WakeAllSteps(s.workers);
    }
  }

  /** From any state, no schedule of the threads alone is longer than `Remaining`. */
  lemma {:induction false} EveryScheduleEnds(capacity: nat, s: State, actions: seq<Action>)
    requires Invariant(capacity, s) && IsRun(capacity, s, actions) && AllInternal(actions)
    ensures var last := After(capacity, s, actions);
      && |actions| + Remaining(last) <= Remaining(s) && last.accepted == s.accepted && Invariant(capacity, last)
      && (Ending(s) ==> Ending(last))
      && (s.producer == InAccept ==> last.producer == InAccept)
    decreases |actions|
  {
    if actions != [] {
      hide Invariant, Remaining, Ending, Enabled, Apply;
      InternalStep(capacity, s, actions[0]);
      StepKeepsInvariant(capacity, s, actions[0]);
      EveryScheduleEnds(capacity, Apply(capacity, s, actions[0]), actions[1..]);
    }
  }

  /** Some schedule goes on until all threads are stuck. */
  lemma {:induction false} RunUntilStuck(capacity: nat, s: State) returns (actions: seq<Action>)
    requires Invariant(capacity, s)
    ensures IsRun(capacity, s, actions) && AllInternal(actions) && Stuck(capacity, After(capacity, s, actions))
    decreases Remaining(s)
  {
    actions := [];
    if !Stuck(capacity, s) {
      hide Invariant, Remaining, Ending, Apply;
      var a :| Internal(a) && Enabled(capacity, s, a);
      InternalStep(capacity, s, a);
      StepKeepsInvariant(capacity, s, a);
      var rest := RunUntilStuck(capacity, Apply(capacity, s, a));
      actions := [a] + rest;
      assert actions[1..] == rest;
    }
  }

  lemma {:induction false} NobodyServes(workers: seq<Worker>)
    requires forall w | 0 <= w < |workers| :: workers[w] == AwaitingWork || workers[w] == Exited
    ensures Hands(workers) == multiset{} && Busy(workers) == 0
  {
    if workers != [] {
      NobodyServes(workers[..|workers| - 1]);
    }
  }

  lemma OnlyClosed(s: State)
    requires s.producer == Done || s.producer == InAccept
    requires s.queue.contents == [] && Hands(s.workers) == multiset{}
    ensures Places(s) == multiset(s.closed)
  {
    hide Hands;
  }

  /** When all threads are stuck, at rest or after the return, every accepted connection is closed, once. */
  lemma StuckHasClosedAll(capacity: nat, s: State)
    requires Invariant(capacity, s) && Stuck(capacity, s)
    ensures s.queue.contents == [] && s.queue.active == 0 && multiset(s.closed) == multiset(UpTo(s.accepted))
  {
    StuckExactly(capacity, s);
    hide Hands, UpTo, Busy, Places, Stuck;
    assert forall w | 0 <= w < |s.workers| :: s.workers[w] == AwaitingWork || s.workers[w] == Exited;
    NobodyServes(s.workers);
    if s.producer == Done { assert s.workers[0] == Exited; }
    PlacesAreAccepted(s);
    OnlyClosed(s);
  }

  /**
   Without new arrivals the server comes to rest or returns, whatever the schedule, and has
   then closed every connection that it had accepted, each exactly once.
   */
  lemma AllServedWithoutArrivals(capacity: nat, s: State, actions: seq<Action>)
    requires 0 < capacity && Reachable(capacity, s) && IsRun(capacity, s, actions) && AllInternal(actions)
    ensures |actions| <= Remaining(s)
    ensures var last := After(capacity, s, actions);
      Stuck(capacity, last) ==>
        && (Resting(last) || last.producer == Done)
        && last.queue.contents == [] && multiset(last.closed) == multiset(UpTo(s.accepted))
  {
    ReachableKeepsInvariant(capacity, s);
    hide Invariant, Remaining, Stuck, UpTo, Resting;
    EveryScheduleEnds(capacity, s, actions);
    var last := After(capacity, s, actions);
    if Stuck(capacity, last) {
      StuckExactly(capacity, last);
      StuckHasClosedAll(capacity, last);
    }
  }

  /** Every schedule of the threads alone that cannot be extended ends with the return of the transport. */
  ghost predicate ShutdownIsCertain(capacity: nat, s: State) {
    forall actions | IsRun(capacity, s, actions) && AllInternal(actions) && Stuck(capacity, After(capacity, s, actions)) ::
      After(capacity, s, actions).producer == Done
  }

  /**
   Once a signal has come, the shutdown is certain exactly if the accepting thread is not in
   `accept`. If it is, only a new client, an interruption or an error of `accept` leads on.
   */
  lemma ShutdownIsCertainExactly(capacity: nat, s: State)
    requires 0 < capacity && Reachable(capacity, s) && s.stop
    ensures ShutdownIsCertain(capacity, s) <==> s.producer != InAccept
  {
    ReachableKeepsInvariant(capacity, s);
    hide Invariant, Remaining;
    if s.producer == InAccept {
      var actions := RunUntilStuck(capacity, s);
      EveryScheduleEnds(capacity, s, actions);
      assert After(capacity, s, actions).producer != Done;
    } else {
      forall actions | IsRun(capacity, s, actions) && AllInternal(actions) && Stuck(capacity, After(capacity, s, actions))
        ensures After(capacity, s, actions).producer == Done
      {
        EveryScheduleEnds(capacity, s, actions);
        StuckExactly(capacity, After(capacity, s, actions));
      }
    }
  }

  const LOST_SIGNAL: seq<Action> := [CheckStop, Signal, Take(0)]

  lemma LostSignalRun(capacity: nat) returns (s: State)
    ensures IsRun(capacity, Initial(1), LOST_SIGNAL) && After(capacity, Initial(1), LOST_SIGNAL) == s
    ensures s.stop && s.producer == InAccept && Resting(s)
  {
    var run := LOST_SIGNAL;
    var checked := Apply(capacity, Initial(1), CheckStop);
    var signalled := Apply(capacity, checked, Signal);
    assert run[1..] == [Signal, Take(0)] && run[1..][1..] == [Take(0)] && run[1..][1..][1..] == [];
    assert IsRun(capacity, signalled, [Take(0)]) && IsRun(capacity, checked, [Signal, Take(0)]);
    s := Apply(capacity, signalled, Take(0));
    assert After(capacity, signalled, [Take(0)]) == s;
    assert After(capacity, checked, [Signal, Take(0)]) == s;
  }

  /** The input that defeats the shutdown: one worker, and a signal between the check of the flag and `accept`. */
  lemma SignalBeforeAcceptIsLost(capacity: nat)
    requires 0 < capacity
    ensures IsRun(capacity, Initial(1), LOST_SIGNAL)
    ensures var s := After(capacity, Initial(1), LOST_SIGNAL);
      Reachable(capacity, s) && s.stop && s.producer != Done && Stuck(capacity, s) && !ShutdownIsCertain(capacity, s)
  {
    var s := LostSignalRun(capacity);
    hide IsRun, After, Stuck, ShutdownIsCertain, Resting;
    assert Reachable(capacity, s);
    NobodySleepsForever(capacity, s);
    ShutdownIsCertainExactly(capacity, s);
  }

  /** When the transport returns, it has closed every connection it accepted, each exactly once. */
  lemma AllClosedAtTheEnd(capacity: nat, s: State)
    requires 0 < capacity && Reachable(capacity, s) && s.producer == Done
    ensures s.queue.contents == [] && s.queue.active == 0
    ensures multiset(s.closed) == multiset(UpTo(s.accepted))
    ensures forall c | 0 <= c < s.accepted :: multiset(s.closed)[c] == 1
  {
    hide Invariant, UpTo, Stuck;
    ReachableKeepsInvariant(capacity, s);
    StuckExactly(capacity, s);
    StuckHasClosedAll(capacity, s);
    forall c | 0 <= c < s.accepted ensures multiset(s.closed)[c] == 1 {
      UpToOccurrences(s.accepted, c);
    }
  }

  /** When the transport returns, every accepted connection went to a worker, but after a signal at most the last one. */
  lemma AllServedAtTheEnd(capacity: nat, s: State)
    requires 0 < capacity && Reachable(capacity, s) && s.producer == Done
    ensures s.taken == UpTo(s.accepted) || (s.stop && s.accepted > 0 && s.taken == UpTo(s.accepted - 1))
  {
    hide Invariant, UpTo, Stuck;
    AllClosedAtTheEnd(capacity, s);
    OnlyTheLastIsRefused(capacity, s);
    var served := s.taken + s.queue.contents;
    assert served == s.taken;
    if s.refused == [] {
      assert served + [] == s.taken;
    } else {
      WithoutLast(s.taken, s.refused, s.accepted);
    }
  }

  lemma WithoutLast(served: seq<int>, last: seq<int>, n: nat)
    requires served + last == UpTo(n) && |last| == 1
    ensures n > 0 && served == UpTo(n - 1)
  {
    assert |served + last| == n;
    assert served == (served + last)[..n - 1] == UpTo(n)[..n - 1];
  }
}
