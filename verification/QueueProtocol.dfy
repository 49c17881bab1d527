/**
 The transport as a concurrent protocol: one producer that accepts connections, any number
 of workers, the condition variables `available` and `space` as explicit sets of waiting
 threads, a signal that may arrive at any time, and the draining shutdown. A step is one
 lock region or one action between lock regions; a signal wakes at least one waiter, and
 waiters may also wake for no reason. Connections are named by their place in the order
 in which they were accepted, since the system reuses descriptors after a close.
 */
module QueueProtocol {
  import opened RequestQueue

  datatype Producer =
    | Checking                       // at the loop head, about to read the stop flag
    | InAccept                       // blocked in accept()
    | Holding(connection: int)       // about to lock in push
    | AwaitingSpace(connection: int) // in the wait set of `space`
    | Rejected(connection: int)      // push refused it; about to close it
    | Leaving                        // out of the loop, about to lock and stop
    | Joining                        // waiting for the workers to end
    | Done

  datatype Worker =
    | Idle                           // about to lock
    | AwaitingWork                   // in the wait set of `available`
    | Serving(connection: int)       // outside the lock with a connection
    | Served                         // connection closed, about to lock again
    | Exited

  datatype State = State(
    queue: Queue,
    stop: bool,
    producer: Producer,
    workers: seq<Worker>,
    accepted: nat,
    taken: seq<int>,                 // what the workers took, in that order
    refused: seq<int>,               // what the producer closed itself
    closed: seq<int>)                // every close, in that order

  datatype Action =
    | Signal
    | CheckStop
    | Accept
    | AcceptInterrupted
    | AcceptFails
    | Push(woken: set<nat>)
    | ProducerWakes
    | CloseRejected
    | Stop
    | Take(worker: nat)
    | WorkerWakes(worker: nat)
    | Close(worker: nat)
    | Finish(worker: nat)
    | Join

  function Initial(workers: nat): State {
    State(Queue([], 0, false), false, Checking, seq(workers, _ => Idle), 0, [], [], [])
  }

  predicate At(s: State, w: nat, pc: Worker) {
    w < |s.workers| && s.workers[w] == pc
  }

  predicate NoneAwaitsWork(s: State) {
    forall w | 0 <= w < |s.workers| :: s.workers[w] != AwaitingWork
  }

  predicate AllExited(s: State) {
    forall w | 0 <= w < |s.workers| :: s.workers[w] == Exited
  }

  /** Whether an action is possible. The actions of the environment are the signal, the results of accept and the stray wakeups. */
  predicate Enabled(capacity: nat, s: State, a: Action) {
    match a
    case Signal => true
    case CheckStop => s.producer == Checking
    case Accept => s.producer == InAccept
    case AcceptInterrupted => s.producer == InAccept
    case AcceptFails => s.producer == InAccept
    case Push(woken) =>
      && s.producer.Holding?
      && (forall w <- woken :: At(s, w, AwaitingWork))
      && (PushRegion(capacity, s.queue, s.producer.connection, s.stop).1 == Pushed ==> woken != {} || NoneAwaitsWork(s))
      && (PushRegion(capacity, s.queue, s.producer.connection, s.stop).1 != Pushed ==> woken == {})
    case ProducerWakes => s.producer.AwaitingSpace?
    case CloseRejected => s.producer.Rejected?
    case Stop => s.producer == Leaving
    case Take(w) => At(s, w, Idle)
    case WorkerWakes(w) => At(s, w, AwaitingWork)
    case Close(w) => w < |s.workers| && s.workers[w].Serving?
    case Finish(w) => At(s, w, Served)
    case Join => s.producer == Joining && AllExited(s)
  }

  function Wake(workers: seq<Worker>, woken: set<nat>): (r: seq<Worker>)
    ensures |r| == |workers|
  {
    seq(|workers|, w requires 0 <= w < |workers| => if w in woken then Idle else workers[w])
  }

  function WakeAll(workers: seq<Worker>): (r: seq<Worker>)
    ensures |r| == |workers|
  {
    seq(|workers|, w requires 0 <= w < |workers| => if workers[w] == AwaitingWork then Idle else workers[w])
  }

  function SignalSpace(p: Producer): Producer {
    if p.AwaitingSpace? then Holding(p.connection) else p
  }

  function Apply(capacity: nat, s: State, a: Action): State
    requires Enabled(capacity, s, a)
  {
    match a
    case Signal => s.(stop := true)
    case CheckStop => s.(producer := if s.stop then Leaving else InAccept)
    case Accept => s.(producer := Holding(s.accepted), accepted := s.accepted + 1)
    case AcceptInterrupted => s.(producer := Checking)
    case AcceptFails => s.(producer := Leaving)
    case Push(woken) =>
      var c := s.producer.connection;
      var r := PushRegion(capacity, s.queue, c, s.stop);
      (match r.1
       case MustWait => s.(producer := AwaitingSpace(c))
       case Refused => s.(producer := Rejected(c))
       case Pushed => s.(queue := r.0, producer := Checking, workers := Wake(s.workers, woken)))
    case ProducerWakes => s.(producer := Holding(s.producer.connection))
    case CloseRejected =>
      s.(producer := Leaving, refused := s.refused + [s.producer.connection], closed := s.closed + [s.producer.connection])
    case Stop =>
      s.(queue := s.queue.(stopping := true), producer := Joining, workers := WakeAll(s.workers))
    case Take(w) =>
      var r := TakeRegion(s.queue);
      (match r.1
       case NoWork => s.(workers := s.workers[w := AwaitingWork])
       case Finished => s.(workers := s.workers[w := Exited])
       case Took(c) =>
         s.(queue := r.0, workers := s.workers[w := Serving(c)],
            taken := s.taken + [c], producer := SignalSpace(s.producer)))
    case WorkerWakes(w) => s.(workers := s.workers[w := Idle])
    case Close(w) => s.(workers := s.workers[w := Served], closed := s.closed + [s.workers[w].connection])
    case Finish(w) => s.(queue := s.queue.(active := s.queue.active - 1), workers := s.workers[w := Idle])
    case Join => s.(producer := Done)
  }

  // ---------------------------------------------------------------- runs

  ghost predicate IsRun(capacity: nat, s: State, actions: seq<Action>)
    decreases |actions|
  {
    actions == [] || (Enabled(capacity, s, actions[0]) && IsRun(capacity, Apply(capacity, s, actions[0]), actions[1..]))
  }

  ghost function After(capacity: nat, s: State, actions: seq<Action>): State
    requires IsRun(capacity, s, actions)
    decreases |actions|
  {
    if actions == [] then s else After(capacity, Apply(capacity, s, actions[0]), actions[1..])
  }

  // ---------------------------------------------------------------- bookkeeping over the workers

  function One(pc: Worker): multiset<int> {
    if pc.Serving? then multiset{pc.connection} else multiset{}
  }

  /** The connections in the hands of the workers. */
  function Hands(workers: seq<Worker>): multiset<int> {
    if workers == [] then multiset{} else Hands(workers[..|workers| - 1]) + One(workers[|workers| - 1])
  }

  function Weight(pc: Worker): nat {
    if pc.Serving? || pc.Served? then 1 else 0
  }

  /** How many workers are between taking a connection and reporting it done. */
  function Busy(workers: seq<Worker>): nat {
    if workers == [] then 0 else Busy(workers[..|workers| - 1]) + Weight(workers[|workers| - 1])
  }

  lemma Rearrange(a: multiset<int>, b: multiset<int>, c: multiset<int>, d: multiset<int>, e: multiset<int>)
    requires a + b == c + d
    ensures (a + e) + b == (c + e) + d
  {
    assert (a + e) + b == (a + b) + e && (c + e) + d == (c + d) + e;
  }

  lemma BookTake(a: multiset<int>, b: multiset<int>, c: multiset<int>, d: multiset<int>, e: multiset<int>)
    requires a + b == c + d
    ensures a + (b + e) == (c + e) + d
  {
    Rearrange(a, b, c, d, e);
    assert a + (b + e) == (a + e) + b;
  }

  lemma {:induction false} UpdateHands(workers: seq<Worker>, w: nat, pc: Worker)
    requires w < |workers|
    ensures Hands(workers[w := pc]) + One(workers[w]) == Hands(workers) + One(pc)
    decreases |workers|
  {
    hide One;
    var last := |workers| - 1;
    if w == last {
      assert workers[w := pc][..last] == workers[..last];
    } else {
      assert workers[w := pc][..last] == workers[..last][w := pc];
      UpdateHands(workers[..last], w, pc);
      Rearrange(Hands(workers[..last][w := pc]), One(workers[w]), Hands(workers[..last]), One(pc), One(workers[last]));
    }
  }

  lemma {:induction false} UpdateBusy(workers: seq<Worker>, w: nat, pc: Worker)
    requires w < |workers|
    ensures Busy(workers[w := pc]) + Weight(workers[w]) == Busy(workers) + Weight(pc)
    decreases |workers|
  {
    var last := |workers| - 1;
    if w == last {
      assert workers[w := pc][..last] == workers[..last];
    } else {
      assert workers[w := pc][..last] == workers[..last][w := pc];
      UpdateBusy(workers[..last], w, pc);
    }
  }

  /** What a change of one worker does to the books. */
  lemma UpdateWorker(workers: seq<Worker>, w: nat, pc: Worker)
    requires w < |workers|
    ensures !workers[w].Serving? && !pc.Serving? ==> Hands(workers[w := pc]) == Hands(workers)
    ensures !workers[w].Serving? && pc.Serving? ==> Hands(workers[w := pc]) == Hands(workers) + multiset{pc.connection}
    ensures workers[w].Serving? && !pc.Serving? ==> Hands(workers[w := pc]) + multiset{workers[w].connection} == Hands(workers)
    ensures Busy(workers[w := pc]) + Weight(workers[w]) == Busy(workers) + Weight(pc)
  {
    hide Hands;
    UpdateHands(workers, w, pc);
    UpdateBusy(workers, w, pc);
    var before, after := Hands(workers), Hands(workers[w := pc]);
    assert before + multiset{} == before && after + multiset{} == after;
  }

  /** Waking changes neither hands nor weights. */
  lemma {:induction false} SameLoad(a: seq<Worker>, b: seq<Worker>)
    requires |a| == |b| && forall w | 0 <= w < |a| :: a[w] == b[w] || (a[w] == AwaitingWork && b[w] == Idle)
    ensures Hands(a) == Hands(b) && Busy(a) == Busy(b)
    decreases |a|
  {
    if a != [] {
      SameLoad(a[..|a| - 1], b[..|b| - 1]);
    }
  }

  // ---------------------------------------------------------------- the invariant

  function UpTo(n: nat): seq<int> {
    seq(n, i => i)
  }

  /** The connection that the producer still has, or the one that it closed itself. */
  function InProducer(s: State): seq<int> {
    match s.producer
    case Holding(c) => [c]
    case AwaitingSpace(c) => [c]
    case Rejected(c) => [c]
    case _ => s.refused
  }

  predicate Awake(pc: Worker) {
    pc != AwaitingWork && pc != Exited
  }

  ghost predicate SomeoneAwake(workers: seq<Worker>) {
    exists w | 0 <= w < |workers| :: Awake(workers[w])
  }

  /** Every connection is in one place, and the places are in the order of acceptance. */
  ghost predicate Accounted(s: State) {
    && s.taken + s.queue.contents + InProducer(s) == UpTo(s.accepted)
    && multiset(s.closed) + Hands(s.workers) == multiset(s.taken) + multiset(s.refused)
    && (s.refused != [] ==> s.producer.Leaving? || s.producer.Joining? || s.producer.Done?)
    && s.queue.active == Busy(s.workers)
  }

  /** Nobody sleeps through a reason to wake up. */
  ghost predicate NoLostWakeup(capacity: nat, s: State) {
    && |s.queue.contents| <= capacity
    && (s.queue.stopping <==> s.producer.Joining? || s.producer.Done?)
    && (s.queue.stopping ==> NoneAwaitsWork(s))
    && (s.producer.AwaitingSpace? ==> |s.queue.contents| == capacity)
    && (s.queue.contents != [] ==> SomeoneAwake(s.workers))
    && (forall w | 0 <= w < |s.workers| && s.workers[w] == Exited :: s.queue.stopping && s.queue.contents == [])
    && (s.producer.Done? ==> AllExited(s))
  }

  ghost predicate Invariant(capacity: nat, s: State) {
    0 < capacity && s.workers != [] && Accounted(s) && NoLostWakeup(capacity, s)
  }

  lemma InitialState(capacity: nat, workers: nat)
    requires 0 < capacity && 0 < workers
    ensures Invariant(capacity, Initial(workers))
  {
    SameLoad(Initial(workers).workers, Initial(workers).workers);
    IdleLoad(workers);
  }

  lemma {:induction false} IdleLoad(n: nat)
    ensures Hands(seq(n, _ => Idle)) == multiset{} && Busy(seq(n, _ => Idle)) == 0
  {
    if n > 0 {
      assert seq(n, _ => Idle)[..n - 1] == seq(n - 1, _ => Idle);
      IdleLoad(n - 1);
    }
  }

  lemma OrderPush(taken: seq<int>, contents: seq<int>, c: int)
    ensures taken + (contents + [c]) + [] == taken + contents + [c]
  {
  }

  lemma OrderTake(taken: seq<int>, contents: seq<int>, last: seq<int>)
    requires contents != []
    ensures (taken + [contents[0]]) + contents[1..] + last == taken + contents + last
  {
    assert contents == [contents[0]] + contents[1..];
    assert (taken + [contents[0]]) + contents[1..] == taken + contents;
  }

  lemma PushKeepsAccounted(capacity: nat, s: State, woken: set<nat>)
    requires Invariant(capacity, s) && Enabled(capacity, s, Push(woken))
    ensures Accounted(Apply(capacity, s, Push(woken)))
  {
    hide NoLostWakeup, Busy, Hands, UpTo;
    if PushRegion(capacity, s.queue, s.producer.connection, s.stop).1 == Pushed {
      SameLoad(s.workers, Wake(s.workers, woken));
      OrderPush(s.taken, s.queue.contents, s.producer.connection);
    }
  }

  lemma PushKeepsWakeups(capacity: nat, s: State, woken: set<nat>)
    requires Invariant(capacity, s) && Enabled(capacity, s, Push(woken))
    ensures NoLostWakeup(capacity, Apply(capacity, s, Push(woken)))
  {
    hide Accounted;
    var next := Apply(capacity, s, Push(woken));
    if PushRegion(capacity, s.queue, s.producer.connection, s.stop).1 == Pushed {
      if woken != {} {
        var w :| w in woken;
        assert At(s, w, AwaitingWork) && Awake(next.workers[w]);
      } else {
        assert next.workers[0] == s.workers[0] && Awake(s.workers[0]);
      }
    }
  }

  lemma StopKeepsInvariant(capacity: nat, s: State)
    requires Invariant(capacity, s) && Enabled(capacity, s, Stop)
    ensures Invariant(capacity, Apply(capacity, s, Stop))
  {
    hide Busy, Hands;
    var woken := WakeAll(s.workers);
    SameLoad(s.workers, woken);
    if s.queue.contents != [] {
      var w :| 0 <= w < |s.workers| && Awake(s.workers[w]);
      assert Awake(woken[w]);
    }
  }

  lemma TookKeepsAccounted(capacity: nat, s: State, w: nat)
    requires Invariant(capacity, s) && Enabled(capacity, s, Take(w)) && s.queue.contents != []
    ensures Accounted(Apply(capacity, s, Take(w)))
  {
    hide NoLostWakeup, Busy, Hands, UpTo;
    var c := s.queue.contents[0];
    UpdateWorker(s.workers, w, Serving(c));
    OrderTake(s.taken, s.queue.contents, InProducer(s));
    assert multiset(s.taken + [c]) == multiset(s.taken) + multiset{c};
    BookTake(multiset(s.closed), Hands(s.workers), multiset(s.taken), multiset(s.refused), multiset{c});
  }

  lemma TakeKeepsAccounted(capacity: nat, s: State, w: nat)
    requires Invariant(capacity, s) && Enabled(capacity, s, Take(w))
    ensures Accounted(Apply(capacity, s, Take(w)))
  {
    hide NoLostWakeup, Busy, Hands, UpTo;
    if s.queue.contents != [] {
      TookKeepsAccounted(capacity, s, w);
    } else {
      UpdateWorker(s.workers, w, if s.queue.stopping then Exited else AwaitingWork);
    }
  }

  lemma TakeKeepsWakeups(capacity: nat, s: State, w: nat)
    requires Invariant(capacity, s) && Enabled(capacity, s, Take(w))
    ensures NoLostWakeup(capacity, Apply(capacity, s, Take(w)))
  {
    hide Accounted;
    var next := Apply(capacity, s, Take(w));
    if TakeRegion(s.queue).1.Took? {
      assert Awake(next.workers[w]);
    }
  }

  lemma ReturnKeepsAccounted(capacity: nat, s: State, a: Action)
    requires Invariant(capacity, s) && Enabled(capacity, s, a) && (a.WorkerWakes? || a.Close? || a.Finish?)
    ensures Accounted(Apply(capacity, s, a))
  {
    hide NoLostWakeup, Busy, Hands;
    var next := Apply(capacity, s, a);
    UpdateWorker(s.workers, a.worker, next.workers[a.worker]);
    if a.Close? {
      var c := s.workers[a.worker].connection;
      assert multiset(s.closed + [c]) == multiset(s.closed) + multiset{c};
      assert (multiset(s.closed) + multiset{c}) + Hands(next.workers) == multiset(s.closed) + (Hands(next.workers) + multiset{c});
    }
  }

  lemma ReturnKeepsWakeups(capacity: nat, s: State, a: Action)
    requires Invariant(capacity, s) && Enabled(capacity, s, a) && (a.WorkerWakes? || a.Close? || a.Finish?)
    ensures NoLostWakeup(capacity, Apply(capacity, s, a))
  {
    hide Accounted;
    var next := Apply(capacity, s, a);
    assert Awake(next.workers[a.worker]);
  }

  predicate ByProducer(a: Action) {
    a.Signal? || a.CheckStop? || a.Accept? || a.AcceptInterrupted? || a.AcceptFails? || a.ProducerWakes? || a.CloseRejected? || a.Join?
  }

  lemma AcceptKeepsAccounted(capacity: nat, s: State)
    requires Invariant(capacity, s) && Enabled(capacity, s, Accept)
    ensures Accounted(Apply(capacity, s, Accept))
  {
    hide NoLostWakeup, Busy, Hands;
    assert UpTo(s.accepted + 1) == UpTo(s.accepted) + [s.accepted];
    assert s.taken + s.queue.contents + [] == s.taken + s.queue.contents;
  }

  lemma BookReject(closed: seq<int>, c: int, hands: multiset<int>, taken: multiset<int>, refused: seq<int>)
    requires multiset(closed) + hands == taken + multiset(refused)
    ensures multiset(closed + [c]) + hands == taken + multiset(refused + [c])
  {
    assert multiset(closed + [c]) == multiset(closed) + multiset{c};
    assert multiset(refused + [c]) == multiset(refused) + multiset{c};
    Rearrange(multiset(closed), hands, taken, multiset(refused), multiset{c});
    assert (taken + multiset{c}) + multiset(refused) == taken + (multiset(refused) + multiset{c});
  }

  lemma RejectKeepsAccounted(capacity: nat, s: State)
    requires Invariant(capacity, s) && Enabled(capacity, s, CloseRejected)
    ensures Accounted(Apply(capacity, s, CloseRejected))
  {
    hide NoLostWakeup, Busy, Hands, UpTo;
    var c := s.producer.connection;
    BookReject(s.closed, c, Hands(s.workers), multiset(s.taken), s.refused);
    var next := Apply(capacity, s, CloseRejected);
    assert InProducer(next) == InProducer(s);
  }

  lemma ProducerKeepsAccounted(capacity: nat, s: State, a: Action)
    requires Invariant(capacity, s) && Enabled(capacity, s, a) && ByProducer(a)
    ensures Accounted(Apply(capacity, s, a))
  {
    if a.Accept? {
      AcceptKeepsAccounted(capacity, s);
    } else if a.CloseRejected? {
      RejectKeepsAccounted(capacity, s);
    } else {
      MoveKeepsAccounted(capacity, s, a);
    }
  }

  lemma MoveKeepsAccounted(capacity: nat, s: State, a: Action)
    requires Invariant(capacity, s) && Enabled(capacity, s, a) && ByProducer(a) && !a.Accept? && !a.CloseRejected?
    ensures Accounted(Apply(capacity, s, a))
  {
    hide NoLostWakeup, Busy, Hands, UpTo;
    var next := Apply(capacity, s, a);
    assert InProducer(next) == InProducer(s);
    assert next == s.(producer := next.producer, stop := next.stop);
  }

  lemma ProducerKeepsWakeups(capacity: nat, s: State, a: Action)
    requires Invariant(capacity, s) && Enabled(capacity, s, a) && ByProducer(a)
    ensures NoLostWakeup(capacity, Apply(capacity, s, a))
  {
    hide Accounted;
  }

  /** Every action of every thread keeps the invariant. */
  lemma StepKeepsInvariant(capacity: nat, s: State, a: Action)
    requires Invariant(capacity, s) && Enabled(capacity, s, a)
    ensures Invariant(capacity, Apply(capacity, s, a))
  {
    hide Accounted, NoLostWakeup;
    if a.Push? {
      PushKeepsAccounted(capacity, s, a.woken);
      PushKeepsWakeups(capacity, s, a.woken);
    } else if a.Stop? {
      StopKeepsInvariant(capacity, s);
    } else if a.Take? {
      TakeKeepsAccounted(capacity, s, a.worker);
      TakeKeepsWakeups(capacity, s, a.worker);
    } else if a.WorkerWakes? || a.Close? || a.Finish? {
      ReturnKeepsAccounted(capacity, s, a);
      ReturnKeepsWakeups(capacity, s, a);
    } else {
      ProducerKeepsAccounted(capacity, s, a);
      ProducerKeepsWakeups(capacity, s, a);
    }
  }

  /** Hence every state of every run satisfies it. */
  lemma {:induction false} RunKeepsInvariant(capacity: nat, s: State, actions: seq<Action>)
    requires Invariant(capacity, s) && IsRun(capacity, s, actions)
    ensures Invariant(capacity, After(capacity, s, actions))
    decreases |actions|
  {
    if actions != [] {
      StepKeepsInvariant(capacity, s, actions[0]);
      RunKeepsInvariant(capacity, Apply(capacity, s, actions[0]), actions[1..]);
    }
  }
}
