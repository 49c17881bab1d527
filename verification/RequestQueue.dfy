/**
 The bounded ring of accepted connections, one lock region at a time: what each region does
 to the queue, and the ring with `head`, `tail` and `count` that implements it.
 */
module RequestQueue {

  /** What the mutex protects, with the ring read as a sequence. */
  datatype Queue = Queue(contents: seq<int>, active: int, stopping: bool)

  datatype PushOutcome = MustWait | Refused | Pushed

  datatype TakeOutcome = NoWork | Finished | Took(fd: int)

  /** `worker_count * 4`, at least 16. */
  function Capacity(workerCount: nat): (capacity: nat)
    ensures capacity >= 16 && capacity >= 4 * workerCount && (capacity == 16 || capacity == 4 * workerCount)
  {
    if workerCount * 4 < 16 then 16 else workerCount * 4
  }

  /** One pass through the lock region of `fortai_queue_push`. */
  function PushRegion(capacity: nat, q: Queue, fd: int, stop: bool): (Queue, PushOutcome) {
    if |q.contents| == capacity && !q.stopping && !stop then (q, MustWait)
    else if q.stopping || stop then (q, Refused)
    else (q.(contents := q.contents + [fd]), Pushed)
  }

  /** One pass through the first lock region of a worker. */
  function TakeRegion(q: Queue): (Queue, TakeOutcome) {
    if q.contents == [] && !q.stopping then (q, NoWork)
    else if q.contents == [] then (q, Finished)
    else (q.(contents := q.contents[1..], active := q.active + 1), Took(q.contents[0]))
  }

  /** `count` entries of a ring from `head` on. */
  function Window(slots: seq<int>, head: nat, count: nat): (window: seq<int>)
    requires head < |slots| && count <= |slots|
    ensures |window| == count
  {
    if head + count <= |slots| then slots[head..head + count] else slots[head..] + slots[..head + count - |slots|]
  }

  lemma WindowGrows(slots: seq<int>, head: nat, count: nat, tail: nat, fd: int)
    requires head < |slots| && count < |slots|
    requires tail == if head + count < |slots| then head + count else head + count - |slots|
    ensures Window(slots[tail := fd], head, count + 1) == Window(slots, head, count) + [fd]
  {
    var later := slots[tail := fd];
    if head + count + 1 <= |slots| {
      assert later[head..head + count + 1] == slots[head..head + count] + [fd];
    } else {
      var wrapped := head + count + 1 - |slots|;
      assert later[..wrapped] == slots[..wrapped - 1] + [fd];
      assert later[head..] == slots[head..];
    }
  }

  lemma WindowShrinks(slots: seq<int>, head: nat, count: nat)
    requires head < |slots| && 0 < count <= |slots|
    ensures Window(slots, head, count)[0] == slots[head]
    ensures Window(slots, if head + 1 == |slots| then 0 else head + 1, count - 1) == Window(slots, head, count)[1..]
  {
  }

  class Ring {
    const fds: array<int>
    var head: nat
    var tail: nat
    var count: nat
    var active: int
    var stopping: bool

    ghost predicate Valid()
      reads this
    {
      && 0 < fds.Length && count <= fds.Length && head < fds.Length
      && tail == if head + count < fds.Length then head + count else head + count - fds.Length
    }

    ghost function Contents(): (contents: seq<int>)
      requires Valid()
      reads this, fds
    {
      Window(fds[..], head, count)
    }

    ghost function View(): Queue
      requires Valid()
      reads this, fds
    {
      Queue(Contents(), active, stopping)
    }

    constructor (workerCount: nat)
      ensures Valid() && fresh(fds) && fds.Length == Capacity(workerCount)
      ensures View() == Queue([], 0, false)
    {
      fds := new int[Capacity(workerCount)];
      head, tail, count, active, stopping := 0, 0, 0, 0, false;
    }

    static lemma Wrap(x: nat, capacity: nat)
      requires x < capacity
      ensures (x + 1) % capacity == if x + 1 == capacity then 0 else x + 1
    {
    }

    method Push(fd: int, stop: bool) returns (outcome: PushOutcome)
      requires Valid()
      modifies this, fds
      ensures Valid()
      ensures (View(), outcome) == PushRegion(fds.Length, old(View()), fd, stop)
    {
      if count == fds.Length && !stopping && !stop { return MustWait; }
      if stopping || stop { return Refused; }
      hide Window;
      Wrap(tail, fds.Length);
      WindowGrows(fds[..], head, count, tail, fd);
      fds[tail] := fd;
      tail := (tail + 1) % fds.Length;
      count := count + 1;
      return Pushed;
    }

    method Take() returns (outcome: TakeOutcome)
      requires Valid()
      modifies this
      ensures Valid()
      ensures (View(), outcome) == TakeRegion(old(View()))
    {
      if count == 0 && !stopping { return NoWork; }
      if count == 0 && stopping { return Finished; }
      hide Window;
      Wrap(head, fds.Length);
      WindowShrinks(fds[..], head, count);
      var client := fds[head];
      head := (head + 1) % fds.Length;
      count := count - 1;
      active := active + 1;
      return Took(client);
    }

    /** The second lock region of a worker; true if it announces that the queue is drained. */
    method Finish() returns (drained: bool)
      requires Valid()
      modifies this`active
      ensures Valid() && View() == old(View()).(active := old(active) - 1)
      ensures drained <==> Contents() == [] && active == 0
    {
      active := active - 1;
      return count == 0 && active == 0;
    }

    method Stop()
      requires Valid()
      modifies this`stopping
      ensures Valid() && View() == old(View()).(stopping := true)
    {
      stopping := true;
    }
  }
}
