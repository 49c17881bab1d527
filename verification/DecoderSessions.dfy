/**
 Sessions with the resident decoder: any mix of greedy calls, speculative calls of any
 capacity and resets. A refused call changes nothing; after a call that failed in the library
 nothing is promised until the next reset.
 */
module DecoderSessions {
  import opened Speculative
  import opened LlamaFast

  datatype Call = Step | Steps(capacity: nat) | Restart(token: int)

  /** The history with which the current generation began. */
  function Origin(start: seq<int>, calls: seq<Call>): (origin: seq<int>)
    requires start != []
    ensures origin != []
  {
    if calls == [] then start
    else match calls[|calls| - 1]
      case Restart(token) => [token]
      case _ => Origin(start, calls[..|calls| - 1])
  }

  /** How many calls there were since the last restart. */
  function CallsSince(calls: seq<Call>): nat {
    if calls == [] || calls[|calls| - 1].Restart? then 0 else 1 + CallsSince(calls[..|calls| - 1])
  }

  /** Calls that the decoder has no reason to refuse, as long as there is room in the context. */
  predicate Admissible(handle: Handle, firstToken: int, calls: seq<Call>) {
    && firstToken >= 0 && CanStep(handle)
    && forall call <- calls :: (call.Restart? ==> call.token >= 0) && (call.Steps? ==> call.capacity > 0)
  }

  /** The caller's side: the token to feed next, its position, and what was emitted since the start. */
  datatype Client = Client(alive: bool, token: int, position: int, emitted: seq<int>)

  /** While no call has failed, decoder and caller agree, and all that was emitted is greedy. */
  ghost predicate InStep(handle: Handle, client: Client, start: seq<int>)
    requires start != []
    reads handle, handle.target, handle.draft, handle.mtp
  {
    && handle.Valid()
    && client.position == |handle.consumed|
    && handle.consumed == Settled(start, client.emitted)
    && client.token == Pending(start, client.emitted)
    && client.emitted == Greedy(handle.target.model, handle.avx2, start, |client.emitted|)
  }

  /** What the next tokens do to the caller. */
  function Fed(client: Client, tokens: seq<int>): Client
    requires tokens != []
  {
    Client(true, tokens[|tokens| - 1], client.position + |tokens|, client.emitted + tokens)
  }

  /** Greedy tokens behind a greedy sequence, and what is settled and pending then. */
  lemma GreedyGoesOn(model: Model, avx2: bool, start: seq<int>, emitted: seq<int>, before: seq<int>, tokens: seq<int>, consumed: seq<int>)
    requires start != [] && tokens != [] && before == start + emitted
    requires emitted == Greedy(model, avx2, start, |emitted|)
    requires tokens == Greedy(model, avx2, before, |tokens|)
    requires consumed == before + tokens[..|tokens| - 1]
    ensures emitted + tokens == Greedy(model, avx2, start, |emitted + tokens|)
    ensures consumed == Settled(start, emitted + tokens) && tokens[|tokens| - 1] == Pending(start, emitted + tokens)
  {
    hide Greedy, Settled, Pending;
    GreedySplit(model, avx2, start, |emitted|, |tokens|);
    StepHistory(start, emitted, consumed, tokens);
  }

  /** So greedy tokens keep decoder and caller in step. */
  lemma GreedyKeepsInStep(handle: Handle, client: Client, start: seq<int>, before: seq<int>, tokens: seq<int>)
    requires start != [] && tokens != [] && handle.Valid()
    requires before == Settled(start, client.emitted) && client.token == Pending(start, client.emitted)
    requires client.position == |before|
    requires client.emitted == Greedy(handle.target.model, handle.avx2, start, |client.emitted|)
    requires handle.consumed == before + [client.token] + tokens[..|tokens| - 1]
    requires tokens == Greedy(handle.target.model, handle.avx2, before + [client.token], |tokens|)
    ensures InStep(handle, Fed(client, tokens), start)
  {
    hide Greedy, Settled, Pending, Handle.Valid, InStep;
    SettledAndPending(start, client.emitted);
    GreedyGoesOn(handle.target.model, handle.avx2, start, client.emitted, before + [client.token], tokens, handle.consumed);
    IsInStep(handle, Fed(client, tokens), start);
  }

  lemma IsInStep(handle: Handle, client: Client, start: seq<int>)
    requires start != [] && handle.Valid() && client.position == |handle.consumed|
    requires handle.consumed == Settled(start, client.emitted) && client.token == Pending(start, client.emitted)
    requires client.emitted == Greedy(handle.target.model, handle.avx2, start, |client.emitted|)
    ensures InStep(handle, client, start)
  {
    hide Greedy, Settled, Pending, Handle.Valid;
  }

  /** The calls that the decoder refuses. */
  predicate Refused(handle: Handle, call: Call, client: Client) {
    match call
    case Restart(_) => false
    case Step => client.token < 0 || client.position >= handle.maxContext
    case Steps(capacity) =>
      client.token < 0 || client.position >= handle.maxContext || capacity == 0 || !CanStep(handle)
  }

  /** One call of a session: unless the library fails or the call is refused, tokens are emitted. */
  method Serve(handle: Handle, call: Call, client: Client, ghost start: seq<int>) returns (later: Client, ghost origin: seq<int>)
    requires handle.Built() && start != [] && (client.alive ==> InStep(handle, client, start))
    modifies handle, handle.target, handle.draft, handle.mtp, handle.batchToken, handle.batchPos
    ensures origin == (if call.Restart? then [call.token] else start)
    ensures handle.Built() && (later.alive ==> InStep(handle, later, origin))
    ensures handle.Failures() >= old(handle.Failures())
    ensures later.alive <==> call.Restart? || (client.alive && handle.Failures() == old(handle.Failures()))
    ensures call.Restart? ==> later == Client(true, call.token, 0, [])
    ensures later.alive && Refused(handle, call, client) ==> later == client
    ensures later.alive && !call.Restart? && !Refused(handle, call, client) ==>
      |later.emitted| > |client.emitted| && later.token >= 0
  {
    hide Greedy, CacheOf, SubMap, Handle.Built, Targets, AcceptPrefix, Settled, Pending;
    later, origin := client, start;
    ghost var before := handle.consumed;
    match call {
      case Restart(token) =>
        handle.Reset();
        later, origin := Client(true, token, 0, []), [token];
        StartSettled([], token);
        assert [] + [token] == [token];
        NothingGreedy(handle.target.model, handle.avx2, [token]);
      case Step =>
        if !client.alive { return; }
        var status, next := handle.DecodeGreedy(client.token, client.position);
        if status == 0 {
          GreedyOne(handle.target.model, handle.avx2, handle.consumed);
          assert before + [client.token] + [next][..0] == before + [client.token];
          GreedyKeepsInStep(handle, client, start, before, [next]);
          later := Fed(client, [next]);
        } else if status != 1 {
          later := client.(alive := false);
        }
      case Steps(capacity) =>
        if !client.alive { return; }
        var tokens := new int[capacity];
        var status, count;
        ghost var drafts;
        status, count, drafts := handle.DecodeSpeculative(client.token, client.position, tokens, capacity);
        if status == 0 {
          assert tokens[..count][..count - 1] == tokens[..count - 1];
          GreedyKeepsInStep(handle, client, start, before, tokens[..count]);
          GreedyIsNatural(handle.target.model, handle.avx2, before + [client.token], count, count - 1);
          later := Fed(client, tokens[..count]);
        } else if status != 1 {
          later := client.(alive := false);
        }
    }
  }

  /** At least one token for every call, until the context is full. */
  predicate Progress(handle: Handle, client: Client, start: seq<int>, calls: nat) {
    |client.emitted| >= Least(calls, handle.maxContext + 1 - |start|)
  }

  lemma PositionInStep(handle: Handle, client: Client, start: seq<int>)
    requires start != [] && InStep(handle, client, start)
    ensures client.position == |start| + |client.emitted| - 1
  {
  }

  lemma NothingGreedy(model: Model, avx2: bool, start: seq<int>)
    ensures Greedy(model, avx2, start, 0) == []
  {
  }

  /**
   Any session, from any valid decoder: unless a call has failed since the last reset, what was
   emitted since then is the plain greedy sequence, the target cache is exactly what was
   consumed, all emitted tokens but the last, and each draft cache is a sub-map of it.
   */
  method Session(handle: Handle, firstToken: int, first: int, calls: seq<Call>) returns (client: Client)
    requires handle.Valid() && first == |handle.consumed|
    modifies handle, handle.target, handle.draft, handle.mtp, handle.batchToken, handle.batchPos
    ensures handle.Built()
    ensures handle.Failures() == old(handle.Failures()) ==> client.alive
    ensures
      var start := Origin(old(handle.consumed) + [firstToken], calls);
      client.alive ==>
        && client.emitted == Greedy(handle.target.model, handle.avx2, start, |client.emitted|)
        && handle.consumed == Settled(start, client.emitted)
        && handle.target.cells == CacheOf(handle.consumed)
        && (handle.draft != null ==> SubMap(handle.draft.cells, handle.consumed))
        && (handle.mtp != null ==> SubMap(handle.mtp.cells, handle.consumed))
        && (Admissible(handle, firstToken, calls) ==>
              |client.emitted| >= Least(CallsSince(calls), handle.maxContext + 1 - |start|))
  {
    hide Greedy, CacheOf, SubMap, Handle.Built, Settled, Pending, Handle.Failures;
    ghost var start := handle.consumed + [firstToken];
    client := Client(true, firstToken, first, []);
    StartSettled(handle.consumed, firstToken);
    NothingGreedy(handle.target.model, handle.avx2, start);
    for i := 0 to |calls|
      invariant handle.Built() && handle.Failures() >= old(handle.Failures())
      invariant handle.Failures() == old(handle.Failures()) ==> client.alive
      invariant client.alive ==> InStep(handle, client, Origin(start, calls[..i]))
      invariant client.alive && Admissible(handle, firstToken, calls) ==>
        client.token >= 0 && Progress(handle, client, Origin(start, calls[..i]), CallsSince(calls[..i]))
    {
      assert calls[i] in calls;
      assert calls[..i + 1][..i] == calls[..i];
      ghost var origin;
      if client.alive { PositionInStep(handle, client, Origin(start, calls[..i])); }
      client, origin := Serve(handle, calls[i], client, Origin(start, calls[..i]));
    }
    assert calls[..|calls|] == calls;
  }
}
