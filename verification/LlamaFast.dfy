/**
 The resident decoder: one target context, an optional draft context or multi-token
 prediction head, and the calls that advance and roll back their caches. The contexts stand
 for the foreign library by contract; each of their calls may fail, and a failure other than
 a refused argument leaves the caches undefined until the next reset.
 */
module LlamaFast {
  import opened Argmax
  import opened Speculative

  /** The target: its logits depend on the cached tokens only. */
  class TargetContext {
    const model: Model
    var cells: map<int, int>
    var rows: seq<seq<Float>>
    /** How many calls of the library have failed. */
    ghost var failures: nat

    constructor (model: Model)
      ensures this.model == model && cells == map[]
    {
      this.model := model;
      cells, rows := map[], [];
      failures := 0;
    }

    /** Evaluates the first `count` places of the batch behind the tokens cached so far. */
    method Decode(token: array<int>, pos: array<int>, count: nat, ghost consumed: seq<int>) returns (status: int)
      requires count <= token.Length && count <= pos.Length
      requires cells == CacheOf(consumed)
      requires forall i | 0 <= i < count :: pos[i] == |consumed| + i
      modifies this
      ensures failures == old(failures) + if status == 0 then 0 else 1
      ensures status == 0 ==>
        && cells == CacheOf(consumed + token[..count])
        && |rows| == count
        && (forall i | 0 <= i < count :: rows[i] == model(consumed + token[..i + 1]))
    {
      if * {
        failures := failures + 1;
        return 1;
      }
      status := 0;
      PrefixOf(consumed);
      var cached := cells;
      var prefix := seq(|cached|, p => if p in cached then cached[p] else 0);
      assert prefix == consumed + token[..0];
      rows := [];
      for i := 0 to count
        invariant cells == CacheOf(consumed + token[..i])
        invariant prefix == consumed + token[..i] && failures == old(failures)
        invariant |rows| == i && forall k | 0 <= k < i :: rows[k] == model(consumed + token[..k + 1])
      {
        assert token[..i + 1] == token[..i] + [token[i]];
        cells := cells[pos[i] := token[i]];
        prefix := prefix + [token[i]];
        assert consumed + token[..i] + [token[i]] == consumed + token[..i + 1];
        rows := rows + [model(prefix)];
      }
    }

    /** The logits of place `i` of the last batch; the library may have none. */
    method Logits(i: nat) returns (found: bool, row: seq<Float>)
      requires i < |rows|
      modifies this`failures
      ensures failures == old(failures) + if found then 0 else 1
      ensures found ==> row == rows[i]
    {
      if * {
        failures := failures + 1;
        return false, [];
      }
      return true, rows[i];
    }

    /** `memory_seq_rm`: drops the positions from `from` on. */
    method Remove(from: int) returns (done: bool)
      modifies this
      ensures failures == old(failures) + if done then 0 else 1
      ensures done ==> cells == map p | p in old(cells) && p < from :: old(cells)[p]
    {
      if * {
        failures := failures + 1;
        return false;
      }
      cells := map p | p in cells && p < from :: cells[p];
      return true;
    }

    method Clear()
      modifies this
      ensures cells == map[] && failures == old(failures)
    {
      cells := map[];
    }
  }

  lemma PrefixOf(consumed: seq<int>)
    ensures |CacheOf(consumed)| == |consumed|
    ensures seq(|consumed|, p => if p in CacheOf(consumed) then CacheOf(consumed)[p] else 0) == consumed
    decreases |consumed|
  {
    if consumed != [] {
      var init := consumed[..|consumed| - 1];
      PrefixOf(init);
      assert CacheOf(consumed) == CacheOf(init)[|consumed| - 1 := consumed[|consumed| - 1]];
    }
  }

  /** The draft model, or the prediction head: what it proposes is arbitrary and may change from call to call. */
  class DraftContext {
    const oracle: nat -> seq<Float>
    var calls: nat
    var cells: map<int, int>
    /** How many calls of the library have failed. */
    ghost var failures: nat

    constructor (oracle: nat -> seq<Float>)
      ensures this.oracle == oracle && cells == map[]
    {
      this.oracle := oracle;
      calls, cells, failures := 0, map[], 0;
    }

    /** A position is never written twice. */
    method Decode(token: int, pos: int) returns (status: int)
      requires pos !in cells
      modifies this
      ensures failures == old(failures) + if status == 0 then 0 else 1
      ensures status == 0 ==> cells == old(cells)[pos := token] && calls == old(calls) + 1
    {
      if * {
        failures := failures + 1;
        return 1;
      }
      cells := cells[pos := token];
      calls := calls + 1;
      return 0;
    }

    method Logits() returns (found: bool, row: seq<Float>)
      modifies this`failures
      ensures failures == old(failures) + if found then 0 else 1
      ensures found ==> row == oracle(calls)
    {
      if * {
        failures := failures + 1;
        return false, [];
      }
      return true, oracle(calls);
    }

    method Remove(from: int) returns (done: bool)
      modifies this
      ensures failures == old(failures) + if done then 0 else 1
      ensures done ==> cells == map p | p in old(cells) && p < from :: old(cells)[p]
    {
      if * {
        failures := failures + 1;
        return false;
      }
      cells := map p | p in cells && p < from :: cells[p];
      return true;
    }

    method Clear()
      modifies this
      ensures cells == map[] && failures == old(failures)
    {
      cells := map[];
    }
  }

  /** The next `count` proposals of a draft that was called `calls` times. */
  function Proposals(oracle: nat -> seq<Float>, avx2: bool, calls: nat, count: nat): seq<int>
    requires forall n :: oracle(n) != []
  {
    seq(count, i requires 0 <= i < count => Choice(avx2, oracle(calls + i + 1)))
  }

  lemma PlaceIsFree(cells: map<int, int>, consumed: seq<int>)
    requires SubMap(cells, consumed)
    ensures |consumed| !in cells
  {
  }

  lemma SubMapGrows(cells: map<int, int>, consumed: seq<int>, token: int)
    requires SubMap(cells, consumed)
    ensures SubMap(cells[|consumed| := token], consumed + [token])
  {
  }

  function Least(a: int, b: int): int {
    if a < b then a else b
  }

  /** A cache that got the `n` positions from `from` on, and lost nothing. */
  ghost predicate Followed(before: map<int, int>, after: map<int, int>, from: int, n: int) {
    forall p: int :: p in after <==> p in before || from <= p < from + n
  }

  /** What a rollback leaves of a cache: all, or what is not behind the last accepted token. */
  ghost predicate RolledBack(before: map<int, int>, after: map<int, int>, from: int, accepted: int, n: int) {
    forall p: int :: p in after <==> p in before && (accepted < n ==> p <= from + accepted)
  }

  lemma StepFollowed(before: map<int, int>, drafted: map<int, int>, after: map<int, int>, consumed: seq<int>, accepted: nat, n: nat)
    requires SubMap(before, consumed) && accepted <= n
    requires Followed(before, drafted, |consumed|, n) && RolledBack(drafted, after, |consumed|, accepted, n)
    ensures Followed(before, after, |consumed|, Least(n, accepted + 1))
  {
  }

  lemma NoProposals(oracle: nat -> seq<Float>, avx2: bool, calls: nat)
    requires forall n :: oracle(n) != []
    ensures Proposals(oracle, avx2, calls, 0) == []
  {
  }

  lemma NextProposal(oracle: nat -> seq<Float>, avx2: bool, calls: nat, count: nat)
    requires forall n :: oracle(n) != []
    ensures Proposals(oracle, avx2, calls, count + 1)
      == Proposals(oracle, avx2, calls, count) + [Choice(avx2, oracle(calls + count + 1))]
  {
  }

  class Handle {
    const target: TargetContext
    const draft: DraftContext?
    const mtp: DraftContext?
    const specEnabled: bool
    const mtpReady: bool
    const canRemove: bool
    const specMax: int
    const maxContext: int
    const avx2: bool
    const batchToken: array<int>
    const batchPos: array<int>
    ghost var consumed: seq<int>

    /** How the handle is built: one external draft or one prediction head, never both. */
    ghost predicate Built()
    {
      && batchToken != batchPos && batchToken.Length == batchPos.Length == maxContext
      && specMax <= 32
      && (specEnabled <==> draft != null || mtp != null)
      && (draft == null || mtp == null)
      && (forall c :: target.model(c) != [])
      && (draft != null ==> forall n :: draft.oracle(n) != [])
      && (mtp != null ==> forall n :: mtp.oracle(n) != [])
    }

    constructor (target: TargetContext, draft: DraftContext?, mtp: DraftContext?, mtpReady: bool, canRemove: bool,
                 specMax: int, maxContext: nat, avx2: bool)
      requires specMax <= 32 && (draft == null || mtp == null)
      requires forall c :: target.model(c) != []
      requires draft != null ==> forall n :: draft.oracle(n) != []
      requires mtp != null ==> forall n :: mtp.oracle(n) != []
      requires target.cells == map[] && (draft != null ==> draft.cells == map[]) && (mtp != null ==> mtp.cells == map[])
      ensures Valid() && consumed == []
      ensures this.target == target && this.draft == draft && this.mtp == mtp && this.avx2 == avx2
    {
      this.target, this.draft, this.mtp := target, draft, mtp;
      this.mtpReady, this.canRemove, this.specMax, this.maxContext, this.avx2 := mtpReady, canRemove, specMax, maxContext, avx2;
      specEnabled := draft != null || mtp != null;
      batchToken := new int[maxContext];
      batchPos := new int[maxContext];
      consumed := [];
    }

    /** The caches agree with what was consumed: the target exactly, a draft as far as it goes. */
    ghost predicate Valid()
      reads this, target, draft, mtp
    {
      && Built()
      && target.cells == CacheOf(consumed)
      && (draft != null ==> SubMap(draft.cells, consumed))
      && (mtp != null ==> SubMap(mtp.cells, consumed))
    }

    lemma BuiltFacts()
      requires Built()
      ensures (draft == null || mtp == null) && specMax <= 32 && batchToken.Length == batchPos.Length == maxContext
      ensures draft != null ==> forall n :: draft.oracle(n) != []
    {
    }

    /** How many calls of the library have failed, in all contexts. */
    ghost function Failures(): nat
      reads target, draft, mtp
    {
      target.failures + (if draft != null then draft.failures else 0) + if mtp != null then mtp.failures else 0
    }

    /** Puts one token into the batch. */
    method FillOne(token: int, position: int)
      requires Built() && maxContext > 0
      modifies batchToken, batchPos
      ensures batchToken[0] == token && batchPos[0] == position
    {
      batchToken[0] := token;
      batchPos[0] := position;
    }

    /** One token goes through the target: its choice, or 2 or 3 for the place that failed. */
    method EvaluateOne(token: int, position: int) returns (status: int, next: int)
      requires Built() && target.cells == CacheOf(consumed) && position == |consumed| < maxContext
      modifies target, batchToken, batchPos
      ensures status == 0 || status > 1
      ensures target.failures == old(target.failures) + if status == 0 then 0 else 1
      ensures status == 0 ==>
        && target.cells == CacheOf(consumed + [token])
        && next == Next(target.model, avx2, consumed + [token])
    {
      next := 0;
      FillOne(token, position);
      assert batchToken[..1] == [token];
      var decoded := target.Decode(batchToken, batchPos, 1, consumed);
      if decoded != 0 { return 2, 0; }
      var found, row := target.Logits(0);
      if !found || |row| == 0 { return 3, 0; }
      var total;
      next, total := ArgmaxF32(avx2, row);
      status := 0;
    }

    /** One token through the target: 0 and the greedy successor, or the place that failed. */
    method DecodeGreedy(token: int, position: int) returns (status: int, next: int)
      requires Valid() && position == |consumed|
      modifies this, target, batchToken, batchPos
      ensures Built()
      ensures status == 1 <==> token < 0 || position >= maxContext
      ensures status >= 0 && Failures() == old(Failures()) + if status > 1 then 1 else 0
      ensures status == 1 ==> Valid() && consumed == old(consumed) && target.cells == old(target.cells)
      ensures status == 0 ==>
        && Valid()
        && consumed == old(consumed) + [token]
        && next == Next(target.model, avx2, consumed)
    {
      if token < 0 || position < 0 || position >= maxContext { return 1, 0; }
      status, next := EvaluateOne(token, position);
      if status == 0 { consumed := consumed + [token]; }
    }

    /** `reset`: both caches forget everything. */
    method Reset()
      requires Built()
      modifies this, target, draft, mtp
      ensures Valid() && consumed == [] && Failures() == old(Failures())
    {
      target.Clear();
      if mtp != null {
        mtp.Clear();
      } else if specEnabled && draft != null {
        draft.Clear();
      }
      consumed := [];
    }

    /** What the batch holds at place i: the current token, then the drafts. */
    static ghost function Fed(token: int, drafts: seq<int>): (fed: seq<int>)
      ensures |fed| == |drafts| + 1
    {
      [token] + drafts
    }

    static lemma NothingFed(cells: map<int, int>, consumed: seq<int>, token: int)
      requires SubMap(cells, consumed)
      ensures SubMap(cells, consumed + Fed(token, [])[..0])
    {
      assert consumed + Fed(token, [])[..0] == consumed;
    }

    static lemma FedAll(token: int, drafts: seq<int>)
      requires drafts != []
      ensures Fed(token, drafts)[..|drafts|] == Fed(token, drafts[..|drafts| - 1])
    {
    }

    /** The next place is free in the draft cache. */
    static lemma FedPlace(cells: map<int, int>, consumed: seq<int>, token: int, before: seq<int>)
      requires SubMap(cells, consumed + Fed(token, before)[..|before|])
      ensures |consumed| + |before| !in cells
      ensures Fed(token, before)[|before|] == if before == [] then token else before[|before| - 1]
    {
    }

    /** After it was written the cache goes as far as before, and one place further. */
    static lemma FedOneMore(cells: map<int, int>, consumed: seq<int>, token: int, before: seq<int>, next: int)
      requires SubMap(cells, consumed + Fed(token, before)[..|before|])
      ensures SubMap(cells[|consumed| + |before| := Fed(token, before)[|before|]],
        consumed + Fed(token, before + [next])[..|before| + 1])
    {
      assert Fed(token, before + [next])[..|before| + 1] == Fed(token, before)[..|before|] + [Fed(token, before)[|before|]];
    }

    /** One token through the draft or the head: its proposal, or the place that failed. */
    method Propose(context: DraftContext, input: int, position: int) returns (status: int, proposal: int)
      requires Built() && (context == draft || context == mtp) && position !in context.cells
      modifies context
      ensures 0 <= status <= 2
      ensures context.failures == old(context.failures) + if status == 0 then 0 else 1
      ensures status == 0 ==>
        && context.cells == old(context.cells)[position := input]
        && context.calls == old(context.calls) + 1
        && proposal == Choice(avx2, context.oracle(context.calls))
    {
      proposal := 0;
      var decoded := context.Decode(input, position);
      if decoded != 0 { return 1, 0; }
      var found, row := context.Logits();
      if !found { return 2, 0; }
      var total;
      proposal, total := ArgmaxF32(avx2, row);
      status := 0;
    }

    /** The drafting loop: each proposal is fed back to get the next one. */
    method DraftTokens(token: int, position: int, draftTokens: array<int>) returns (status: int)
      requires Valid() && draft != null && position == |consumed|
      requires 0 < specMax <= draftTokens.Length
      modifies draft, draftTokens
      ensures Built()
      ensures status == 0 || status > 1
      ensures draft.failures == old(draft.failures) + if status == 0 then 0 else 1
      ensures status == 0 ==> SubMap(draft.cells, consumed + Fed(token, draftTokens[..specMax - 1]))
      ensures status == 0 ==> draftTokens[..specMax] == Proposals(draft.oracle, avx2, old(draft.calls), specMax)
      ensures status == 0 ==> Followed(old(draft.cells), draft.cells, position, specMax)
    {
      hide Proposals, SubMap, CacheOf, Fed, Choice;
      NoProposals(draft.oracle, avx2, draft.calls);
      NothingFed(draft.cells, consumed, token);
      for i := 0 to specMax
        invariant Built() && draft.failures == old(draft.failures) && draft.calls == old(draft.calls) + i
        invariant draftTokens[..i] == Proposals(draft.oracle, avx2, old(draft.calls), i)
        invariant SubMap(draft.cells, consumed + Fed(token, draftTokens[..i])[..i])
        invariant Followed(old(draft.cells), draft.cells, position, i)
      {
        var input := if i == 0 then token else draftTokens[i - 1];
        ghost var before := draftTokens[..i];
        ghost var cells := draft.cells;
        FedPlace(cells, consumed, token, before);
        status, draftTokens[i] := Propose(draft, input, position + i);
        if status != 0 { return 2 + status; }
        NextProposal(draft.oracle, avx2, old(draft.calls), i);
        assert draftTokens[..i + 1] == before + [draftTokens[i]];
        FedOneMore(cells, consumed, token, before, draftTokens[i]);
      }
      FedAll(token, draftTokens[..specMax]);
      assert draftTokens[..specMax][..specMax - 1] == draftTokens[..specMax - 1];
      status := 0;
    }

    /** The current token and all drafts go through the target in one batch. */
    method EvaluateBatch(token: int, position: int, drafts: seq<int>) returns (status: int)
      requires Built() && target.cells == CacheOf(consumed) && position == |consumed| && |drafts| + 1 <= maxContext
      modifies target, batchToken, batchPos
      ensures status == 0 || status == 5
      ensures target.failures == old(target.failures) + if status == 0 then 0 else 1
      ensures status == 0 ==>
        && target.cells == CacheOf(consumed + Fed(token, drafts))
        && |target.rows| == |drafts| + 1
        && (forall i | 0 <= i <= |drafts| :: target.rows[i] == target.model(consumed + [token] + drafts[..i]))
    {
      for i := 0 to |drafts| + 1
        modifies batchToken, batchPos
        invariant batchToken[..i] == Fed(token, drafts)[..i]
        invariant forall k | 0 <= k < i :: batchPos[k] == position + k
      {
        batchToken[i] := if i == 0 then token else drafts[i - 1];
        batchPos[i] := position + i;
        assert batchToken[..i + 1] == batchToken[..i] + [batchToken[i]];
      }
      assert batchToken[..|drafts| + 1] == Fed(token, drafts);
      var decoded := target.Decode(batchToken, batchPos, |drafts| + 1, consumed);
      if decoded != 0 { return 5; }
      forall i | 0 <= i <= |drafts|
        ensures target.rows[i] == target.model(consumed + [token] + drafts[..i])
      {
        assert batchToken[..i + 1] == Fed(token, drafts)[..i + 1] == [token] + drafts[..i];
        assert consumed + ([token] + drafts[..i]) == consumed + [token] + drafts[..i];
      }
      return 0;
    }

    /** The comparison loop: how many drafts the target confirms, and its own token behind them. */
    method Compare(token: int, drafts: seq<int>) returns (status: int, accepted: nat, mismatch: int)
      requires Built() && |target.rows| == |drafts| + 1
      requires forall i | 0 <= i <= |drafts| :: target.rows[i] == target.model(consumed + [token] + drafts[..i])
      modifies target`failures
      ensures (status == 0 || status > 1) && accepted <= |drafts|
      ensures target.failures == old(target.failures) + if status == 0 then 0 else 1
      ensures status == 0 ==>
        var targets := Targets(target.model, avx2, consumed + [token], drafts);
        && accepted == AcceptPrefix(targets, drafts, |drafts|)
        && mismatch == targets[accepted]
    {
      hide AcceptPrefix, Next, Targets, Built;
      ghost var targets := Targets(target.model, avx2, consumed + [token], drafts);
      ghost var rest := consumed + [token];
      accepted, mismatch := 0, 0;
      TargetsAt(target.model, avx2, rest, drafts, 0);
      for i := 0 to |drafts|
        invariant accepted == i && targets[..i] == drafts[..i] && target.failures == old(target.failures)
      {
        TargetsAt(target.model, avx2, rest, drafts, i);
        var found;
        found, mismatch := TargetToken(i, rest + drafts[..i]);
        if !found { return 6, 0, 0; }
        if mismatch != drafts[i] {
          AcceptedIsUnique(targets, drafts, |drafts|, accepted);
          return 0, accepted, mismatch;
        }
        assert targets[..i + 1] == targets[..i] + [targets[i]];
        accepted := accepted + 1;
      }
      TargetsAt(target.model, avx2, rest, drafts, |drafts|);
      var found;
      found, mismatch := TargetToken(|drafts|, rest + drafts[..|drafts|]);
      if !found { return 7, 0, 0; }
      AcceptedIsUnique(targets, drafts, |drafts|, accepted);
      return 0, accepted, mismatch;
    }

    /** The target's own token behind a prefix, from the logits of place `i`. */
    method TargetToken(i: nat, ghost prefix: seq<int>) returns (found: bool, token: int)
      requires Built() && i < |target.rows| && target.rows[i] == target.model(prefix)
      modifies target`failures
      ensures target.failures == old(target.failures) + if found then 0 else 1
      ensures found ==> token == Next(target.model, avx2, prefix)
    {
      token := 0;
      var row;
      found, row := target.Logits(i);
      if found {
        var total;
        token, total := ArgmaxF32(avx2, row);
        NextIsChoice(target.model, avx2, prefix);
      }
    }

    static lemma TargetsAt(model: Model, avx2: bool, rest: seq<int>, drafts: seq<int>, i: nat)
      requires i <= |drafts|
      ensures |Targets(model, avx2, rest, drafts)| == |drafts| + 1
      ensures Targets(model, avx2, rest, drafts)[i] == Next(model, avx2, rest + drafts[..i])
    {
      hide Next;
    }

    /** The rollback: what was not accepted leaves both caches. */
    method Rollback(token: int, position: int, drafts: seq<int>, accepted: nat) returns (status: int)
      requires Built() && draft != null && position == |consumed| && accepted <= |drafts| && drafts != []
      requires target.cells == CacheOf(consumed + Fed(token, drafts))
      requires SubMap(draft.cells, consumed + Fed(token, drafts[..|drafts| - 1]))
      modifies target, draft
      ensures status == 0 || status > 1
      ensures Failures() == old(Failures()) + if status == 0 then 0 else 1
      ensures status == 0 ==> target.cells == CacheOf(consumed + Fed(token, drafts[..accepted]))
      ensures status == 0 ==> SubMap(draft.cells, consumed + Fed(token, drafts[..accepted]))
      ensures status == 0 ==> RolledBack(old(draft.cells), draft.cells, position, accepted, |drafts|)
    {
      status := 0;
      if accepted < |drafts| {
        CutCache(consumed, Fed(token, drafts), accepted + 1);
        assert Fed(token, drafts)[..accepted + 1] == Fed(token, drafts[..accepted]);
        var done := target.Remove(position + accepted + 1);
        if !done { return 8; }
        done := draft.Remove(position + accepted + 1);
        if !done { return 9; }
      } else {
        assert drafts[..accepted] == drafts;
      }
    }

    /** One step with an external draft. */
    method SpeculativeStep(token: int, position: int, tokens: array<int>) returns (status: int, count: nat, ghost drafts: seq<int>)
      requires Valid() && draft != null && position == |consumed| && 0 < specMax
      requires specMax + 1 <= tokens.Length && specMax + 1 <= maxContext - position
      requires tokens != batchToken && tokens != batchPos
      modifies this, target, draft, batchToken, batchPos, tokens
      ensures Built() && (status == 0 || status > 1)
      ensures Failures() == old(Failures()) + if status == 0 then 0 else 1
      ensures status == 0 ==> Valid() && 1 <= count <= specMax + 1
      ensures status == 0 ==> drafts == Proposals(draft.oracle, avx2, old(draft.calls), specMax)
      ensures status == 0 ==> Followed(old(draft.cells), draft.cells, position, Least(specMax, count))
      ensures status == 0 ==> consumed == old(consumed) + [token] + tokens[..count - 1]
      ensures status == 0 ==> tokens[..count] == Greedy(target.model, avx2, old(consumed) + [token], count)
      ensures status == 0 ==>
        count == 1 + AcceptPrefix(Targets(target.model, avx2, old(consumed) + [token], drafts), drafts, |drafts|)
    {
      hide Greedy, Targets, SubMap, CacheOf, Fed, Proposals, Built, Next, AcceptPrefix, Followed, RolledBack;
      BuiltFacts();
      count, drafts := 0, [];
      var draftTokens := new int[32];
      status := DraftTokens(token, position, draftTokens);
      if status != 0 { return; }
      var proposed := draftTokens[..specMax];
      drafts := proposed;
      assert drafts[..specMax - 1] == draftTokens[..specMax - 1];
      status := EvaluateBatch(token, position, proposed);
      if status != 0 { return; }
      var accepted, mismatch;
      status, accepted, mismatch := Compare(token, proposed);
      if status != 0 { return; }
      ghost var drafted := draft.cells;
      status := Rollback(token, position, proposed, accepted);
      if status != 0 { return; }
      StepFollowed(old(draft.cells), drafted, draft.cells, consumed, accepted, specMax);
      count := Emit(tokens, proposed, accepted, mismatch);
      AcceptedIsGreedy(target.model, avx2, consumed + [token], proposed, accepted);
      StepConsumed(consumed, token, proposed[..accepted], mismatch);
      assert tokens[..count - 1] == tokens[..count][..count - 1] == proposed[..accepted];
      consumed := consumed + [token] + proposed[..accepted];
    }

    /** The accepted drafts, then the target's own token. */
    static method Emit(tokens: array<int>, drafts: seq<int>, accepted: nat, mismatch: int) returns (count: nat)
      requires accepted <= |drafts| && accepted + 1 <= tokens.Length
      modifies tokens
      ensures count == accepted + 1 && tokens[..count] == drafts[..accepted] + [mismatch]
    {
      for i := 0 to accepted
        invariant tokens[..i] == drafts[..i]
      {
        tokens[i] := drafts[i];
        assert tokens[..i + 1] == tokens[..i] + [drafts[i]];
      }
      tokens[accepted] := mismatch;
      count := accepted + 1;
      assert tokens[..count] == tokens[..accepted] + [mismatch];
    }

    static lemma StepConsumed(consumed: seq<int>, token: int, accepted: seq<int>, mismatch: int)
      ensures consumed + Fed(token, accepted) == consumed + [token] + accepted
      ensures (accepted + [mismatch])[..|accepted|] == accepted
    {
    }

    /** One step with a prediction head: the head is fed, but the target alone decides. */
    method PredictionStep(token: int, position: int, tokens: array<int>) returns (status: int)
      requires Valid() && mtp != null && position == |consumed| < maxContext && tokens.Length > 0
      requires tokens != batchToken && tokens != batchPos
      modifies this, target, mtp, batchToken, batchPos, tokens
      ensures Built() && (status == 0 || status > 1)
      ensures Failures() == old(Failures()) + if status == 0 then 0 else 1
      ensures status == 0 ==> Followed(old(mtp.cells), mtp.cells, position, 1)
      ensures status == 0 ==> Valid() && consumed == old(consumed) + [token] && tokens[0] == Next(target.model, avx2, consumed)
    {
      hide Built, Next, Choice, CacheOf, SubMap;
      BuiltFacts();
      PlaceIsFree(mtp.cells, consumed);
      SubMapGrows(mtp.cells, consumed, token);
      var targetToken;
      status, targetToken := EvaluateOne(token, position);
      if status != 0 { return; }
      var draftToken;
      status, draftToken := Propose(mtp, token, position);
      if status != 0 { return 3 + status; }
      tokens[0] := if draftToken == targetToken then draftToken else targetToken;
      consumed := consumed + [token];
      return 0;
    }

    /** Whether there is an external draft, and room for all its proposals and one more token. */
    predicate Speculates(position: int, capacity: int) {
      && draft != null && mtp == null && canRemove && specMax > 0
      && specMax < capacity && position + specMax < maxContext
    }

    /**
     `decode_speculative`: one variable-length step. The last returned token is not evaluated
     yet; it is the input of the next step.
     */
    method DecodeSpeculative(token: int, position: int, tokens: array<int>, capacity: int)
      returns (status: int, count: nat, ghost drafts: seq<int>)
      requires Valid() && position == |consumed| && capacity <= tokens.Length
      requires tokens != batchToken && tokens != batchPos
      modifies this, target, draft, mtp, batchToken, batchPos, tokens
      ensures Built()
      ensures status == 1 <==> token < 0 || position >= maxContext || capacity <= 0 || (mtp != null && !mtpReady)
      ensures status >= 0 && Failures() == old(Failures()) + if status > 1 then 1 else 0
      ensures status == 1 ==> Valid() && consumed == old(consumed)
      ensures status == 0 ==> Valid() && 1 <= count <= capacity && position + count <= maxContext
      ensures status == 0 ==>
        drafts == if Speculates(position, capacity) then Proposals(draft.oracle, avx2, old(draft.calls), specMax) else []
      ensures status == 0 && Speculates(position, capacity) ==>
        Followed(old(draft.cells), draft.cells, position, Least(specMax, count))
      ensures status == 0 && mtp != null ==> Followed(old(mtp.cells), mtp.cells, position, 1)
      ensures status == 0 ==> consumed == old(consumed) + [token] + tokens[..count - 1]
      ensures status == 0 ==> tokens[..count] == Greedy(target.model, avx2, old(consumed) + [token], count)
      ensures status == 0 ==>
        count == 1 + AcceptPrefix(Targets(target.model, avx2, old(consumed) + [token], drafts), drafts, |drafts|)
    {
      count, drafts := 0, [];
      if token < 0 || position < 0 || position >= maxContext || capacity <= 0 { return 1, 0, []; }
      GreedyOne(target.model, avx2, consumed + [token]);
      if mtp != null {
        if !mtpReady { return 1, 0, []; }
        status := PredictionStep(token, position, tokens);
        count := 1;
        assert tokens[..1] == [tokens[0]] && tokens[..0] == [];
        return;
      }
      if !specEnabled || specMax <= 0 || draft == null || !canRemove || specMax + 1 > capacity || specMax + 1 > maxContext - position {
        status, tokens[0] := DecodeGreedy(token, position);
        if status != 0 { return 2, 0, []; }
        count := 1;
        assert tokens[..1] == [tokens[0]] && tokens[..0] == [];
        return;
      }
      status, count, drafts := SpeculativeStep(token, position, tokens);
    }
  }

  lemma GreedyPrefix(model: Model, avx2: bool, consumed: seq<int>, n: nat, count: nat)
    requires n <= count
    ensures Greedy(model, avx2, consumed, count)[..n] == Greedy(model, avx2, consumed, n)
  {
    hide Greedy;
    GreedySplit(model, avx2, consumed, n, count - n);
  }

  /** The inner loop: the tokens of one step are shown until the limit is reached. */
  method Show(trace: seq<int>, tokens: array<int>, shown: nat, pending: int) returns (longer: seq<int>, token: int)
    requires shown <= tokens.Length
    ensures longer == trace + tokens[..shown]
    ensures token == if shown > 0 then tokens[shown - 1] else pending
  {
    longer, token := trace, pending;
    for emitted := 0 to shown
      invariant longer == trace + tokens[..emitted]
      invariant token == if emitted > 0 then tokens[emitted - 1] else pending
    {
      token := tokens[emitted];
      assert tokens[..emitted + 1] == tokens[..emitted] + [token];
      longer := longer + [token];
    }
  }

  lemma GreedyIsNatural(model: Model, avx2: bool, consumed: seq<int>, count: nat, i: nat)
    requires i < count
    ensures Greedy(model, avx2, consumed, count)[i] >= 0
  {
    assert Greedy(model, avx2, consumed, count)[i] in Greedy(model, avx2, consumed, count);
  }

  /** A prediction head can be used only when its buffers are there. */
  predicate CanStep(handle: Handle) {
    handle.mtp == null || handle.mtpReady
  }

  /** Whether the positions first..last can all be reached. */
  predicate HasRoom(handle: Handle, firstToken: int, first: int, last: int) {
    first > last || (firstToken >= 0 && last < handle.maxContext && CanStep(handle))
  }

  /** One turn of the generation loop: a step of the decoder, and what of it is shown. */
  method GenerateStep(handle: Handle, token: int, position: nat, last: nat, trace: seq<int>, tokens: array<int>,
                      ghost start: seq<int>, ghost made: seq<int>)
    returns (ok: bool, newTrace: seq<int>, newToken: int, newPosition: nat, ghost newMade: seq<int>)
    requires handle.Valid() && position == |handle.consumed| <= last && start != []
    requires tokens != handle.batchToken && tokens != handle.batchPos && tokens.Length > 0
    requires made == Greedy(handle.target.model, handle.avx2, start, |made|)
    requires handle.consumed == Settled(start, made) && token == Pending(start, made) && trace == made
    modifies handle, handle.target, handle.draft, handle.mtp, handle.batchToken, handle.batchPos, tokens
    ensures ok <==> token >= 0 && position < handle.maxContext && CanStep(handle) && handle.Failures() == old(handle.Failures())
    ensures ok ==> handle.Valid() && newPosition == |handle.consumed| > position
    ensures ok ==> newPosition <= handle.maxContext && newToken >= 0
    ensures ok ==> newMade == Greedy(handle.target.model, handle.avx2, start, |made| + newPosition - position)
    ensures ok ==> handle.consumed == Settled(start, newMade)
    ensures ok ==> newTrace <= newMade && |newTrace| == |made| + Least(newPosition, last + 1) - position
    ensures ok && newPosition <= last ==> newToken == Pending(start, newMade)
  {
    hide Greedy, SubMap, CacheOf, Targets, AcceptPrefix, Handle.Valid, Handle.Built, Settled, Pending;
    newTrace, newToken, newPosition, newMade := trace, token, position, made;
    SettledAndPending(start, made);
    var status, count;
    ghost var drafts;
    status, count, drafts := handle.DecodeSpeculative(token, position, tokens, tokens.Length);
    ok := status == 0;
    if !ok { return; }
    GreedySplit(handle.target.model, handle.avx2, start, |made|, count);
    newMade := made + tokens[..count];
    StepHistory(start, made, handle.consumed, tokens[..count]);
    var shown := Least(count, last - position + 1);
    ShownPrefix(made, tokens[..count], shown);
    assert tokens[..shown] == tokens[..count][..shown];
    newTrace, newToken := Show(trace, tokens, shown, token);
    GreedyIsNatural(handle.target.model, handle.avx2, old(handle.consumed) + [token], count, shown - 1);
    assert newToken == tokens[..count][shown - 1];
    newPosition := position + count;
  }

  /**
   The generation loop of the command line: whatever the drafts were and however the steps
   were cut, the trace is the plain greedy sequence, and afterwards the target cache holds
   exactly what was consumed.
   */
  method Generate(handle: Handle, firstToken: int, first: int, last: int) returns (ok: bool, trace: seq<int>)
    requires handle.Valid() && first == |handle.consumed| && first <= last + 1
    modifies handle, handle.target, handle.draft, handle.mtp, handle.batchToken, handle.batchPos
    ensures ok <==> handle.Failures() == old(handle.Failures()) && HasRoom(handle, firstToken, first, last)
    ensures ok ==> handle.Valid()
    ensures ok ==> trace == Greedy(handle.target.model, handle.avx2, old(handle.consumed) + [firstToken], last - first + 1)
    ensures ok ==> first <= |handle.consumed| && last < |handle.consumed|
    ensures ok ==>
      var start := old(handle.consumed) + [firstToken];
      handle.consumed <= start + Greedy(handle.target.model, handle.avx2, start, |handle.consumed| - first)
  {
    hide Greedy, SubMap, CacheOf, Targets, AcceptPrefix, Handle.Valid, Handle.Built, Settled, Pending;
    ghost var model, avx2, start := handle.target.model, handle.avx2, handle.consumed + [firstToken];
    var tokens := new int[32];
    var token, position := firstToken, first;
    trace := [];
    ghost var made := [];
    StartSettled(handle.consumed, firstToken);
    GreedyPrefix(model, avx2, start, 0, 0);
    while position <= last
      invariant first <= position && |trace| == Least(position, last + 1) - first
      invariant handle.Valid() && position == |handle.consumed|
      invariant made == Greedy(model, avx2, start, position - first)
      invariant handle.consumed == Settled(start, made)
      invariant position <= last ==> token == Pending(start, made)
      invariant trace <= made
      invariant handle.Failures() == old(handle.Failures())
      invariant if position == first then token == firstToken
                else token >= 0 && firstToken >= 0 && position <= handle.maxContext && CanStep(handle)
    {
      ok, trace, token, position, made := GenerateStep(handle, token, position, last, trace, tokens, start, made);
      if !ok { return; }
    }
    GreedyPrefix(model, avx2, start, last - first + 1, position - first);
    SettledIsPrefix(start, made);
    ok := true;
  }

  /** How many tokens the command line shows; the prompt call always shows one. */
  function ShownCount(steps: int, excludePrompt: bool): nat {
    if excludePrompt then (if steps < 1 then 1 else steps) else if steps < 0 then 0 else steps
  }

  /** Whether a run fits the context and the handle; nothing is asked of a run without a step. */
  predicate Fits(handle: Handle, token: int, steps: int, excludePrompt: bool) {
    var generating := steps > if excludePrompt then 1 else 0;
    && (excludePrompt || generating ==> token >= 0 && handle.maxContext > 0)
    && (generating ==> steps <= handle.maxContext && CanStep(handle))
  }

  lemma GreedyFirst(model: Model, avx2: bool, token: int, next: int, n: nat)
    requires next == Next(model, avx2, [token]) && 0 < n
    ensures Greedy(model, avx2, [token], n) == [next] + Greedy(model, avx2, [token] + [next], n - 1)
  {
  }

  /** The command line after a reset: an optional greedy call for the prompt token, then the generation loop. */
  method CommandLine(handle: Handle, token: int, steps: int, excludePrompt: bool) returns (ok: bool, trace: seq<int>)
    requires handle.Valid() && handle.consumed == []
    modifies handle, handle.target, handle.draft, handle.mtp, handle.batchToken, handle.batchPos
    ensures ok <==> handle.Failures() == old(handle.Failures()) && Fits(handle, token, steps, excludePrompt)
    ensures ok ==> handle.Valid()
    ensures ok ==> trace == Greedy(handle.target.model, handle.avx2, [token], ShownCount(steps, excludePrompt))
  {
    hide Greedy, SubMap, CacheOf, Next, Handle.Built;
    trace := [];
    assert [] + [token] == [token];
    if excludePrompt {
      var status, next := handle.DecodeGreedy(token, 0);
      if status != 0 { return false, []; }
      GreedyFirst(handle.target.model, handle.avx2, token, next, ShownCount(steps, true));
      GreedyPrefix(handle.target.model, handle.avx2, [token] + [next], 0, 0);
      trace := [next];
      ok := true;
      if steps >= 1 {
        var rest;
        ok, rest := Generate(handle, next, 1, steps - 1);
        trace := trace + rest;
      }
    } else {
      GreedyPrefix(handle.target.model, handle.avx2, [token], 0, 0);
      ok := true;
      if steps >= 0 {
        ok, trace := Generate(handle, token, 0, steps - 1);
      }
    }
  }

  lemma ShownPrefix(made: seq<int>, tokens: seq<int>, shown: nat)
    requires shown <= |tokens|
    ensures made + tokens[..shown] <= made + tokens
  {
  }

  /** The tokens after `start + made` that a cache holds: all but the last one, which is pending. */
  ghost function Settled(start: seq<int>, made: seq<int>): seq<int>
    requires start != []
  {
    (start + made)[..|start + made| - 1]
  }

  ghost function Pending(start: seq<int>, made: seq<int>): int
    requires start != []
  {
    (start + made)[|start + made| - 1]
  }

  lemma StartSettled(consumed: seq<int>, token: int)
    ensures Settled(consumed + [token], []) == consumed && Pending(consumed + [token], []) == token
  {
  }

  lemma SettledIsPrefix(start: seq<int>, made: seq<int>)
    requires start != []
    ensures Settled(start, made) <= start + made
  {
  }

  lemma SettledAndPending(start: seq<int>, made: seq<int>)
    requires start != []
    ensures Settled(start, made) + [Pending(start, made)] == start + made
  {
  }

  /** The history after a step. */
  lemma StepHistory(start: seq<int>, made: seq<int>, after: seq<int>, tokens: seq<int>)
    requires start != [] && tokens != [] && after == start + made + tokens[..|tokens| - 1]
    ensures after == Settled(start, made + tokens)
    ensures tokens[|tokens| - 1] == Pending(start, made + tokens)
  {
    assert start + (made + tokens) == (start + made) + tokens;
    assert tokens == tokens[..|tokens| - 1] + [tokens[|tokens| - 1]];
  }

  lemma NextIsChoice(model: Model, avx2: bool, consumed: seq<int>)
    requires model(consumed) != []
    ensures Next(model, avx2, consumed) == Choice(avx2, model(consumed))
  {
  }

  lemma GreedyOne(model: Model, avx2: bool, consumed: seq<int>)
    ensures Greedy(model, avx2, consumed, 1) == [Next(model, avx2, consumed)]
  {
    assert Greedy(model, avx2, consumed + [Next(model, avx2, consumed)], 0) == [];
  }

  /** Cutting both caches behind the accepted tokens leaves exactly those. */
  lemma CutCache(consumed: seq<int>, fed: seq<int>, kept: nat)
    requires kept <= |fed|
    ensures (map p | p in CacheOf(consumed + fed) && p < |consumed| + kept :: CacheOf(consumed + fed)[p])
         == CacheOf(consumed + fed[..kept])
  {
  }
}
