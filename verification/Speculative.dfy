/**
 Greedy decoding with draft speculation: a batch of drafted tokens is checked by the target
 in one call, the accepted prefix is kept and the rest is taken out of both caches again.

 The target is a function from the tokens consumed so far to the logits of the next one, the
 same whether tokens arrive one by one or in a batch. The draft is an arbitrary oracle.
 */
module Speculative {
  import opened Argmax

  /** The tokens of positions 0..|consumed| - 1, as a cache holds them. */
  ghost function CacheOf(consumed: seq<int>): map<int, int> {
    map i | 0 <= i < |consumed| :: consumed[i]
  }

  /** Every entry of the cache is the consumed token of its position. */
  ghost predicate SubMap(cells: map<int, int>, consumed: seq<int>) {
    forall p <- cells.Keys :: 0 <= p < |consumed| && cells[p] == consumed[p]
  }

  type Model = seq<int> -> seq<Float>

  /** The token that follows `consumed`. */
  function Next(model: Model, avx2: bool, consumed: seq<int>): (token: int)
    ensures token >= 0
  {
    if model(consumed) == [] then 0 else Choice(avx2, model(consumed))
  }

  /** Plain greedy decoding: `count` tokens after `consumed`, one at a time. */
  function Greedy(model: Model, avx2: bool, consumed: seq<int>, count: nat): (tokens: seq<int>)
    ensures |tokens| == count && forall token <- tokens :: token >= 0
    decreases count
  {
    if count == 0 then []
    else
      var token := Next(model, avx2, consumed);
      [token] + Greedy(model, avx2, consumed + [token], count - 1)
  }

  // ---------------------------------------------------------------- acceptance

  /** How many leading draft tokens the target confirms, at most `limit`. */
  function AcceptPrefix(target: seq<int>, draft: seq<int>, limit: nat): (accepted: nat)
    ensures accepted <= limit && accepted <= |target| && accepted <= |draft|
    ensures target[..accepted] == draft[..accepted]
    ensures accepted < limit && accepted < |target| && accepted < |draft| ==> target[accepted] != draft[accepted]
  {
    if limit == 0 || target == [] || draft == [] || target[0] != draft[0] then 0
    else 1 + AcceptPrefix(target[1..], draft[1..], limit - 1)
  }

  datatype Status = Ok | Invalid

  /** `speculative_accept_prefix`. */
  method SpeculativeAcceptPrefix(maxAccepted: int, target: seq<int>, draft: seq<int>) returns (accepted: nat, status: Status)
    ensures maxAccepted <= 0 ==> status == Invalid && accepted == 0
    ensures maxAccepted > 0 ==> status == Ok && accepted == AcceptPrefix(target, draft, maxAccepted)
  {
    status := Ok;
    accepted := 0;
    if maxAccepted <= 0 { return 0, Invalid; }
    var limit := if |target| < |draft| then |target| else |draft|;
    if maxAccepted < limit { limit := maxAccepted; }
    for i := 0 to limit
      invariant accepted == i
      invariant target[..i] == draft[..i]
    {
      if target[i] != draft[i] {
        AcceptedIsUnique(target, draft, maxAccepted, accepted);
        return;
      }
      assert target[..i + 1] == target[..i] + [target[i]];
      accepted := accepted + 1;
    }
    AcceptedIsUnique(target, draft, maxAccepted, accepted);
  }

  lemma AcceptedIsUnique(target: seq<int>, draft: seq<int>, limit: nat, accepted: nat)
    requires accepted <= limit && accepted <= |target| && accepted <= |draft|
    requires target[..accepted] == draft[..accepted]
    requires accepted < limit && accepted < |target| && accepted < |draft| ==> target[accepted] != draft[accepted]
    ensures accepted == AcceptPrefix(target, draft, limit)
  {
    var other := AcceptPrefix(target, draft, limit);
    assert forall i | 0 <= i < accepted :: target[..accepted][i] == target[i] && draft[..accepted][i] == draft[i];
    assert forall i | 0 <= i < other :: target[..other][i] == target[i] && draft[..other][i] == draft[i];
  }

  /** What the target says at each place of the batch: after the consumed tokens and the first i drafts. */
  function Targets(model: Model, avx2: bool, consumed: seq<int>, drafts: seq<int>): seq<int> {
    seq(|drafts| + 1, i requires 0 <= i <= |drafts| => Next(model, avx2, consumed + drafts[..i]))
  }

  lemma {:induction false} GreedySplit(model: Model, avx2: bool, consumed: seq<int>, a: nat, b: nat)
    ensures Greedy(model, avx2, consumed, a + b)
         == Greedy(model, avx2, consumed, a) + Greedy(model, avx2, consumed + Greedy(model, avx2, consumed, a), b)
    decreases a
  {
    hide Next;
    if a == 0 {
      assert consumed + [] == consumed;
    } else {
      var token := Next(model, avx2, consumed);
      GreedySplit(model, avx2, consumed + [token], a - 1, b);
      assert consumed + ([token] + Greedy(model, avx2, consumed + [token], a - 1))
          == consumed + [token] + Greedy(model, avx2, consumed + [token], a - 1);
    }
  }

  /**
   The accepted drafts and the target's own token behind them are what plain greedy decoding
   would have produced, whatever was drafted.
   */
  lemma {:induction false} AcceptedIsGreedy(model: Model, avx2: bool, consumed: seq<int>, drafts: seq<int>, accepted: nat)
    requires accepted <= |drafts|
    requires Targets(model, avx2, consumed, drafts)[..accepted] == drafts[..accepted]
    ensures drafts[..accepted] + [Targets(model, avx2, consumed, drafts)[accepted]] == Greedy(model, avx2, consumed, accepted + 1)
    decreases accepted
  {
    hide Next;
    var targets := Targets(model, avx2, consumed, drafts);
    if accepted == 0 {
      assert consumed + drafts[..0] == consumed;
      assert Greedy(model, avx2, consumed, 1) == [Next(model, avx2, consumed)] + [];
    } else {
      var last := accepted - 1;
      assert targets[..accepted][..last] == targets[..last] && drafts[..accepted][..last] == drafts[..last];
      AcceptedIsGreedy(model, avx2, consumed, drafts, last);
      assert targets[..accepted][last] == drafts[..accepted][last];
      assert drafts[..accepted] == drafts[..last] + [targets[last]];
      GreedySplit(model, avx2, consumed, accepted, 1);
      assert Greedy(model, avx2, consumed + drafts[..accepted], 1) == [Next(model, avx2, consumed + drafts[..accepted])] + [];
    }
  }
}
