/**
 Byte-pair encoding of one pre-token: which pair is merged next, the fixed point of
 merging, and the token ids of what is left.
 */
module Bpe {
  import opened Bytes
  import opened ByteAlphabet

  /** `huge(0)`: the rank of a pair that has no rule. */
  const HUGE: nat := 0x7FFFFFFF

  type Rule = (Text, Text)

  /** The first position of `x` in `list`, or its length. */
  function FirstIndex<T(==)>(list: seq<T>, x: T): (index: nat)
    ensures index <= |list|
    ensures index < |list| ==> list[index] == x
    ensures forall i | 0 <= i < index :: list[i] != x
  {
    if list == [] then 0
    else if list[0] == x then 0
    else
      var rest := FirstIndex(list[1..], x);
      assert forall i | 0 < i < rest + 1 :: list[i] == list[1..][i - 1];
      1 + rest
  }

  /** The number of the first rule for the pair, counted from 1. */
  function Rank(rules: seq<Rule>, left: Text, right: Text): (rank: nat) {
    var index := FirstIndex(rules, (left, right));
    if index < |rules| then index + 1 else HUGE
  }

  function PairRank(rules: seq<Rule>, symbols: seq<Text>, i: nat): nat
    requires i + 1 < |symbols|
  {
    Rank(rules, symbols[i], symbols[i + 1])
  }

  /** `best` is the leftmost pair of least rank, and it has a rule. */
  ghost predicate IsBest(rules: seq<Rule>, symbols: seq<Text>, best: nat) {
    && best + 1 < |symbols|
    && PairRank(rules, symbols, best) < HUGE
    && (forall j: nat | j + 1 < |symbols| :: PairRank(rules, symbols, best) <= PairRank(rules, symbols, j))
    && (forall j: nat | j < best :: PairRank(rules, symbols, best) < PairRank(rules, symbols, j))
  }

  ghost predicate NoRuleApplies(rules: seq<Rule>, symbols: seq<Text>) {
    forall j: nat | j + 1 < |symbols| :: PairRank(rules, symbols, j) >= HUGE
  }

  lemma BestIsUnique(rules: seq<Rule>, symbols: seq<Text>, a: nat, b: nat)
    requires IsBest(rules, symbols, a) && IsBest(rules, symbols, b)
    ensures a == b
  {
    assert PairRank(rules, symbols, a) == PairRank(rules, symbols, b);
  }

  /** The two symbols at `k` become one. */
  function Merge(symbols: seq<Text>, k: nat): (merged: seq<Text>)
    requires k + 1 < |symbols|
    ensures |merged| == |symbols| - 1
  {
    symbols[..k] + [symbols[k] + symbols[k + 1]] + symbols[k + 2..]
  }

  /** The symbols after a merge, place by place. */
  lemma MergeAtIndex(symbols: seq<Text>, k: nat)
    requires k + 1 < |symbols|
    ensures forall j | 0 <= j < |symbols| - 1 ::
      Merge(symbols, k)[j] == if j < k then symbols[j] else if j == k then symbols[k] + symbols[k + 1] else symbols[j + 1]
  {
    var head, middle, tail := symbols[..k], [symbols[k] + symbols[k + 1]], symbols[k + 2..];
    forall j | 0 <= j < |symbols| - 1
      ensures Merge(symbols, k)[j] == if j < k then symbols[j] else if j == k then symbols[k] + symbols[k + 1] else symbols[j + 1]
    {
      assert Merge(symbols, k) == head + middle + tail;
      if j > k {
        assert (head + middle + tail)[j] == tail[j - k - 1];
      }
    }
  }

  lemma NoBestWithoutRule(rules: seq<Rule>, symbols: seq<Text>)
    requires NoRuleApplies(rules, symbols)
    ensures forall k: nat :: !IsBest(rules, symbols, k)
  {
  }

  /** Scanning the pairs from the left finds the best one, if any pair has a rule. */
  lemma {:induction false} BestExists(rules: seq<Rule>, symbols: seq<Text>, scanned: nat) returns (best: nat)
    requires scanned < |symbols|
    requires exists j: nat :: j < scanned && PairRank(rules, symbols, j) < HUGE
    ensures best < scanned && PairRank(rules, symbols, best) < HUGE
    ensures forall j: nat | j < scanned :: PairRank(rules, symbols, best) <= PairRank(rules, symbols, j)
    ensures forall j: nat | j < best :: PairRank(rules, symbols, best) < PairRank(rules, symbols, j)
    decreases scanned
  {
    var last := scanned - 1;
    if exists j: nat :: j < last && PairRank(rules, symbols, j) < HUGE {
      best := BestExists(rules, symbols, last);
      if PairRank(rules, symbols, last) < PairRank(rules, symbols, best) {
        best := last;
      }
    } else {
      best := last;
    }
  }

  ghost function Best(rules: seq<Rule>, symbols: seq<Text>): (best: nat)
    requires !NoRuleApplies(rules, symbols)
    ensures IsBest(rules, symbols, best)
  {
    assert exists k: nat :: IsBest(rules, symbols, k) by {
      var j: nat :| j + 1 < |symbols| && PairRank(rules, symbols, j) < HUGE;
      assert j < |symbols| - 1;
      var best := BestExists(rules, symbols, |symbols| - 1);
      assert IsBest(rules, symbols, best);
    }
    var best: nat :| IsBest(rules, symbols, best); best
  }

  /** Merging, each time, the leftmost pair of least rank, until no rule applies. */
  ghost function MergeFully(rules: seq<Rule>, symbols: seq<Text>): seq<Text>
    decreases |symbols|
  {
    if NoRuleApplies(rules, symbols) then symbols
    else MergeFully(rules, Merge(symbols, Best(rules, symbols)))
  }

  lemma MergeFullyStep(rules: seq<Rule>, symbols: seq<Text>, best: nat)
    requires IsBest(rules, symbols, best)
    ensures MergeFully(rules, symbols) == MergeFully(rules, Merge(symbols, best))
  {
    if NoRuleApplies(rules, symbols) {
      NoBestWithoutRule(rules, symbols);
    } else {
      BestIsUnique(rules, symbols, Best(rules, symbols), best);
    }
  }

  lemma MergeFullyDone(rules: seq<Rule>, symbols: seq<Text>)
    requires NoRuleApplies(rules, symbols)
    ensures MergeFully(rules, symbols) == symbols
  {
  }

  lemma MergeFullyShort(rules: seq<Rule>, symbols: seq<Text>)
    requires |symbols| <= 1
    ensures MergeFully(rules, symbols) == symbols
  {
  }

  lemma BestInRange(rules: seq<Rule>, symbols: seq<Text>, best: nat)
    requires IsBest(rules, symbols, best)
    ensures best + 1 < |symbols|
  {
  }

  /** At the end no adjacent pair has a rule, and no symbol was added. */
  lemma {:induction false} MergeFullyEndsAtFixedPoint(rules: seq<Rule>, symbols: seq<Text>)
    ensures NoRuleApplies(rules, MergeFully(rules, symbols))
    ensures |MergeFully(rules, symbols)| <= |symbols|
    ensures symbols != [] ==> MergeFully(rules, symbols) != []
    ensures MergeFully(rules, MergeFully(rules, symbols)) == MergeFully(rules, symbols)
    decreases |symbols|
  {
    if !NoRuleApplies(rules, symbols) {
      var k := Best(rules, symbols);
      MergeFullyEndsAtFixedPoint(rules, Merge(symbols, k));
    }
  }

  // ---------------------------------------------------------------- what the symbols spell

  /** The stand-ins of each group of octets. */
  function SpellEach(groups: seq<Text>): seq<Text> {
    seq(|groups|, i requires 0 <= i < |groups| => Spell(groups[i]))
  }

  /** One group per octet: the symbols that merging starts from. */
  function Singletons(raw: Text): seq<Text> {
    seq(|raw|, i requires 0 <= i < |raw| => [raw[i]])
  }

  function InitialSymbols(raw: Text): seq<Text> {
    SpellEach(Singletons(raw))
  }

  lemma {:induction false} FlattenSingletons(raw: Text)
    ensures Flatten(Singletons(raw)) == raw
  {
    if raw != [] {
      assert Singletons(raw)[1..] == Singletons(raw[1..]);
      FlattenSingletons(raw[1..]);
    }
  }

  /** Merging two neighbouring groups keeps the octets. */
  lemma {:induction false} FlattenMerge(groups: seq<Text>, k: nat)
    requires k + 1 < |groups|
    ensures Flatten(Merge(groups, k)) == Flatten(groups)
    decreases k
  {
    if k == 0 {
      var a, b, rest := groups[0], groups[1], Flatten(groups[2..]);
      assert groups[1..][1..] == groups[2..] == Merge(groups, 0)[1..];
      assert Merge(groups, 0)[0] == a + b;
      assert a + (b + rest) == (a + b) + rest;
    } else {
      assert Merge(groups, k)[0] == groups[0];
      assert Merge(groups, k)[1..] == Merge(groups[1..], k - 1);
      FlattenMerge(groups[1..], k - 1);
    }
  }

  /** A symbol that merging can produce: the stand-in of one octet or both sides of a rule. */
  ghost predicate Producible(rules: seq<Rule>, symbol: Text)
    ensures Producible(rules, symbol) ==> symbol != []
  {
    || (exists value: byte :: symbol == ByteSymbol(value))
    || (exists rule <- rules :: rule.0 != [] && rule.1 != [] && symbol == rule.0 + rule.1)
  }

  /** Merging symbols is merging the octets that they spell. */
  lemma MergeSpelled(groups: seq<Text>, k: nat)
    requires k + 1 < |groups|
    ensures Merge(SpellEach(groups), k) == SpellEach(Merge(groups, k))
  {
    hide Spell;
    SpellAppend(groups[k], groups[k + 1]);
    MergeAtIndex(groups, k);
    MergeAtIndex(SpellEach(groups), k);
  }

  lemma MergeKeepsProducible(rules: seq<Rule>, symbols: seq<Text>, k: nat)
    requires k + 1 < |symbols| && PairRank(rules, symbols, k) < HUGE
    requires forall symbol <- symbols :: Producible(rules, symbol)
    ensures forall symbol <- Merge(symbols, k) :: Producible(rules, symbol)
  {
    var index := FirstIndex(rules, (symbols[k], symbols[k + 1]));
    assert rules[index] in rules;
    assert Producible(rules, symbols[k]) && Producible(rules, symbols[k + 1]);
    forall symbol | symbol in Merge(symbols, k)
      ensures Producible(rules, symbol)
    {
      if symbol != symbols[k] + symbols[k + 1] {
        assert symbol in symbols;
      }
    }
  }

  /**
   Merging keeps the spelled octets: whatever the rules, the final symbols spell
   consecutive groups of the same octets, and each of them is producible.
   */
  lemma {:induction false} MergeFullyKeepsSpelling(rules: seq<Rule>, groups: seq<Text>)
    returns (final: seq<Text>)
    requires forall symbol <- SpellEach(groups) :: Producible(rules, symbol)
    ensures MergeFully(rules, SpellEach(groups)) == SpellEach(final) && Flatten(final) == Flatten(groups)
    ensures forall symbol <- SpellEach(final) :: Producible(rules, symbol)
    decreases |groups|
  {
    var before := SpellEach(groups);
    if NoRuleApplies(rules, before) {
      final := groups;
    } else {
      var k := Best(rules, before);
      MergeSpelled(groups, k);
      FlattenMerge(groups, k);
      MergeKeepsProducible(rules, before, k);
      final := MergeFullyKeepsSpelling(rules, Merge(groups, k));
    }
  }

  /** The symbols of a pre-token after all merges. */
  ghost function PieceSymbols(rules: seq<Rule>, raw: Text): seq<Text> {
    MergeFully(rules, InitialSymbols(raw))
  }

  lemma InitialSymbolAt(raw: Text, i: nat)
    requires i < |raw|
    ensures |InitialSymbols(raw)| == |raw| && InitialSymbols(raw)[i] == ByteSymbol(raw[i])
  {
    assert Spell([raw[i]]) == ByteSymbol(raw[i]) + Spell([raw[i]][1..]);
  }

  lemma InitialSymbolsAreProducible(rules: seq<Rule>, raw: Text)
    ensures forall symbol <- InitialSymbols(raw) :: Producible(rules, symbol)
  {
    forall i | 0 <= i < |raw|
      ensures Producible(rules, InitialSymbols(raw)[i])
    {
      InitialSymbolAt(raw, i);
    }
  }

  // ---------------------------------------------------------------- merging as a chain

  /** `after` is `before` with its best pair merged. */
  ghost predicate IsBestMerge(rules: seq<Rule>, before: seq<Text>, after: seq<Text>) {
    exists k: nat :: IsBest(rules, before, k) && after == Merge(before, k)
  }

  /** Lists of symbols, each with the best pair of the one before merged, up to one without such a pair. */
  ghost predicate IsMerging(rules: seq<Rule>, chain: seq<seq<Text>>) {
    && chain != []
    && (forall i: nat | i + 1 < |chain| :: IsBestMerge(rules, chain[i], chain[i + 1]))
    && NoRuleApplies(rules, chain[|chain| - 1])
  }

  /** The merging of a pre-token: it begins with one symbol per octet. */
  ghost predicate IsMergeChain(rules: seq<Rule>, chain: seq<seq<Text>>, raw: Text) {
    && IsMerging(rules, chain)
    && |chain[0]| == |raw|
    && forall i | 0 <= i < |raw| :: chain[0][i] == ByteSymbol(raw[i])
  }

  lemma {:induction false} MergingEndsAtMergeFully(rules: seq<Rule>, symbols: seq<Text>) returns (chain: seq<seq<Text>>)
    ensures IsMerging(rules, chain) && chain[0] == symbols && chain[|chain| - 1] == MergeFully(rules, symbols)
    decreases |symbols|
  {
    hide IsBest;
    if NoRuleApplies(rules, symbols) {
      chain := [symbols];
    } else {
      var k := Best(rules, symbols);
      BestInRange(rules, symbols, k);
      var rest := MergingEndsAtMergeFully(rules, Merge(symbols, k));
      chain := [symbols] + rest;
      forall i: nat | i + 1 < |chain|
        ensures IsBestMerge(rules, chain[i], chain[i + 1])
      {
        if i > 0 { assert chain[i] == rest[i - 1]; }
      }
    }
  }

  /** The symbols of a pre-token are those at the end of such a chain. */
  lemma MergeChainOf(rules: seq<Rule>, raw: Text) returns (chain: seq<seq<Text>>)
    ensures IsMergeChain(rules, chain, raw) && chain[|chain| - 1] == PieceSymbols(rules, raw)
  {
    hide IsMerging;
    chain := MergingEndsAtMergeFully(rules, InitialSymbols(raw));
    forall i | 0 <= i < |raw|
      ensures InitialSymbols(raw)[i] == ByteSymbol(raw[i])
    {
      InitialSymbolAt(raw, i);
    }
  }

  lemma BestMergeIsUnique(rules: seq<Rule>, before: seq<Text>, one: seq<Text>, other: seq<Text>)
    requires IsBestMerge(rules, before, one)
    ensures !NoRuleApplies(rules, before)
    ensures IsBestMerge(rules, before, other) ==> one == other
  {
    if IsBestMerge(rules, before, other) {
      var a: nat :| IsBest(rules, before, a) && one == Merge(before, a);
      var b: nat :| IsBest(rules, before, b) && other == Merge(before, b);
      BestIsUnique(rules, before, a, b);
    }
  }

  /** And from the same symbols there is only one. */
  lemma {:induction false} MergingIsUnique(rules: seq<Rule>, one: seq<seq<Text>>, other: seq<seq<Text>>)
    requires IsMerging(rules, one) && IsMerging(rules, other) && one[0] == other[0]
    ensures one == other
    decreases |one|
  {
    hide IsBestMerge, NoRuleApplies;
    if |one| > 1 {
      BestMergeIsUnique(rules, one[0], one[0 + 1], if |other| > 1 then other[0 + 1] else []);
    } else if |other| > 1 {
      BestMergeIsUnique(rules, other[0], other[0 + 1], []);
    }
    if |one| > 1 {
      MergingTail(rules, one);
      MergingTail(rules, other);
      MergingIsUnique(rules, one[1..], other[1..]);
      assert one == [one[0]] + one[1..] && other == [other[0]] + other[1..];
    }
  }

  lemma MergingTail(rules: seq<Rule>, chain: seq<seq<Text>>)
    requires IsMerging(rules, chain) && |chain| > 1
    ensures IsMerging(rules, chain[1..])
  {
    hide IsBestMerge, NoRuleApplies;
    forall i: nat | i + 1 < |chain[1..]|
      ensures IsBestMerge(rules, chain[1..][i], chain[1..][i + 1])
    {
      assert IsBestMerge(rules, chain[i + 1], chain[i + 1 + 1]);
    }
  }

  lemma MergeChainIsUnique(rules: seq<Rule>, raw: Text, one: seq<seq<Text>>, other: seq<seq<Text>>)
    requires IsMergeChain(rules, one, raw) && IsMergeChain(rules, other, raw)
    ensures one == other
  {
    MergingIsUnique(rules, one, other);
  }
}
