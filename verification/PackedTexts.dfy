/**
 Immutable strings in one contiguous blob with an offset and a length per entry, and the
 linear searches over them.
 */
module PackedTexts {
  import opened Bytes
  import opened Bpe

  class Packed {
    const blob: array<byte>
    const offset: array<int>
    const length: array<int>
    var position: nat
    ghost const Repr: set<object>

    /** Entry i is blob[offset[i] - 1..offset[i] - 1 + length[i]]; an entry of length 0 has no place in the blob. */
    ghost predicate Valid()
      reads this, Repr
    {
      && Repr == {this, blob, offset, length}
      && offset != length
      && offset.Length == length.Length
      && 1 <= position <= blob.Length + 1
      && (forall i | 0 <= i < length.Length :: InPlace(i))
    }

    ghost predicate InPlace(i: int)
      requires offset.Length == length.Length && 0 <= i < length.Length
      reads this, offset, length
    {
      0 <= length[i] && (length[i] > 0 ==> 1 <= offset[i] && offset[i] + length[i] <= position)
    }

    ghost function At(i: int): Text
      requires Valid() && 0 <= i < length.Length
      reads this, Repr
    {
      assert InPlace(i);
      if length[i] == 0 then [] else blob[offset[i] - 1..offset[i] - 1 + length[i]]
    }

    /** The strings that the blob stands for. */
    ghost function Texts(): (texts: seq<Text>)
      requires Valid()
      reads this, Repr
      ensures |texts| == length.Length
    {
      seq(length.Length, i requires 0 <= i < length.Length && Valid() reads this, Repr => At(i))
    }

    constructor (entries: nat, total: nat)
      ensures Valid() && fresh(Repr)
      ensures length.Length == entries && position == 1 && blob.Length >= total
      ensures Texts() == seq(entries, i => [])
    {
      blob := new byte[if total > 1 then total else 1];
      offset := new int[entries](_ => 0);
      length := new int[entries](_ => 0);
      position := 1;
      Repr := {this, blob, offset, length};
    }

    /** Copies `text` behind what is already packed. */
    method Copy(text: Text)
      requires Valid() && position - 1 + |text| <= blob.Length
      modifies blob
      ensures blob[..position - 1] == old(blob[..position - 1])
      ensures blob[position - 1..position - 1 + |text|] == text
    {
      for k := 0 to |text|
        invariant blob[..position - 1] == old(blob[..position - 1])
        invariant blob[position - 1..position - 1 + k] == text[..k]
      {
        blob[position - 1 + k] := text[k];
      }
    }

    /** An entry does not depend on the blob behind what was packed. */
    twostate lemma EntryKept(j: nat)
      requires old(Valid()) && Valid() && j < length.Length
      requires old(offset[j]) == offset[j] && old(length[j]) == length[j]
      requires blob[..old(position) - 1] == old(blob[..position - 1]) && old(position) <= position
      ensures At(j) == old(At(j))
    {
      assert old(InPlace(j)) && InPlace(j);
      if length[j] > 0 {
        var from, to, end := offset[j] - 1, offset[j] - 1 + length[j], old(position) - 1;
        var now, before := blob[..], old(blob[..]);
        assert now[..end] == before[..end];
        SamePart(now, before, end, from, to);
        assert At(j) == now[from..to] && old(At(j)) == before[from..to];
      }
    }

    static lemma SamePart(a: Text, b: Text, end: nat, from: nat, to: nat)
      requires end <= |a| && end <= |b| && a[..end] == b[..end] && from <= to <= end
      ensures a[from..to] == b[from..to]
    {
      assert a[from..to] == a[..end][from..to] && b[from..to] == b[..end][from..to];
    }

    /** Places `text` behind what is already packed and makes it entry i. */
    method Store(i: nat, text: Text)
      requires Valid() && i < length.Length && length[i] == 0
      requires position - 1 + |text| <= blob.Length
      modifies Repr
      ensures Valid()
      ensures position == old(position) + |text|
      ensures Texts() == old(Texts())[i := text]
    {
      ghost var before := Texts();
      Copy(text);
      offset[i] := position;
      length[i] := |text|;
      position := position + |text|;
      forall j | 0 <= j < length.Length
        ensures InPlace(j)
      {
        assert old(InPlace(j));
      }
      forall j: nat | j < length.Length && j != i
        ensures At(j) == before[j]
      {
        EntryKept(j);
      }
      assert At(i) == text;
      assert Texts() == before[i := text];
    }

    /** `lookup_vocabulary`: the number of the first entry equal to `text`, counted from 0, or -1. */
    method Find(text: Text) returns (id: int)
      requires Valid()
      ensures id == FindIn(Texts(), text)
    {
      for i := 0 to length.Length
        invariant forall j | 0 <= j < i :: Texts()[j] != text
      {
        assert InPlace(i) && Texts()[i] == At(i);
        if length[i] == |text| {
          if |text| == 0 {
            return i;
          } else if blob[offset[i] - 1..offset[i] + length[i] - 1] == text {
            return i;
          }
        }
      }
      return -1;
    }
  }

  function FindIn(texts: seq<Text>, text: Text): int {
    var index := FirstIndex(texts, text);
    if index < |texts| then index else -1
  }

  // ---------------------------------------------------------------- merge rules

  /** The intrinsic `index(text, ' ')`: the place of the first space counted from 1, or 0. */
  function Separator(text: Text): nat {
    var index := FirstIndex(text, SPACE);
    if index < |text| then index + 1 else 0
  }

  /** A rule string is split at its first space; a string without both sides is kept as an empty rule. */
  function ParseRule(text: Text): Rule {
    var separator := Separator(text);
    if separator <= 1 || separator >= |text| then ([], [])
    else (text[..separator - 1], text[separator..])
  }

  function ParseRules(texts: seq<Text>): seq<Rule> {
    seq(|texts|, i requires 0 <= i < |texts| => ParseRule(texts[i]))
  }

  function Zip(lefts: seq<Text>, rights: seq<Text>): seq<Rule>
    requires |lefts| == |rights|
  {
    seq(|lefts|, i requires 0 <= i < |lefts| => (lefts[i], rights[i]))
  }

  function TotalLength(texts: seq<Text>): nat {
    if texts == [] then 0 else TotalLength(texts[..|texts| - 1]) + |texts[|texts| - 1]|
  }

  lemma {:induction false} TotalLengthMonotone(texts: seq<Text>, i: nat)
    requires i <= |texts|
    ensures TotalLength(texts[..i]) <= TotalLength(texts)
    decreases |texts|
  {
    if i < |texts| {
      assert texts[..|texts| - 1][..i] == texts[..i];
      TotalLengthMonotone(texts[..|texts| - 1], i);
    } else {
      assert texts[..i] == texts;
    }
  }

  lemma SeparatorOfJoined(left: Text, right: Text)
    requires left != [] && right != [] && SPACE !in left
    ensures ParseRule(left + [SPACE] + right) == (left, right)
  {
    var joined := left + [SPACE] + right;
    assert joined[|left|] == SPACE;
    var index := FirstIndex(joined, SPACE);
    assert forall i | 0 <= i < |left| :: joined[i] == left[i];
    assert joined[..|left|] == left && joined[|left| + 1..] == right;
  }

  lemma JoinedOfParsed(text: Text)
    requires ParseRule(text) != ([], [])
    ensures text == ParseRule(text).0 + [SPACE] + ParseRule(text).1
  {
    var separator := Separator(text);
    assert text[separator - 1] == SPACE;
    assert text == text[..separator - 1] + [text[separator - 1]] + text[separator..];
  }

  /** The lookup that the merge loop makes is a search for "left right" in the original strings. */
  lemma RankIsFirstString(texts: seq<Text>, left: Text, right: Text)
    requires left != [] && right != [] && SPACE !in left
    ensures var index := FirstIndex(texts, left + [SPACE] + right);
            Rank(ParseRules(texts), left, right) == if index < |texts| then index + 1 else HUGE
  {
    var target, rules := left + [SPACE] + right, ParseRules(texts);
    SeparatorOfJoined(left, right);
    forall i | 0 <= i < |texts|
      ensures rules[i] == (left, right) <==> texts[i] == target
    {
      if rules[i] == (left, right) {
        JoinedOfParsed(texts[i]);
      }
    }
    var p, q := FirstIndex(rules, (left, right)), FirstIndex(texts, target);
    if p < |texts| {
      assert rules[p] == (left, right);
    }
    if q < |texts| {
      assert texts[q] == target;
    }
  }

  /** `lookup_merge`: the number of the first rule for the pair, counted from 1, or `huge(0)`. */
  method FindRule(lefts: Packed, rights: Packed, left: Text, right: Text) returns (rank: nat)
    requires lefts.Valid() && rights.Valid() && lefts.length.Length == rights.length.Length
    ensures rank == Rank(Zip(lefts.Texts(), rights.Texts()), left, right)
  {
    ghost var rules := Zip(lefts.Texts(), rights.Texts());
    for i := 0 to lefts.length.Length
      invariant forall j | 0 <= j < i :: rules[j] != (left, right)
    {
      assert lefts.InPlace(i) && rights.InPlace(i);
      assert rules[i] == (lefts.At(i), rights.At(i));
      if lefts.length[i] != |left| || rights.length[i] != |right| { continue; }
      if |left| > 0 && lefts.blob[lefts.offset[i] - 1..lefts.offset[i] + lefts.length[i] - 1] != left { continue; }
      if |right| > 0 && rights.blob[rights.offset[i] - 1..rights.offset[i] + rights.length[i] - 1] != right { continue; }
      return i + 1;
    }
    return HUGE;
  }

  /** The vocabulary part of `open`: all entries packed one behind the other. */
  method Pack(texts: seq<Text>) returns (packed: Packed)
    ensures packed.Valid() && fresh(packed.Repr)
    ensures packed.Texts() == texts
  {
    var total := 0;
    for i := 0 to |texts|
      invariant total == TotalLength(texts[..i])
    {
      assert texts[..i + 1][..i] == texts[..i];
      total := total + |texts[i]|;
    }
    assert texts[..|texts|] == texts;
    packed := new Packed(|texts|, total);
    for i := 0 to |texts|
      invariant packed.Valid() && fresh(packed.Repr) && packed.length.Length == |texts|
      invariant packed.blob.Length >= TotalLength(texts)
      invariant packed.position == 1 + TotalLength(texts[..i])
      invariant packed.Texts() == texts[..i] + seq(|texts| - i, _ => [])
    {
      assert texts[..i + 1][..i] == texts[..i];
      TotalLengthMonotone(texts, i + 1);
      EmptyEntry(packed, i);
      packed.Store(i, texts[i]);
    }
  }

  lemma EmptyEntry(packed: Packed, i: nat)
    requires packed.Valid() && i < packed.length.Length && packed.Texts()[i] == []
    ensures packed.length[i] == 0
  {
    assert packed.InPlace(i) && packed.Texts()[i] == packed.At(i);
  }

  function LeftLength(texts: seq<Text>): nat {
    if texts == [] then 0 else LeftLength(texts[..|texts| - 1]) + |ParseRule(texts[|texts| - 1]).0|
  }

  function RightLength(texts: seq<Text>): nat {
    if texts == [] then 0 else RightLength(texts[..|texts| - 1]) + |ParseRule(texts[|texts| - 1]).1|
  }

  lemma {:induction false} RuleLengthsMonotone(texts: seq<Text>, i: nat)
    requires i <= |texts|
    ensures LeftLength(texts[..i]) <= LeftLength(texts) && RightLength(texts[..i]) <= RightLength(texts)
    decreases |texts|
  {
    if i < |texts| {
      assert texts[..|texts| - 1][..i] == texts[..i];
      RuleLengthsMonotone(texts[..|texts| - 1], i);
    } else {
      assert texts[..i] == texts;
    }
  }

  /** The left sides of the first `done` rules, the others still empty. */
  function Lefts(texts: seq<Text>, done: nat): seq<Text> {
    seq(|texts|, j requires 0 <= j < |texts| => if j < done then ParseRule(texts[j]).0 else [])
  }

  function Rights(texts: seq<Text>, done: nat): seq<Text> {
    seq(|texts|, j requires 0 <= j < |texts| => if j < done then ParseRule(texts[j]).1 else [])
  }

  /** The first pass over the rules: how much room each side needs. */
  method RuleLengths(texts: seq<Text>) returns (totalLeft: nat, totalRight: nat)
    ensures totalLeft == LeftLength(texts) && totalRight == RightLength(texts)
  {
    totalLeft, totalRight := 0, 0;
    for i := 0 to |texts|
      invariant totalLeft == LeftLength(texts[..i]) && totalRight == RightLength(texts[..i])
    {
      assert texts[..i + 1][..i] == texts[..i];
      var separator := Separator(texts[i]);
      if separator <= 1 || separator >= |texts[i]| { continue; }
      totalLeft := totalLeft + separator - 1;
      totalRight := totalRight + |texts[i]| - separator;
    }
    assert texts[..|texts|] == texts;
  }

  /** One turn of the second pass. */
  method StoreRule(lefts: Packed, rights: Packed, texts: seq<Text>, i: nat)
    requires lefts.Valid() && rights.Valid() && lefts.Repr !! rights.Repr && i < |texts|
    requires lefts.Texts() == Lefts(texts, i) && rights.Texts() == Rights(texts, i)
    requires lefts.position - 1 + |ParseRule(texts[i]).0| <= lefts.blob.Length
    requires rights.position - 1 + |ParseRule(texts[i]).1| <= rights.blob.Length
    modifies lefts.Repr, rights.Repr
    ensures lefts.Valid() && rights.Valid()
    ensures lefts.Texts() == Lefts(texts, i + 1) && rights.Texts() == Rights(texts, i + 1)
    ensures lefts.position == old(lefts.position) + |ParseRule(texts[i]).0|
    ensures rights.position == old(rights.position) + |ParseRule(texts[i]).1|
  {
    EmptyEntry(lefts, i);
    EmptyEntry(rights, i);
    assert Lefts(texts, i)[i := ParseRule(texts[i]).0] == Lefts(texts, i + 1);
    assert Rights(texts, i)[i := ParseRule(texts[i]).1] == Rights(texts, i + 1);
    var separator := Separator(texts[i]);
    if separator <= 1 || separator >= |texts[i]| { return; }
    lefts.Store(i, texts[i][..separator - 1]);
    rights.Store(i, texts[i][separator..]);
  }

  lemma NothingPacked(texts: seq<Text>)
    ensures Lefts(texts, 0) == seq(|texts|, i => []) == Rights(texts, 0)
    ensures LeftLength(texts[..0]) == 0 == RightLength(texts[..0])
  {
  }

  lemma LengthsGrow(texts: seq<Text>, i: nat)
    requires i < |texts|
    ensures LeftLength(texts[..i + 1]) == LeftLength(texts[..i]) + |ParseRule(texts[i]).0|
    ensures RightLength(texts[..i + 1]) == RightLength(texts[..i]) + |ParseRule(texts[i]).1|
  {
    assert texts[..i + 1][..i] == texts[..i];
  }

  lemma ZipRules(texts: seq<Text>)
    ensures |Lefts(texts, |texts|)| == |Rights(texts, |texts|)|
    ensures Zip(Lefts(texts, |texts|), Rights(texts, |texts|)) == ParseRules(texts)
  {
    hide ParseRule;
  }

  /** The merge part of `open`: both sides of every rule, each side in its own blob. */
  method PackRules(texts: seq<Text>) returns (lefts: Packed, rights: Packed)
    ensures lefts.Valid() && rights.Valid() && fresh(lefts.Repr) && fresh(rights.Repr)
    ensures lefts.length.Length == rights.length.Length == |texts|
    ensures Zip(lefts.Texts(), rights.Texts()) == ParseRules(texts)
  {
    hide LeftLength, RightLength, ParseRule, ParseRules, Zip, Lefts, Rights;
    NothingPacked(texts);
    var totalLeft, totalRight := RuleLengths(texts);
    lefts := new Packed(|texts|, totalLeft);
    rights := new Packed(|texts|, totalRight);
    assert lefts.Texts() == Lefts(texts, 0) && rights.Texts() == Rights(texts, 0);
    for i := 0 to |texts|
      invariant lefts.Valid() && rights.Valid() && fresh(lefts.Repr) && fresh(rights.Repr)
      invariant lefts.Repr !! rights.Repr
      invariant lefts.blob.Length >= totalLeft && rights.blob.Length >= totalRight
      invariant lefts.position == 1 + LeftLength(texts[..i]) && rights.position == 1 + RightLength(texts[..i])
      invariant lefts.Texts() == Lefts(texts, i) && rights.Texts() == Rights(texts, i)
    {
      assert texts[..i + 1][..i] == texts[..i];
      RuleLengthsMonotone(texts, i + 1);
      LengthsGrow(texts, i);
      StoreRule(lefts, rights, texts, i);
    }
    ZipRules(texts);
  }
}
