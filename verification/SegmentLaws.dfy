/**
 How special tokens are cut out of a text and what becomes of them: laws that determine the
 segments and the ids of a text from those of its parts.
 */
module SegmentLaws {
  import opened Bytes
  import opened ByteAlphabet
  import opened Bpe
  import opened PackedTexts
  import opened PreTokenizer
  import opened Tokenizer
  import opened SpecialTokens

  const LESS: byte := 0x3C

  lemma OctetOfOccurrence(text: Text, needle: Text, place: nat, k: nat)
    requires OccursAt(text, needle, place) && k < |needle|
    ensures text[place - 1 + k] == needle[k]
  {
    assert text[place - 1..place - 1 + |needle|][k] == text[place - 1 + k];
  }

  lemma MarkersBeginWithLess(i: nat)
    requires i < |INLINE_MARKERS|
    ensures |INLINE_MARKERS[i]| >= 7 && INLINE_MARKERS[i][0] == LESS && INLINE_MARKERS[i][1] != OPEN[1] && OPEN[0] == LESS
  {
  }

  /** Two inline markers at one place are the same. */
  lemma OneInlineMarker(text: Text, place: nat, i: nat, j: nat)
    requires i < |INLINE_MARKERS| && j < |INLINE_MARKERS|
    requires OccursAt(text, INLINE_MARKERS[i], place) && OccursAt(text, INLINE_MARKERS[j], place)
    ensures i == j
  {
    hide OccursAt;
    MarkersBeginWithLess(i);
    MarkersBeginWithLess(j);
    OctetOfOccurrence(text, INLINE_MARKERS[i], place, 1);
    OctetOfOccurrence(text, INLINE_MARKERS[j], place, 1);
    OctetOfOccurrence(text, INLINE_MARKERS[i], place, 2);
    OctetOfOccurrence(text, INLINE_MARKERS[j], place, 2);
    OctetOfOccurrence(text, INLINE_MARKERS[i], place, 3);
    OctetOfOccurrence(text, INLINE_MARKERS[j], place, 3);
    OctetOfOccurrence(text, INLINE_MARKERS[i], place, 6);
    OctetOfOccurrence(text, INLINE_MARKERS[j], place, 6);
    if |INLINE_MARKERS[i]| > 7 && |INLINE_MARKERS[j]| > 7 {
      OctetOfOccurrence(text, INLINE_MARKERS[i], place, 7);
      OctetOfOccurrence(text, INLINE_MARKERS[j], place, 7);
    }
  }

  /** No marker begins where there is no "<". */
  lemma NotBefore(text: Text, h: nat, marker: Marker)
    requires h <= |text| && LESS !in text[..h] && IsFirstMarker(text, marker)
    ensures marker.place == 0 || marker.place > h
  {
    hide OccursAt;
    if 0 < marker.place <= h {
      assert text[..h][marker.place - 1] == text[marker.place - 1];
      if marker.length > 0 {
        var i :| 0 <= i < |INLINE_MARKERS| && |INLINE_MARKERS[i]| == marker.length && OccursAt(text, INLINE_MARKERS[i], marker.place);
        MarkersBeginWithLess(i);
        OctetOfOccurrence(text, INLINE_MARKERS[i], marker.place, 0);
      } else {
        OctetOfOccurrence(text, OPEN, marker.place, 0);
      }
    }
  }

  /** The first marker is the one that stands behind a text without "<". */
  lemma FirstMarkerBehind(text: Text, h: nat, marker: Marker)
    requires h < |text| && LESS !in text[..h] && IsFirstMarker(text, marker)
    ensures OccursAt(text, OPEN, h + 1) ==> marker == Marker(h + 1, 0)
    ensures forall i | 0 <= i < |INLINE_MARKERS| && OccursAt(text, INLINE_MARKERS[i], h + 1) ::
      marker == Marker(h + 1, |INLINE_MARKERS[i]|)
  {
    hide OccursAt;
    NotBefore(text, h, marker);
    if OccursAt(text, OPEN, h + 1) {
      OctetOfOccurrence(text, OPEN, h + 1, 1);
      OpenIsNotInline(text, h + 1, marker);
    }
    forall i | 0 <= i < |INLINE_MARKERS| && OccursAt(text, INLINE_MARKERS[i], h + 1)
      ensures marker == Marker(h + 1, |INLINE_MARKERS[i]|)
    {
      InlineIsNotOpen(text, h + 1, i);
      var j :| 0 <= j < |INLINE_MARKERS| && |INLINE_MARKERS[j]| == marker.length && OccursAt(text, INLINE_MARKERS[j], marker.place);
      OneInlineMarker(text, h + 1, i, j);
    }
  }

  lemma InlineIsNotOpen(text: Text, place: nat, i: nat)
    requires i < |INLINE_MARKERS| && OccursAt(text, INLINE_MARKERS[i], place)
    ensures !OccursAt(text, OPEN, place)
  {
    hide OccursAt;
    MarkersBeginWithLess(i);
    OctetOfOccurrence(text, INLINE_MARKERS[i], place, 1);
    if OccursAt(text, OPEN, place) { OctetOfOccurrence(text, OPEN, place, 1); }
  }

  lemma OpenIsNotInline(text: Text, place: nat, marker: Marker)
    requires OccursAt(text, OPEN, place) && IsFirstMarker(text, marker) && marker.place == place
    ensures marker.length == 0
  {
    hide OccursAt;
    if marker.length > 0 {
      var i :| 0 <= i < |INLINE_MARKERS| && |INLINE_MARKERS[i]| == marker.length && OccursAt(text, INLINE_MARKERS[i], marker.place);
      InlineIsNotOpen(text, place, i);
    }
  }

  lemma OccursInFront(head: Text, tail: Text, needle: Text)
    requires needle <= tail
    ensures OccursAt(head + tail, needle, |head| + 1)
  {
    assert (head + tail)[|head|..|head| + |needle|] == tail[..|needle|] == needle;
  }

  lemma OccursInPrefix(part: Text, text: Text, needle: Text, place: nat)
    requires part <= text && place - 1 + |needle| <= |part|
    ensures OccursAt(part, needle, place) <==> OccursAt(text, needle, place)
  {
    if place > 0 {
      assert part[place - 1..place - 1 + |needle|] == text[place - 1..place - 1 + |needle|];
    }
  }

  /** The special token ends where it should. */
  lemma SpecialEndOf(head: Text, special: Text, tail: Text)
    requires |special| >= 4 && OPEN <= special && special[|special| - 2..] == CLOSE && Lacks(special[2..|special| - 1], CLOSE)
    ensures SpecialEnd(head + special + tail, |head|, 0) == |head| + |special|
  {
    var text, closing := head + special + tail, |special| - 3;
    var rest := text[|head| + 2..];
    assert rest == special[2..] + tail;
    assert rest[closing - 1..closing + 1] == special[|special| - 2..];
    assert OccursAt(rest, CLOSE, closing);
    var inner := special[2..|special| - 1];
    assert |inner| == closing && forall k | 0 <= k < closing :: inner[k] == rest[k];
    forall p: nat | 0 < p < closing
      ensures !OccursAt(rest, CLOSE, p)
    {
      OccursInPrefix(inner, rest, CLOSE, p);
    }
  }

  /** One turn of the splitter on a text that begins without "<" and goes on with a special token. */
  lemma CutOfSpecial(head: Text, special: Text, tail: Text)
    requires LESS !in head && IsSpecialText(special)
    ensures FirstCut(head + special + tail) == Cut(PlainUpTo(head, |head|) + [Special(special)], |head| + |special|)
  {
    hide OccursAt, NextMarker, SpecialEnd, Lacks;
    var text := head + special + tail;
    assert text == head + (special + tail) && text[..|head|] == head;
    NextMarkerIsFirst(text);
    if special in INLINE_MARKERS {
      var i :| 0 <= i < |INLINE_MARKERS| && special == INLINE_MARKERS[i];
      OccursInFront(head, special + tail, special);
      FirstMarkerBehind(text, |head|, NextMarker(text));
      InlineEnd(text, |head|, |special|);
    } else {
      OccursInFront(head, special + tail, OPEN);
      FirstMarkerBehind(text, |head|, NextMarker(text));
      SpecialEndOf(head, special, tail);
    }
    assert text[|head|..|head| + |special|] == special;
    assert head[..|head|] == head;
  }

  lemma InlineEnd(text: Text, finish: nat, length: nat)
    requires finish + length <= |text| && length > 0
    ensures SpecialEnd(text, finish, length) == finish + length
  {
  }

  /** A special token behind a text without "<" is cut out, whatever follows. */
  lemma SpecialIsCutOut(head: Text, special: Text, tail: Text)
    requires LESS !in head && IsSpecialText(special)
    ensures Segments(head + special + tail) == PlainUpTo(head, |head|) + [Special(special)] + Segments(tail)
  {
    hide FirstCut;
    CutOfSpecial(head, special, tail);
    assert (head + special + tail)[|head| + |special|..] == tail;
  }

  /** A text without "<" is one segment, and so is the rest of a text from a "<|" that is never closed. */
  lemma PlainIsOneSegment(head: Text)
    requires LESS !in head && head != []
    ensures Segments(head) == [PlainText(head)]
  {
    hide NextMarker;
    NextMarkerIsFirst(head);
    assert head[..|head|] == head;
    NotBefore(head, |head|, NextMarker(head));
    MarkerInText(head);
    assert head[|head|..] == [];
  }

  lemma UnclosedStaysPlain(head: Text, rest: Text)
    requires LESS !in head && IsUnclosed(rest)
    ensures Segments(head + rest) == PlainUpTo(head, |head|) + [PlainText(rest)]
  {
    hide NextMarker, OccursAt;
    var text := head + rest;
    assert text[..|head|] == head && text[|head|..] == rest && head[..|head|] == head;
    NextMarkerIsFirst(text);
    OccursInFront(head, rest, OPEN);
    FirstMarkerBehind(text, |head|, NextMarker(text));
    assert text[|head| + 2..] == rest[2..];
    assert text[|text|..] == [];
  }

  // ---------------------------------------------------------------- ids

  lemma SegmentsIdsOfOne(model: Model, segment: Segment)
    ensures SegmentsIds(model, [segment]) == SegmentIds(model, segment)
  {
    assert SegmentsIds(model, [segment][1..]) == [];
  }

  lemma IdsUpTo(model: Model, head: Text)
    ensures SegmentsIds(model, PlainUpTo(head, |head|)) == PlainIds(model, head)
  {
    hide SegmentIds;
    assert head[..|head|] == head;
    if head == [] {
      assert Pieces(model.scanner, head, 0) == [];
    } else {
      SegmentsIdsOfOne(model, PlainText(head));
      PlainSegmentIds(model, head);
    }
  }

  lemma PlainSegmentIds(model: Model, text: Text)
    ensures SegmentIds(model, PlainText(text)) == PlainIds(model, text)
  {
  }

  /** A special token in the vocabulary is one id, the first of its entries; any other is encoded as text. */
  lemma SpecialIds(model: Model, special: Text)
    ensures special in model.tokens ==> SegmentsIds(model, [Special(special)]) == [FirstIndex(model.tokens, special)]
    ensures special !in model.tokens ==> SegmentsIds(model, [Special(special)]) == PlainIds(model, special)
  {
    SegmentsIdsOfOne(model, Special(special));
  }

  /** The leading token, then the text in front, the special token, and the rest. */
  lemma IdsAroundSpecial(model: Model, head: Text, special: Text, tail: Text, addSpecial: bool)
    requires LESS !in head && IsSpecialText(special)
    ensures
      var leading := if addSpecial && model.bos >= 0 then [model.bos] else [];
      var middle := if special in model.tokens then [FirstIndex(model.tokens, special)] else PlainIds(model, special);
      TextIds(model, head + special + tail, addSpecial, true)
        == leading + PlainIds(model, head) + middle + TextIds(model, tail, false, true)
  {
    hide SegmentsIds, PlainIds, IsSpecialText, Segments, FirstIndex;
    SpecialIsCutOut(head, special, tail);
    var first, second, rest := PlainUpTo(head, |head|), [Special(special)], Segments(tail);
    SegmentsIdsAppend(model, first + second, rest);
    SegmentsIdsAppend(model, first, second);
    IdsUpTo(model, head);
    SpecialIds(model, special);
    var leading := if addSpecial && model.bos >= 0 then [model.bos] else [];
    Associates(leading, SegmentsIds(model, first), SegmentsIds(model, second), SegmentsIds(model, rest));
    assert [] + SegmentsIds(model, rest) == SegmentsIds(model, rest);
  }

  lemma Associates(a: seq<int>, b: seq<int>, c: seq<int>, d: seq<int>)
    ensures a + ((b + c) + d) == a + b + c + d
  {
  }

  /** A text without "<" is encoded as one, with or without special tokens. */
  lemma IdsOfPlain(model: Model, head: Text, addSpecial: bool, parseSpecial: bool)
    requires LESS !in head
    ensures TextIds(model, head, addSpecial, parseSpecial)
      == (if addSpecial && model.bos >= 0 then [model.bos] else []) + PlainIds(model, head)
  {
    hide SegmentsIds, PlainIds, Segments;
    IdsUpTo(model, head);
    assert head[..|head|] == head;
    if head == [] {
      NoSegments();
    } else {
      PlainIsOneSegment(head);
    }
  }

  lemma NoSegments()
    ensures Segments([]) == []
  {
  }

  // ---------------------------------------------------------------- a concrete text

  const A: byte := 0x61
  const B: byte := 0x62
  const AB: Text := [A, B]

  lemma SymbolsOfAb()
    ensures InitialSymbols(AB) == [[A], [B]]
  {
    InitialSymbolAt(AB, 0);
    InitialSymbolAt(AB, 1);
    assert ByteSymbol(A) == [A] && ByteSymbol(B) == [B];
  }

  /** The only pair has the only rule. */
  lemma AbIsMerged(rules: seq<Rule>)
    requires rules == [([A], [B])]
    ensures PieceSymbols(rules, AB) == [AB]
  {
    hide MergeFully, InitialSymbols;
    SymbolsOfAb();
    var symbols := [[A], [B]];
    assert FirstIndex(rules, ([A], [B])) == 0;
    assert PairRank(rules, symbols, 0) == 1;
    assert IsBest(rules, symbols, 0);
    MergeFullyStep(rules, symbols, 0);
    assert [A] + [B] == AB;
    assert Merge(symbols, 0) == [AB];
    MergeFullyShort(rules, [AB]);
  }

  lemma AbIsOnePiece()
    ensures Pieces(Plain, AB, 0) == [AB]
  {
    hide PlainEnd, Pieces;
    PlainEndMeans(AB, 0, 2);
    assert PlainEnd(AB, 0) == 2;
    assert AB[0..2] == AB;
    PlainPiece(AB, 0, 2);
  }

  lemma PlainPiece(text: Text, start: nat, end: nat)
    requires start < |text| && PlainEnd(text, start) == end == |text|
    ensures Pieces(Plain, text, start) == [text[start..end]]
  {
    hide PlainEnd;
    assert Pieces(Plain, text, end) == [];
  }

  /** "ab" is one token where "a" and "b" merge, whatever the options but the leading token are. */
  lemma AbIsOneToken(model: Model, addSpecial: bool, parseSpecial: bool)
    requires model.scanner == Plain && model.rules == [([A], [B])] && AB in model.tokens
    ensures TextIds(model, AB, addSpecial, parseSpecial)
      == (if addSpecial && model.bos >= 0 then [model.bos] else []) + [FirstIndex(model.tokens, AB)]
  {
    hide PieceSymbols, SymbolIds, Pieces;
    IdsOfPlain(model, AB, addSpecial, parseSpecial);
    AbIsOnePiece();
    AbIsMerged(model.rules);
    SymbolIdsOfOne(model.tokens, AB);
    assert PiecesIds(model, [AB][1..]) == [];
    assert PiecesIds(model, [AB]) == PieceIds(model, AB) + [];
  }

  /** "ab<|x|>ab<think>" with both special tokens in the vocabulary is four tokens. */
  lemma AbWithSpecials(model: Model, special: Text, think: Text)
    requires model.scanner == Plain && model.rules == [([A], [B])] && AB in model.tokens
    requires special == Ascii("<|x|>") && special in model.tokens
    requires think == Ascii("<think>") && think in model.tokens
    requires model.bos >= 0
    ensures TextIds(model, AB + special + (AB + think + []), true, true)
      == [model.bos, FirstIndex(model.tokens, AB), FirstIndex(model.tokens, special),
          FirstIndex(model.tokens, AB), FirstIndex(model.tokens, think)]
  {
    hide TextIds, IsSpecialText, PlainIds, FirstIndex;
    IdsAroundSpecial(model, AB, special, AB + think + [], true) by {
      ExampleIsSpecial(special);
    }
    IdsAroundSpecial(model, AB, think, [], false) by {
      InlineMarkersAreSpecial();
    }
    AbIsOneToken(model, false, true);
    IdsOfPlain(model, AB, false, true);
    IdsOfPlain(model, [], false, true);
    NothingPlain(model);
    var ab, x, t := FirstIndex(model.tokens, AB), FirstIndex(model.tokens, special), FirstIndex(model.tokens, think);
    assert PlainIds(model, AB) == [] + PlainIds(model, AB) == [] + [ab] == [ab];
    assert TextIds(model, [], false, true) == [] + PlainIds(model, []) == [];
    assert TextIds(model, AB + think + [], false, true) == [] + [ab] + [t] + [] == [ab, t];
    assert [model.bos] + [ab] + [x] + [ab, t] == [model.bos, ab, x, ab, t];
  }

  lemma NothingPlain(model: Model)
    ensures PlainIds(model, []) == []
  {
  }

  lemma ExampleIsSpecial(special: Text)
    requires special == Ascii("<|x|>")
    ensures IsSpecialText(special)
  {
    assert special == [0x3C, 0x7C, 0x78, 0x7C, 0x3E];
    assert special[..2] == OPEN && special[3..] == CLOSE;
    var inner := special[2..4];
    assert inner == [0x78, 0x7C];
    forall place: nat
      ensures !OccursAt(inner, CLOSE, place)
    {
      if place == 1 { assert inner[0..2][0] == 0x78; }
    }
  }

  /** The six inline markers are special on their own. */
  lemma InlineMarkersAreSpecial()
    ensures IsSpecialText(Ascii("<think>")) && IsSpecialText(Ascii("</think>"))
    ensures IsSpecialText(Ascii("<tool_call>")) && IsSpecialText(Ascii("</tool_call>"))
    ensures IsSpecialText(Ascii("<tool_response>")) && IsSpecialText(Ascii("</tool_response>"))
  {
    assert INLINE_MARKERS[0] == Ascii("<think>") && INLINE_MARKERS[1] == Ascii("</think>");
    assert INLINE_MARKERS[2] == Ascii("<tool_call>") && INLINE_MARKERS[3] == Ascii("</tool_call>");
    assert INLINE_MARKERS[4] == Ascii("<tool_response>") && INLINE_MARKERS[5] == Ascii("</tool_response>");
  }
}
