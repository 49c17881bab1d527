/**
 Special tokens inside a text: the splitter that cuts them out, the ids with them, and
 when the round trip still holds.
 */
module SpecialTokens {
  import opened Bytes
  import opened ByteAlphabet
  import opened PackedTexts
  import opened RepairUnits
  import opened Tokenizer
  import PreTokenizer
  import Utf8

  const OPEN: Text := Ascii("<|")
  const CLOSE: Text := Ascii("|>")
  const INLINE_MARKERS: seq<Text> := [
    Ascii("<think>"), Ascii("</think>"), Ascii("<tool_call>"), Ascii("</tool_call>"),
    Ascii("<tool_response>"), Ascii("</tool_response>")
  ]

  predicate OccursAt(text: Text, needle: Text, place: nat) {
    1 <= place && place - 1 + |needle| <= |text| && text[place - 1..place - 1 + |needle|] == needle
  }

  /** The intrinsic `index` on text[from..]: the first place of `needle`, counted from 1, or 0. */
  function IndexFrom(text: Text, needle: Text, from: nat): (place: nat)
    requires |needle| > 0 && from <= |text|
    ensures place > 0 ==> place > from && OccursAt(text, needle, place)
    ensures forall p: nat | from < p && (place == 0 || p < place) :: !OccursAt(text, needle, p)
    decreases |text| - from
  {
    if from + |needle| > |text| then 0
    else if text[from..from + |needle|] == needle then from + 1
    else IndexFrom(text, needle, from + 1)
  }

  function Index(text: Text, needle: Text): (place: nat)
    requires |needle| > 0
  {
    IndexFrom(text, needle, 0)
  }

  /** A place in the text, counted from 1 or 0 for none, and the length of the inline marker there, or 0. */
  datatype Marker = Marker(place: nat, length: nat)

  /** The first of "<|" and the inline markers. */
  ghost predicate IsFirstMarker(text: Text, marker: Marker) {
    && (forall p: nat | 0 < p && (marker.place == 0 || p < marker.place) :: !OccursAt(text, OPEN, p))
    && (forall i, p: nat | 0 <= i < |INLINE_MARKERS| && 0 < p && (marker.place == 0 || p < marker.place) ::
          !OccursAt(text, INLINE_MARKERS[i], p))
    && (marker.length > 0 ==> exists i | 0 <= i < |INLINE_MARKERS| ::
          |INLINE_MARKERS[i]| == marker.length && OccursAt(text, INLINE_MARKERS[i], marker.place))
    && (marker.length == 0 && marker.place > 0 ==> OccursAt(text, OPEN, marker.place))
    && (marker.place == 0 ==> marker.length == 0)
  }

  /** The fold over the inline markers; `best` is the first place found so far. */
  function Earliest(text: Text, markers: seq<Text>, best: Marker): Marker
    requires forall i | 0 <= i < |markers| :: |markers[i]| > 0
  {
    if markers == [] then best
    else
      var place := Index(text, markers[0]);
      if place > 0 && (best.place == 0 || place < best.place) then
        Earliest(text, markers[1..], Marker(place, |markers[0]|))
      else
        Earliest(text, markers[1..], best)
  }

  lemma {:induction false} EarliestIsFirst(text: Text, markers: seq<Text>, best: Marker)
    requires forall i | 0 <= i < |markers| :: |markers[i]| > 0
    requires best.place == 0 ==> best.length == 0
    ensures var r := Earliest(text, markers, best);
            && (best.place > 0 ==> 0 < r.place <= best.place)
            && (forall i, p: nat | 0 <= i < |markers| && 0 < p && (r.place == 0 || p < r.place) :: !OccursAt(text, markers[i], p))
            && (r == best || exists i | 0 <= i < |markers| :: |markers[i]| == r.length && OccursAt(text, markers[i], r.place))
    decreases |markers|
  {
    hide OccursAt;
    if markers != [] {
      var place := Index(text, markers[0]);
      var next := if place > 0 && (best.place == 0 || place < best.place) then Marker(place, |markers[0]|) else best;
      EarliestIsFirst(text, markers[1..], next);
      var r := Earliest(text, markers, best);
      if r != next {
        var i :| 0 <= i < |markers[1..]| && |markers[1..][i]| == r.length && OccursAt(text, markers[1..][i], r.place);
        assert markers[i + 1] == markers[1..][i];
      }
    }
  }

  function NextMarker(text: Text): Marker {
    Earliest(text, INLINE_MARKERS, Marker(Index(text, OPEN), 0))
  }

  lemma NextMarkerIsFirst(text: Text)
    ensures IsFirstMarker(text, NextMarker(text))
  {
    var best := Marker(Index(text, OPEN), 0);
    EarliestIsFirst(text, INLINE_MARKERS, best);
  }

  /** The inline-marker loop of the encoder. */
  method FindMarker(text: Text, markers: seq<Text>) returns (marker: Marker)
    requires forall i | 0 <= i < |markers| :: |markers[i]| > 0
    ensures marker == Earliest(text, markers, Marker(Index(text, OPEN), 0))
  {
    marker := Marker(Index(text, OPEN), 0);
    ghost var first := marker;
    for candidate := 0 to |markers|
      invariant Earliest(text, markers[candidate..], marker) == Earliest(text, markers, first)
    {
      var place := Index(text, markers[candidate]);
      assert markers[candidate..][1..] == markers[candidate + 1..];
      if place > 0 && (marker.place == 0 || place < marker.place) {
        marker := Marker(place, |markers[candidate]|);
      }
    }
  }

  // ---------------------------------------------------------------- segments

  /** A stretch of text: cut out as a special token, or left for the pre-tokenizer. */
  datatype Segment = PlainText(text: Text) | Special(text: Text)

  /** Where the special token ends whose marker begins at `finish`; 0 when "<|" is never closed. */
  function SpecialEnd(text: Text, finish: nat, markerLength: nat): (end: nat)
    requires finish < |text| && finish + markerLength <= |text|
    ensures end <= |text| && (end > 0 ==> end > finish)
  {
    if markerLength > 0 then finish + markerLength
    else if finish + 2 < |text| then
      var place := Index(text[finish + 2..], CLOSE);
      if place > 0 then finish + 3 + place else 0
    else 0
  }

  function PlainUpTo(text: Text, finish: nat): seq<Segment>
    requires finish <= |text|
  {
    if finish > 0 then [PlainText(text[..finish])] else []
  }

  /** The texts of the segments, one after the other. */
  function Joined(segments: seq<Segment>): Text {
    if segments == [] then [] else segments[0].text + Joined(segments[1..])
  }

  lemma {:induction false} JoinedAppend(left: seq<Segment>, right: seq<Segment>)
    ensures Joined(left + right) == Joined(left) + Joined(right)
  {
    if left == [] {
      assert left + right == right;
    } else {
      assert (left + right)[1..] == left[1..] + right;
      JoinedAppend(left[1..], right);
    }
  }

  predicate NonEmpty(segments: seq<Segment>) {
    forall i | 0 <= i < |segments| :: segments[i].text != []
  }

  lemma MarkerInText(text: Text)
    ensures var marker := NextMarker(text);
            marker.place > 0 ==> marker.place - 1 < |text| && marker.place - 1 + marker.length <= |text|
  {
    NextMarkerIsFirst(text);
  }

  lemma JoinedUpTo(text: Text, finish: nat, last: Segment)
    requires finish <= |text|
    ensures Joined(PlainUpTo(text, finish) + [last]) == text[..finish] + last.text
  {
    assert Joined([last]) == last.text + Joined([]);
    if finish > 0 {
      assert ([PlainText(text[..finish])] + [last])[1..] == [last];
    } else {
      assert PlainUpTo(text, finish) + [last] == [last];
    }
  }

  /** The segments that one turn of the splitter produces, and where the next turn starts. */
  datatype Cut = Cut(segments: seq<Segment>, next: nat)

  function CutAt(text: Text, marker: Marker): (cut: Cut)
    requires text != []
    requires marker.place > 0 ==> marker.place - 1 < |text| && marker.place - 1 + marker.length <= |text|
    ensures 0 < cut.next <= |text| && NonEmpty(cut.segments)
    ensures Joined(cut.segments) == text[..cut.next]
  {
    if marker.place == 0 then
      JoinedUpTo(text, 0, PlainText(text));
      Cut([PlainText(text)], |text|)
    else
      var finish := marker.place - 1;
      var end := SpecialEnd(text, finish, marker.length);
      if end == 0 then
        JoinedUpTo(text, finish, PlainText(text[finish..]));
        Cut(PlainUpTo(text, finish) + [PlainText(text[finish..])], |text|)
      else
        JoinedUpTo(text, finish, Special(text[finish..end]));
        Cut(PlainUpTo(text, finish) + [Special(text[finish..end])], end)
  }

  function FirstCut(text: Text): (cut: Cut)
    requires text != []
    ensures 0 < cut.next <= |text| && NonEmpty(cut.segments)
    ensures Joined(cut.segments) == text[..cut.next]
  {
    MarkerInText(text);
    CutAt(text, NextMarker(text))
  }

  function Segments(text: Text): seq<Segment>
    decreases |text|
  {
    if text == [] then []
    else FirstCut(text).segments + Segments(text[FirstCut(text).next..])
  }

  lemma JoinedStep(text: Text, next: nat, head: seq<Segment>, tail: seq<Segment>)
    requires next <= |text| && NonEmpty(head) && NonEmpty(tail)
    requires Joined(head) == text[..next] && Joined(tail) == text[next..]
    ensures Joined(head + tail) == text && NonEmpty(head + tail)
  {
    JoinedAppend(head, tail);
    assert text == text[..next] + text[next..];
  }

  /** The splitter partitions every text into non-empty segments. */
  lemma {:induction false} SegmentsPartition(text: Text)
    ensures Joined(Segments(text)) == text && NonEmpty(Segments(text))
    decreases |text|
  {
    if text != [] {
      var next := FirstCut(text).next;
      SegmentsPartition(text[next..]);
      JoinedStep(text, next, FirstCut(text).segments, Segments(text[next..]));
    }
  }

  // ---------------------------------------------------------------- what the segments are

  ghost predicate Lacks(text: Text, needle: Text) {
    forall place: nat :: !OccursAt(text, needle, place)
  }

  ghost predicate NoMarker(text: Text) {
    && Lacks(text, OPEN)
    && (forall i | 0 <= i < |INLINE_MARKERS| :: Lacks(text, INLINE_MARKERS[i]))
  }

  /** "<|" in front and no "|>" behind it. */
  ghost predicate IsUnclosed(text: Text) {
    OPEN <= text && Lacks(text[2..], CLOSE)
  }

  /** An inline marker, or the text from "<|" to the first "|>" behind it. */
  ghost predicate IsSpecialText(text: Text) {
    || text in INLINE_MARKERS
    || (|text| >= 4 && OPEN <= text && text[|text| - 2..] == CLOSE && Lacks(text[2..|text| - 1], CLOSE))
  }

  /**
   Special segments are special texts. Any other one has no marker and reaches to the next
   segment that begins with one, or it is the end of the text from a "<|" that is never closed.
   */
  ghost predicate IsSegmentAt(segments: seq<Segment>, i: nat)
    requires i < |segments|
  {
    match segments[i]
    case Special(text) => IsSpecialText(text)
    case PlainText(text) =>
      || (NoMarker(text) && (i + 1 < |segments| ==> segments[i + 1].Special? || OPEN <= segments[i + 1].text))
      || (IsUnclosed(text) && i + 1 == |segments|)
  }

  /** What occurs in a part of a text occurs in the text. */
  lemma OccursInPart(text: Text, from: nat, end: nat, needle: Text, place: nat)
    requires from <= end <= |text| && OccursAt(text[from..end], needle, place)
    ensures OccursAt(text, needle, from + place)
  {
    var part, a, b := text[from..end], place - 1, place - 1 + |needle|;
    assert forall k | a <= k < b :: part[k] == text[from + k];
    assert part[a..b] == text[from + a..from + b];
  }

  /** In front of the first marker there is none. */
  lemma NoMarkerBefore(text: Text, marker: Marker, finish: nat)
    requires IsFirstMarker(text, marker) && finish <= |text| && (marker.place == 0 || finish == marker.place - 1)
    ensures NoMarker(text[..finish])
  {
    hide OccursAt;
    LacksBefore(text, marker.place, finish, OPEN);
    forall i | 0 <= i < |INLINE_MARKERS|
      ensures Lacks(text[..finish], INLINE_MARKERS[i])
    {
      LacksBefore(text, marker.place, finish, INLINE_MARKERS[i]);
    }
  }

  lemma LacksBefore(text: Text, place: nat, finish: nat, needle: Text)
    requires finish <= |text| && (place == 0 || finish == place - 1) && needle != []
    requires forall p: nat | 0 < p && (place == 0 || p < place) :: !OccursAt(text, needle, p)
    ensures Lacks(text[..finish], needle)
  {
    hide OccursAt;
    forall p: nat
      ensures !OccursAt(text[..finish], needle, p)
    {
      if OccursAt(text[..finish], needle, p) { OccurrenceIn(text, finish, needle, p); }
    }
  }

  lemma OccurrenceIn(text: Text, finish: nat, needle: Text, place: nat)
    requires finish <= |text| && OccursAt(text[..finish], needle, place) && needle != []
    ensures OccursAt(text, needle, place) && 0 < place <= finish
  {
    assert text[..finish] == text[0..finish];
    OccursInPart(text, 0, finish, needle, place);
  }

  lemma LacksCloser(rest: Text, place: nat)
    requires 0 < place <= |rest| && forall p: nat | 0 < p < place :: !OccursAt(rest, CLOSE, p)
    ensures Lacks(rest[0..place], CLOSE)
  {
    forall p: nat
      ensures !OccursAt(rest[0..place], CLOSE, p)
    {
      if OccursAt(rest[0..place], CLOSE, p) { OccursInPart(rest, 0, place, CLOSE, p); }
    }
  }

  /** The text from "<|" to the closing place. */
  lemma SpecialSlice(text: Text, place: nat)
    requires OPEN <= text && OccursAt(text[2..], CLOSE, place)
    requires forall p: nat | 0 < p < place :: !OccursAt(text[2..], CLOSE, p)
    ensures place + 3 <= |text| && IsSpecialText(text[..place + 3])
  {
    var rest, special := text[2..], text[..place + 3];
    LacksCloser(rest, place);
    hide Lacks;
    assert special[place + 1..] == rest[place - 1..place + 1];
    assert special[2..place + 2] == rest[0..place];
    assert OPEN <= special by {
      assert special[..2] == text[..2];
    }
  }

  /** Where "|>" is first found, it ends the special token; where it is not, the token is unclosed. */
  lemma ClosedAt(text: Text, finish: nat)
    requires finish + 2 <= |text| && OccursAt(text, OPEN, finish + 1)
    ensures OPEN <= text[finish..]
    ensures var end := SpecialEnd(text, finish, 0);
      if end == 0 then IsUnclosed(text[finish..]) else IsSpecialText(text[finish..end])
  {
    hide IsSpecialText;
    var token, rest := text[finish..], text[finish + 2..];
    assert token[2..] == rest;
    assert text[finish..finish + 2] == OPEN;
    assert token[..2] == OPEN;
    var place := Index(rest, CLOSE);
    if place > 0 {
      SpecialSlice(token, place);
      assert token[..place + 3] == text[finish..finish + 3 + place];
    } else {
      forall p: nat
        ensures !OccursAt(rest, CLOSE, p)
      {
      }
    }
  }

  lemma InlineIsSpecial(text: Text, marker: Marker)
    requires IsFirstMarker(text, marker) && marker.place > 0 && marker.length > 0
    ensures marker.place - 1 + marker.length <= |text|
    ensures IsSpecialText(text[marker.place - 1..marker.place - 1 + marker.length])
  {
    var i :| 0 <= i < |INLINE_MARKERS| && |INLINE_MARKERS[i]| == marker.length && OccursAt(text, INLINE_MARKERS[i], marker.place);
    assert text[marker.place - 1..marker.place - 1 + marker.length] == INLINE_MARKERS[i];
  }

  /** The last segment of a cut is special, or there is no text behind it. */
  lemma CutMeans(text: Text)
    requires text != []
    ensures var cut := FirstCut(text);
      && (forall i: nat | i < |cut.segments| :: IsSegmentAt(cut.segments, i))
      && (cut.next == |text| || cut.segments[|cut.segments| - 1].Special?)
      && cut.segments != []
  {
    hide NextMarker, OccursAt, IsFirstMarker, NoMarker, IsUnclosed, IsSpecialText, SpecialEnd;
    var marker := NextMarker(text);
    NextMarkerIsFirst(text);
    MarkerInText(text);
    if marker.place == 0 {
      NoMarkerBefore(text, marker, |text|);
      assert text[..|text|] == text;
    } else {
      var finish := marker.place - 1;
      NoMarkerBefore(text, marker, finish);
      MarkedFrom(text, marker);
      var end := SpecialEnd(text, finish, marker.length);
    }
  }

  /** The segment that begins with the first marker. */
  lemma MarkedFrom(text: Text, marker: Marker)
    requires IsFirstMarker(text, marker) && marker.place > 0
    ensures marker.place - 1 < |text| && marker.place - 1 + marker.length <= |text|
    ensures var finish := marker.place - 1;
      var end := SpecialEnd(text, finish, marker.length);
      if end == 0 then IsUnclosed(text[finish..]) && OPEN <= text[finish..] else IsSpecialText(text[finish..end])
  {
    if marker.length > 0 {
      InlineIsSpecial(text, marker);
    } else {
      ClosedAt(text, marker.place - 1);
    }
  }

  /** Every segment of a text is such a segment; together with the partition this determines them. */
  lemma {:induction false} SegmentsMean(text: Text)
    ensures forall i: nat | i < |Segments(text)| :: IsSegmentAt(Segments(text), i)
    decreases |text|
  {
    hide FirstCut, NoMarker, IsUnclosed, IsSpecialText;
    if text != [] {
      var head, tail := FirstCut(text).segments, Segments(text[FirstCut(text).next..]);
      CutMeans(text);
      SegmentsMean(text[FirstCut(text).next..]);
      forall i: nat | i < |head + tail|
        ensures IsSegmentAt(head + tail, i)
      {
        if i < |head| {
          assert IsSegmentAt(head, i);
        } else {
          assert IsSegmentAt(tail, i - |head|);
        }
      }
    }
  }

  // ---------------------------------------------------------------- ids of segments

  /** A special token that the vocabulary knows becomes one id; any other segment is plain text. */
  predicate Atomic(model: Model, segment: Segment) {
    segment.Special? && FindIn(model.tokens, segment.text) >= 0
  }

  ghost function SegmentIds(model: Model, segment: Segment): seq<int> {
    if Atomic(model, segment) then [FindIn(model.tokens, segment.text)] else PlainIds(model, segment.text)
  }

  ghost function SegmentsIds(model: Model, segments: seq<Segment>): seq<int> {
    if segments == [] then [] else SegmentIds(model, segments[0]) + SegmentsIds(model, segments[1..])
  }

  lemma {:induction false} SegmentsIdsAppend(model: Model, left: seq<Segment>, right: seq<Segment>)
    ensures SegmentsIds(model, left + right) == SegmentsIds(model, left) + SegmentsIds(model, right)
  {
    hide SegmentIds;
    if left == [] {
      assert left + right == right;
    } else {
      assert (left + right)[1..] == left[1..] + right;
      SegmentsIdsAppend(model, left[1..], right);
      var a, b, c := SegmentIds(model, left[0]), SegmentsIds(model, left[1..]), SegmentsIds(model, right);
      assert a + (b + c) == (a + b) + c;
    }
  }

  /** The ids of a text: the policy token first if it is wanted and known. */
  ghost function TextIds(model: Model, text: Text, addSpecial: bool, parseSpecial: bool): seq<int> {
    (if addSpecial && model.bos >= 0 then [model.bos] else [])
    + if parseSpecial then SegmentsIds(model, Segments(text)) else PlainIds(model, text)
  }

  lemma {:induction false} SegmentsIdsBound(model: Model, segments: seq<Segment>)
    requires NonEmpty(segments)
    ensures |SegmentsIds(model, segments)| <= |Joined(segments)|
  {
    if segments != [] {
      PlainIdsBound(model, segments[0].text);
      SegmentsIdsBound(model, segments[1..]);
    }
  }

  /** With or without special tokens, the work array of `4 * len + 8` ids is large enough. */
  lemma TextIdsFit(model: Model, text: Text, addSpecial: bool, parseSpecial: bool)
    ensures |TextIds(model, text, addSpecial, parseSpecial)| <= |text| + 1
  {
    PlainIdsBound(model, text);
    SegmentsPartition(text);
    SegmentsIdsBound(model, Segments(text));
  }

  /** The size of the work array is a 32-bit integer exactly for texts of at most 2^29 - 3 octets. */
  lemma WorkSizeFitsExactly(text: Text)
    ensures 4 * |text| + 8 < 0x8000_0000 <==> |text| <= 0x1FFF_FFFD
  {
  }

  // ---------------------------------------------------------------- the round trip with special tokens

  /** What a segment decodes to: an atomic one is read as a vocabulary entry, any other one comes back. */
  function SegmentBytes(model: Model, segment: Segment): Text {
    if Atomic(model, segment) then DecodePiece(segment.text, 0) else segment.text
  }

  function SegmentsBytes(model: Model, segments: seq<Segment>): Text {
    if segments == [] then [] else SegmentBytes(model, segments[0]) + SegmentsBytes(model, segments[1..])
  }

  lemma {:induction false} SegmentsRoundTrip(model: Model, segments: seq<Segment>)
    requires Closed(model)
    ensures RawBytes(model.tokens, SegmentsIds(model, segments)) == SegmentsBytes(model, segments)
  {
    if segments != [] {
      PlainBytesRoundTrip(model, segments[0].text);
      RawBytesAppend(model.tokens, SegmentIds(model, segments[0]), SegmentsIds(model, segments[1..]));
      SegmentsRoundTrip(model, segments[1..]);
    }
  }

  lemma CodepointShrinks(piece: Text, position: nat)
    requires position < |piece|
    ensures |CodepointBytes(Utf8.Decode(piece, position).codepoint)| <= Utf8.Decode(piece, position).width
  {
  }

  /** Reading an entry never lengthens it. */
  lemma {:induction false} DecodePieceShrinks(piece: Text, position: nat)
    requires position <= |piece|
    ensures |DecodePiece(piece, position)| <= |piece| - position
    decreases |piece| - position
  {
    hide Utf8.Decode;
    if position < |piece| {
      CodepointShrinks(piece, position);
      DecodePieceShrinks(piece, position + Utf8.Decode(piece, position).width);
    }
  }

  ghost predicate Faithful(model: Model, segment: Segment) {
    SegmentBytes(model, segment) == segment.text
  }

  lemma {:induction false} SegmentsFaithful(model: Model, segments: seq<Segment>)
    ensures |SegmentsBytes(model, segments)| <= |Joined(segments)|
    ensures SegmentsBytes(model, segments) == Joined(segments) <==> forall segment <- segments :: Faithful(model, segment)
  {
    if segments != [] {
      DecodePieceShrinks(segments[0].text, 0);
      SegmentsFaithful(model, segments[1..]);
      var a, b := SegmentBytes(model, segments[0]), SegmentsBytes(model, segments[1..]);
      var c, d := segments[0].text, Joined(segments[1..]);
      if a + b == c + d {
        assert |a| == |c|;
        assert a == (a + b)[..|a|] == (c + d)[..|c|] == c;
        assert b == (a + b)[|a|..] == (c + d)[|c|..] == d;
      }
      assert (forall segment <- segments :: Faithful(model, segment))
        <==> Faithful(model, segments[0]) && (forall segment <- segments[1..] :: Faithful(model, segment)) by {
        assert segments == [segments[0]] + segments[1..];
      }
    }
  }

  /** No character of piece[position..] lies in U+0080..U+01FF, the range that the byte alphabet takes over. */
  predicate AvoidsAlphabet(piece: Text, position: nat)
    requires position <= |piece|
    decreases |piece| - position
  {
    position < |piece| ==>
      var d := Utf8.Decode(piece, position);
      !(0x80 <= d.codepoint <= 0x1FF) && AvoidsAlphabet(piece, position + d.width)
  }

  /** One character of a well-formed entry: it is copied, or shortened because the byte alphabet claims it. */
  lemma CharacterBytes(piece: Text, position: nat)
    requires position < |piece| && Utf8.Aligned(piece, position)
    ensures var d := Utf8.Decode(piece, position);
            if 0x80 <= d.codepoint <= 0x1FF then |CodepointBytes(d.codepoint)| < d.width
            else CodepointBytes(d.codepoint) == piece[position..position + d.width]
  {
    Utf8.AlignedWidth(piece, position);
    var next := position + Utf8.Decode(piece, position).width;
    var scalar := Utf8.ScalarOfValidWidth(piece, position);
    assert piece == piece[..position] + piece[position..next] + piece[next..];
    Utf8.DecodeInvertsEncode(piece[..position], scalar, piece[next..]);
  }

  /** A well-formed entry decodes to itself exactly when none of its characters is in U+0080..U+01FF. */
  lemma {:induction false} DecodesToItself(piece: Text, position: nat)
    requires position <= |piece| && Utf8.Aligned(piece, position)
    ensures DecodePiece(piece, position) == piece[position..] <==> AvoidsAlphabet(piece, position)
    decreases |piece| - position
  {
    hide Utf8.Decode, Utf8.ValidWidth, CodepointBytes;
    if position < |piece| {
      Utf8.AlignedWidth(piece, position);
      var d := Utf8.Decode(piece, position);
      var next := position + d.width;
      DecodesToItself(piece, next);
      DecodePieceShrinks(piece, next);
      CharacterBytes(piece, position);
      var head, tail := CodepointBytes(d.codepoint), DecodePiece(piece, next);
      assert piece[position..] == piece[position..next] + piece[next..];
      assert (head + tail)[|head|..] == tail && piece[position..][d.width..] == piece[next..];
    }
  }

  /** The octets of the text survive exactly when every atomic special token decodes to itself. */
  lemma BytesRoundTripWithSpecials(model: Model, text: Text)
    requires Closed(model)
    ensures RawBytes(model.tokens, TextIds(model, text, false, true)) == text
            <==> forall segment <- Segments(text) | Atomic(model, segment) :: DecodePiece(segment.text, 0) == segment.text
  {
    SegmentsPartition(text);
    SegmentsRoundTrip(model, Segments(text));
    SegmentsFaithful(model, Segments(text));
    assert [] + SegmentsIds(model, Segments(text)) == SegmentsIds(model, Segments(text));
    assert forall segment <- Segments(text) ::
        Faithful(model, segment) <==> (Atomic(model, segment) ==> DecodePiece(segment.text, 0) == segment.text);
  }

  // ---------------------------------------------------------------- well-formed text

  lemma MarkerIsAscii(text: Text)
    ensures var marker := NextMarker(text);
            marker.place > 0 ==> marker.place - 1 < |text| && text[marker.place - 1] < 0x80
    ensures var marker := NextMarker(text);
            marker.place > 0 && marker.length > 0 ==>
              marker.place + marker.length - 1 <= |text| && text[marker.place + marker.length - 2] < 0x80
  {
    hide NextMarker;
    NextMarkerIsFirst(text);
    var marker := NextMarker(text);
    if marker.length > 0 {
      var i :| 0 <= i < |INLINE_MARKERS| && |INLINE_MARKERS[i]| == marker.length
               && OccursAt(text, INLINE_MARKERS[i], marker.place);
      InlineMarkersAreAscii(i);
      var needle := INLINE_MARKERS[i];
      assert text[marker.place - 1..marker.place - 1 + |needle|][0] == needle[0];
      assert text[marker.place - 1..marker.place - 1 + |needle|][|needle| - 1] == needle[|needle| - 1];
    } else if marker.place > 0 {
      assert text[marker.place - 1..marker.place - 1 + |OPEN|][0] == OPEN[0];
    }
  }

  lemma InlineMarkersAreAscii(i: nat)
    requires i < |INLINE_MARKERS|
    ensures |INLINE_MARKERS[i]| > 0 && forall k | 0 <= k < |INLINE_MARKERS[i]| :: INLINE_MARKERS[i][k] < 0x80
  {
  }

  /** A special token ends behind an ASCII octet, of the inline marker or of "|>". */
  lemma SpecialEndIsAscii(text: Text, finish: nat, markerLength: nat)
    requires finish < |text| && finish + markerLength <= |text|
    requires markerLength > 0 ==> text[finish + markerLength - 1] < 0x80
    ensures var end := SpecialEnd(text, finish, markerLength); end > 0 ==> text[end - 1] < 0x80
  {
    var end := SpecialEnd(text, finish, markerLength);
    if end > 0 && markerLength == 0 {
      var rest := text[finish + 2..];
      var place := Index(rest, CLOSE);
      assert rest[place - 1..place - 1 + |CLOSE|][1] == CLOSE[1];
      assert text[end - 1] == rest[place];
    }
  }

  /** Cutting at two character boundaries leaves three well-formed texts. */
  lemma CutAtBoundaries(text: Text, finish: nat, end: nat)
    requires Utf8.WellFormed(text) && finish <= end <= |text|
    requires finish == |text| || text[finish] < 0x80
    requires end == |text| || (end > 0 && text[end - 1] < 0x80)
    ensures Utf8.WellFormed(text[..finish]) && Utf8.WellFormed(text[finish..end]) && Utf8.WellFormed(text[end..])
  {
    hide Utf8.WellFormed, Utf8.Aligned, Utf8.ValidWidth;
    Utf8.AlignedIsWellFormed(text);
    PreTokenizer.AsciiBoundary(text, 0, finish);
    PreTokenizer.AsciiBoundary(text, 0, end);
    PreTokenizer.AsciiBoundary(text, 0, |text|);
    var before := Utf8.AlignedPiece(text, 0, finish);
    var middle := Utf8.AlignedPiece(text, finish, end);
    var after := Utf8.AlignedPiece(text, end, |text|);
    assert text[0..finish] == text[..finish] && text[end..|text|] == text[end..];
  }

  lemma CutAtKeepsWellFormed(text: Text, marker: Marker)
    requires text != [] && Utf8.WellFormed(text)
    requires marker.place > 0 ==> marker.place - 1 < |text| && marker.place - 1 + marker.length <= |text|
    requires marker.place > 0 ==> text[marker.place - 1] < 0x80
    requires marker.place > 0 && marker.length > 0 ==> text[marker.place + marker.length - 2] < 0x80
    ensures forall segment <- CutAt(text, marker).segments :: Utf8.WellFormed(segment.text)
    ensures Utf8.WellFormed(text[CutAt(text, marker).next..])
  {
    hide Utf8.WellFormed, SpecialEnd;
    if marker.place == 0 {
      WholeIsWellFormed(text);
    } else {
      var finish := marker.place - 1;
      SpecialEndIsAscii(text, finish, marker.length);
      var end := SpecialEnd(text, finish, marker.length);
      if end == 0 {
        CutAtBoundaries(text, finish, |text|);
        assert text[finish..|text|] == text[finish..];
      } else {
        CutAtBoundaries(text, finish, end);
      }
      PlainUpToKeeps(text, finish);
    }
  }

  lemma WholeIsWellFormed(text: Text)
    requires Utf8.WellFormed(text)
    ensures Utf8.WellFormed(text[|text|..])
  {
    hide Utf8.WellFormed;
    CutAtBoundaries(text, |text|, |text|);
  }

  lemma PlainUpToKeeps(text: Text, finish: nat)
    requires finish <= |text| && Utf8.WellFormed(text[..finish])
    ensures forall segment <- PlainUpTo(text, finish) :: Utf8.WellFormed(segment.text)
  {
  }

  /** One turn of the splitter cuts a well-formed text at character boundaries. */
  lemma CutKeepsWellFormed(text: Text)
    requires text != [] && Utf8.WellFormed(text)
    ensures forall segment <- FirstCut(text).segments :: Utf8.WellFormed(segment.text)
    ensures Utf8.WellFormed(text[FirstCut(text).next..])
  {
    hide Utf8.WellFormed, NextMarker, CutAt;
    MarkerIsAscii(text);
    MarkerInText(text);
    CutAtKeepsWellFormed(text, NextMarker(text));
  }

  lemma {:induction false} SegmentsAreWellFormed(text: Text)
    requires Utf8.WellFormed(text)
    ensures forall segment <- Segments(text) :: Utf8.WellFormed(segment.text)
    decreases |text|
  {
    if text != [] {
      CutKeepsWellFormed(text);
      SegmentsAreWellFormed(text[FirstCut(text).next..]);
    }
  }

  // ---------------------------------------------------------------- what repair cannot undo

  /** What piece[position..] is read as: by the byte alphabet, or as it is. */
  function ReadAs(atomic: bool, piece: Text, position: nat): Text
    requires position <= |piece|
  {
    if atomic then DecodePiece(piece, position) else piece[position..]
  }

  /** One character of a well-formed piece: kept, or replaced by one octet if the byte alphabet claims it. */
  lemma CharacterAt(piece: Text, position: nat) returns (codepoint: nat)
    requires position < |piece| && Utf8.Aligned(piece, position)
    ensures Utf8.IsScalar(codepoint)
    ensures var d := Utf8.Decode(piece, position);
            d.codepoint == codepoint && piece[position..position + d.width] == Utf8.Encode(codepoint)
    ensures Utf8.Aligned(piece, position + Utf8.Decode(piece, position).width)
    ensures if 0x80 <= codepoint <= 0x1FF then |CodepointBytes(codepoint)| == 1 else CodepointBytes(codepoint) == Utf8.Encode(codepoint)
  {
    Utf8.AlignedWidth(piece, position);
    var next := position + Utf8.Decode(piece, position).width;
    codepoint := Utf8.ScalarOfValidWidth(piece, position);
    assert piece == piece[..position] + piece[position..next] + piece[next..];
    Utf8.DecodeInvertsEncode(piece[..position], codepoint, piece[next..]);
  }

  /** One character in front of what the rest was read as. */
  lemma CharacterRepaired(atomic: bool, codepoint: nat, raw: Text, text: Text)
    requires Utf8.IsScalar(codepoint) && Units(raw) <= Units(text)
    requires if 0x80 <= codepoint <= 0x1FF then |CodepointBytes(codepoint)| == 1 else CodepointBytes(codepoint) == Utf8.Encode(codepoint)
    ensures var read := if atomic then CodepointBytes(codepoint) else Utf8.Encode(codepoint);
      && Units(read + raw) <= Units(Utf8.Encode(codepoint) + text)
      && (Utf8.Repair(read + raw, 0) == Utf8.Encode(codepoint) + text ==>
            Utf8.Repair(raw, 0) == text && (atomic ==> !(0x80 <= codepoint <= 0x1FF)))
  {
    hide CodepointBytes, Utf8.Encode;
    CharacterInFront(codepoint, text);
    if atomic && 0x80 <= codepoint <= 0x1FF {
      var octet := CodepointBytes(codepoint)[0];
      assert CodepointBytes(codepoint) == [octet];
      OctetInFront(octet, raw);
      LostCharacterStaysLost(codepoint, octet, raw, text);
    } else {
      CharacterInFront(codepoint, raw);
      var c := Utf8.Encode(codepoint);
      assert (c + Utf8.Repair(raw, 0))[|c|..] == Utf8.Repair(raw, 0) && (c + text)[|c|..] == text;
    }
  }

  lemma Regroup(head: Text, middle: Text, tail: Text)
    ensures (head + middle) + tail == head + (middle + tail)
  {
  }

  /** Reading a piece begins with its first character. */
  lemma ReadCharacter(atomic: bool, piece: Text, position: nat, codepoint: nat)
    requires position < |piece|
    requires var d := Utf8.Decode(piece, position);
             d.codepoint == codepoint && piece[position..position + d.width] == Utf8.Encode(codepoint)
    ensures var next := position + Utf8.Decode(piece, position).width;
      && piece[position..] == Utf8.Encode(codepoint) + piece[next..]
      && ReadAs(atomic, piece, position)
         == (if atomic then CodepointBytes(codepoint) else Utf8.Encode(codepoint)) + ReadAs(atomic, piece, next)
      && (AvoidsAlphabet(piece, position) <==> !(0x80 <= codepoint <= 0x1FF) && AvoidsAlphabet(piece, next))
  {
    hide Utf8.Decode, Utf8.Encode, CodepointBytes;
    var next := position + Utf8.Decode(piece, position).width;
    assert piece[position..] == piece[position..next] + piece[next..];
  }

  /** A whole piece in front of what the rest was read as: the repair gives the text back only if nothing was lost. */
  lemma {:induction false} PieceRepaired(atomic: bool, piece: Text, position: nat, raw: Text, text: Text)
    requires position <= |piece| && Utf8.Aligned(piece, position) && Units(raw) <= Units(text)
    ensures Units(ReadAs(atomic, piece, position) + raw) <= Units(piece[position..] + text)
    ensures Utf8.Repair(ReadAs(atomic, piece, position) + raw, 0) == piece[position..] + text ==>
      Utf8.Repair(raw, 0) == text && (atomic ==> AvoidsAlphabet(piece, position))
    decreases |piece| - position
  {
    if position == |piece| {
      assert ReadAs(atomic, piece, position) == [] && piece[position..] == [];
      assert [] + raw == raw && [] + text == text;
    } else {
      hide *;
      var codepoint := CharacterAt(piece, position);
      var next := position + Utf8.Decode(piece, position).width;
      PieceRepaired(atomic, piece, next, raw, text);
      ReadCharacter(atomic, piece, position, codepoint);
      var c := Utf8.Encode(codepoint);
      var read := if atomic then CodepointBytes(codepoint) else c;
      CharacterRepaired(atomic, codepoint, ReadAs(atomic, piece, next) + raw, piece[next..] + text);
      Regroup(read, ReadAs(atomic, piece, next), raw);
      Regroup(c, piece[next..], text);
    }
  }

  /** All segments together. */
  lemma {:induction false} SegmentsRepaired(model: Model, segments: seq<Segment>)
    requires forall segment <- segments :: Utf8.WellFormed(segment.text)
    ensures Units(SegmentsBytes(model, segments)) <= Units(Joined(segments))
    ensures Utf8.Repair(SegmentsBytes(model, segments), 0) == Joined(segments) ==>
      forall segment <- segments | Atomic(model, segment) :: AvoidsAlphabet(segment.text, 0)
  {
    hide Utf8.Repair, Units, Utf8.WellFormed, Utf8.Aligned, Atomic, AvoidsAlphabet;
    if segments != [] {
      var first := segments[0];
      assert first in segments;
      SegmentsRepaired(model, segments[1..]);
      Utf8.AlignedIsWellFormed(first.text);
      PieceRepaired(Atomic(model, first), first.text, 0, SegmentsBytes(model, segments[1..]), Joined(segments[1..]));
      assert first.text[0..] == first.text;
      assert segments == [first] + segments[1..];
    }
  }

  /**
   With special tokens recognised, decoding the encoding of a well-formed text gives the text
   back exactly when no special token that the vocabulary knows contains a character in
   U+0080..U+01FF; the octets before the repair survive under the same condition.
   */
  lemma RoundTripWithSpecials(model: Model, text: Text)
    requires Closed(model) && Utf8.WellFormed(text)
    ensures DecodedText(model.tokens, TextIds(model, text, false, true)) == text
            <==> forall segment <- Segments(text) | Atomic(model, segment) :: AvoidsAlphabet(segment.text, 0)
    ensures RawBytes(model.tokens, TextIds(model, text, false, true)) == text
            <==> forall segment <- Segments(text) | Atomic(model, segment) :: AvoidsAlphabet(segment.text, 0)
  {
    BytesSurvive(model, text);
    Utf8.RepairIsIdentityExactlyOnWellFormed(text);
    hide AvoidsAlphabet, Utf8.WellFormed, Utf8.Repair, Atomic;
    SegmentsAreWellFormed(text);
    SegmentsPartition(text);
    SegmentsRoundTrip(model, Segments(text));
    assert [] + SegmentsIds(model, Segments(text)) == SegmentsIds(model, Segments(text));
    SegmentsRepaired(model, Segments(text));
  }

  lemma BytesSurvive(model: Model, text: Text)
    requires Closed(model) && Utf8.WellFormed(text)
    ensures RawBytes(model.tokens, TextIds(model, text, false, true)) == text
            <==> forall segment <- Segments(text) | Atomic(model, segment) :: AvoidsAlphabet(segment.text, 0)
  {
    BytesRoundTripWithSpecials(model, text);
    SegmentsAreWellFormed(text);
    forall segment | segment in Segments(text)
      ensures DecodePiece(segment.text, 0) == segment.text <==> AvoidsAlphabet(segment.text, 0)
    {
      Utf8.AlignedIsWellFormed(segment.text);
      DecodesToItself(segment.text, 0);
      assert segment.text[0..] == segment.text;
    }
  }

  /** "<|", U+00E9, "|>" */
  const ACCENTED: Text := OPEN + [0xC3, 0xA9] + CLOSE

  lemma InlineMarkersAreLong(i: nat)
    requires i < |INLINE_MARKERS|
    ensures |INLINE_MARKERS[i]| >= 7
  {
  }

  lemma OpenIsFirst(text: Text, marker: Marker)
    requires OccursAt(text, OPEN, 1) && |text| < 7 && IsFirstMarker(text, marker)
    ensures marker == Marker(1, 0)
  {
    hide OccursAt;
    if marker.length > 0 {
      var i :| 0 <= i < |INLINE_MARKERS| && |INLINE_MARKERS[i]| == marker.length
               && OccursAt(text, INLINE_MARKERS[i], marker.place);
      InlineMarkersAreLong(i);
      OccurrenceFits(text, INLINE_MARKERS[i], marker.place);
    }
  }

  lemma OccurrenceFits(text: Text, needle: Text, place: nat)
    requires OccursAt(text, needle, place)
    ensures |needle| <= |text|
  {
  }

  lemma AccentedMarker()
    ensures NextMarker(ACCENTED) == Marker(1, 0)
  {
    hide NextMarker, IsFirstMarker;
    assert ACCENTED[0..2] == OPEN;
    NextMarkerIsFirst(ACCENTED);
    OpenIsFirst(ACCENTED, NextMarker(ACCENTED));
  }

  lemma AccentedEnd()
    ensures SpecialEnd(ACCENTED, 0, 0) == |ACCENTED| == 6
  {
    var rest := ACCENTED[2..];
    assert rest == [0xC3, 0xA9] + CLOSE;
    assert rest[2..4] == CLOSE;
    assert OccursAt(rest, CLOSE, 3);
    assert rest[0..2][0] == 0xC3 && rest[1..3][0] == 0xA9;
  }

  lemma AccentedIsOneSegment()
    ensures Segments(ACCENTED) == [Special(ACCENTED)]
  {
    hide NextMarker, SpecialEnd;
    AccentedMarker();
    AccentedEnd();
    assert ACCENTED[0..6] == ACCENTED && ACCENTED[6..] == [];
  }

  lemma AccentedIsAligned(text: Text)
    requires text == [0x3C, 0x7C, 0xC3, 0xA9, 0x7C, 0x3E]
    ensures Utf8.Aligned(text, 0)
  {
    assert Utf8.ValidWidth(text, 0) == 1 && Utf8.ValidWidth(text, 1) == 1 && Utf8.ValidWidth(text, 2) == 2;
    assert Utf8.ValidWidth(text, 4) == 1 && Utf8.ValidWidth(text, 5) == 1;
    hide Utf8.ValidWidth;
    assert Utf8.Aligned(text, 6);
    assert Utf8.Aligned(text, 5) && Utf8.Aligned(text, 4);
    assert Utf8.Aligned(text, 2) && Utf8.Aligned(text, 1);
  }

  lemma AccentedMeetsAlphabet(text: Text)
    requires text == [0x3C, 0x7C, 0xC3, 0xA9, 0x7C, 0x3E]
    ensures !AvoidsAlphabet(text, 0)
  {
    assert Utf8.Decode(text, 0).width == 1 && Utf8.Decode(text, 1).width == 1;
    assert Utf8.Decode(text, 2) == Utf8.Decoded(0xE9, 2);
    hide Utf8.Decode;
    assert !AvoidsAlphabet(text, 2);
    assert !AvoidsAlphabet(text, 1);
  }

  lemma AccentedIsWellFormed()
    ensures Utf8.WellFormed(ACCENTED) && !AvoidsAlphabet(ACCENTED, 0)
  {
    hide Utf8.WellFormed, Utf8.Aligned, AvoidsAlphabet;
    assert ACCENTED == [0x3C, 0x7C, 0xC3, 0xA9, 0x7C, 0x3E];
    AccentedIsAligned(ACCENTED);
    AccentedMeetsAlphabet(ACCENTED);
    Utf8.AlignedIsWellFormed(ACCENTED);
  }

  /** A special token with an accented letter does not survive, although the text is well formed. */
  lemma AccentedSpecialTokenIsLost(model: Model)
    requires Closed(model) && ACCENTED in model.tokens
    ensures Utf8.WellFormed(ACCENTED)
    ensures DecodedText(model.tokens, TextIds(model, ACCENTED, false, true)) != ACCENTED
  {
    hide Segments, AvoidsAlphabet, Utf8.WellFormed, Closed, TextIds;
    AccentedIsWellFormed();
    AccentedIsOneSegment();
    assert Special(ACCENTED) in Segments(ACCENTED) && Atomic(model, Special(ACCENTED));
    RoundTripWithSpecials(model, ACCENTED);
  }
}
