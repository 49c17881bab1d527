/**
 UTF-8 as the tokenizer reads, writes and repairs it: the lenient reader
 `utf8_decode`, the writer `utf8_encode`, the strict test `valid_utf8_width` and the
 replacement of malformed octets. Well-formedness is defined apart from all of them:
 a text is well formed when it is the concatenation of the encodings of Unicode scalar
 values (sections 3 and 4 of RFC 3629).
 */
module Utf8 {
  import opened Bytes

  /** What the lenient reader returns: a code point and the octets it consumed. */
  datatype Decoded = Decoded(codepoint: nat, width: nat)

  /** The lenient reader covers 21 bits, more than Unicode assigns. */
  const CODEPOINT_LIMIT: nat := 0x200000

  /** U+FFFD in UTF-8. */
  const REPLACEMENT: Text := [0xEF, 0xBF, 0xBD]

  predicate IsScalar(codepoint: nat)
    ensures IsScalar(codepoint) ==> codepoint < CODEPOINT_LIMIT
  {
    codepoint <= 0x10FFFF && !(0xD800 <= codepoint <= 0xDFFF)
  }

  function Encode(codepoint: nat): (text: Text)
    requires codepoint < CODEPOINT_LIMIT
    ensures 1 <= |text| <= 4
  {
    if codepoint <= 0x7F then
      [codepoint]
    else if codepoint <= 0x7FF then
      [0xC0 + codepoint / 64, 0x80 + codepoint % 64]
    else if codepoint <= 0xFFFF then
      [0xE0 + codepoint / 4096, 0x80 + codepoint / 64 % 64, 0x80 + codepoint % 64]
    else
      [0xF0 + codepoint / 262144, 0x80 + codepoint / 4096 % 64, 0x80 + codepoint / 64 % 64, 0x80 + codepoint % 64]
  }

  /** The payload bits of a continuation octet; the mark itself is not checked here. */
  function Payload(octet: int): (bits: nat)
    requires 0 <= octet
    ensures bits < 64
  {
    octet % 64
  }

  /** The lenient reader: it trusts the lead octet and never looks at continuation marks. */
  function Decode(text: Text, start: nat): (r: Decoded)
    requires start < |text|
    ensures 1 <= r.width <= 4 && start + r.width <= |text|
    ensures r.codepoint < CODEPOINT_LIMIT
  {
    var first: int := text[start];
    if first < 128 then
      Decoded(first, 1)
    else if first < 224 && start + 1 < |text| then
      Decoded(first % 32 * 64 + Payload(text[start + 1]), 2)
    else if first < 240 && start + 2 < |text| then
      Decoded(first % 16 * 4096 + Payload(text[start + 1]) * 64 + Payload(text[start + 2]), 3)
    else if start + 3 < |text| then
      Decoded(first % 8 * 262144 + Payload(text[start + 1]) * 4096 + Payload(text[start + 2]) * 64 + Payload(text[start + 3]), 4)
    else
      Decoded(first, 1)
  }

  predicate IsContinuation(octet: byte) {
    0x80 <= octet <= 0xBF
  }

  /** The strict test: the width of the well-formed sequence at `position`, or 0. */
  function ValidWidth(text: Text, position: nat): (width: nat)
    ensures width <= 4 && (width > 0 ==> position + width <= |text|)
  {
    if position >= |text| then 0 else
    var first: int := text[position];
    if first < 0x80 then
      1
    else if 0xC2 <= first <= 0xDF then
      if position + 1 >= |text| then 0
      else if IsContinuation(text[position + 1]) then 2
      else 0
    else if 0xE0 <= first <= 0xEF then
      if position + 2 >= |text| then 0
      else if !IsContinuation(text[position + 1]) || !IsContinuation(text[position + 2]) then 0
      else
        var codepoint := first % 16 * 4096 + Payload(text[position + 1]) * 64 + Payload(text[position + 2]);
        if codepoint < 0x800 || 0xD800 <= codepoint <= 0xDFFF then 0 else 3
    else if 0xF0 <= first <= 0xF4 then
      if position + 3 >= |text| then 0
      else if !IsContinuation(text[position + 1]) || !IsContinuation(text[position + 2])
              || !IsContinuation(text[position + 3]) then 0
      else
        var codepoint := first % 8 * 262144 + Payload(text[position + 1]) * 4096
                         + Payload(text[position + 2]) * 64 + Payload(text[position + 3]);
        if codepoint < 0x10000 || codepoint > 0x10FFFF then 0 else 4
    else 0
  }

  /** The encodings of `codepoints`, one after the other. */
  function EncodeAll(codepoints: seq<nat>): Text
    requires forall c <- codepoints :: IsScalar(c)
  {
    if codepoints == [] then [] else
    assert IsScalar(codepoints[0]);
    Encode(codepoints[0]) + EncodeAll(codepoints[1..])
  }

  ghost predicate WellFormed(text: Text) {
    exists codepoints: seq<nat> :: (forall c <- codepoints :: IsScalar(c)) && EncodeAll(codepoints) == text
  }

  /** The repaired form of text[position..]: each octet that starts no well-formed sequence becomes U+FFFD. */
  function Repair(text: Text, position: nat): Text
    requires position <= |text|
    decreases |text| - position
  {
    if position == |text| then []
    else
      var width := ValidWidth(text, position);
      if width > 0 then text[position..position + width] + Repair(text, position + width)
      else REPLACEMENT + Repair(text, position + 1)
  }

  // ---------------------------------------------------------------- encoding and decoding

  /** The base-64 digits of a code point determine it. */
  lemma Digits(n: nat)
    ensures n == n / 64 * 64 + n % 64
    ensures n == n / 4096 * 4096 + n / 64 % 64 * 64 + n % 64
    ensures n == n / 262144 * 262144 + n / 4096 % 64 * 4096 + n / 64 % 64 * 64 + n % 64
    ensures n / 64 / 64 == n / 4096 && n / 4096 / 64 == n / 262144
  {
    assert n / 64 / 64 == n / 4096;
    assert n / 4096 / 64 == n / 262144;
  }

  /** A number assembled from base-64 digits has those digits. */
  lemma DigitsOf(a: nat, b: nat, c: nat, d: nat, n: nat)
    requires b < 64 && c < 64 && d < 64
    requires n == a * 262144 + b * 4096 + c * 64 + d
    ensures n / 262144 == a && n / 4096 % 64 == b && n / 64 % 64 == c && n % 64 == d
    ensures n / 4096 == a * 64 + b && n / 64 == (a * 64 + b) * 64 + c
  {
    var high := a * 64 + b;
    Base64(high * 64 + c, d, n);
    Base64(high, c, n / 64);
    Base64(a, b, n / 64 / 64);
    Digits(n);
  }

  lemma Base64(high: nat, digit: nat, n: nat)
    requires digit < 64 && n == high * 64 + digit
    ensures n / 64 == high && n % 64 == digit
  {
  }

  lemma EncodedAt(prefix: Text, encoded: Text, rest: Text)
    ensures |prefix + encoded + rest| == |prefix| + |encoded| + |rest|
    ensures forall i | 0 <= i < |encoded| :: (prefix + encoded + rest)[|prefix| + i] == encoded[i]
  {
  }

  /** Reading back octets that carry the digits a, b, c, d under the marks of `Encode`. */
  lemma ReadTwo(text: Text, p: nat, c: nat, d: nat)
    requires c < 32 && d < 64 && p + 1 < |text| && text[p] == 0xC0 + c && text[p + 1] == 0x80 + d
    ensures Decode(text, p) == Decoded(c * 64 + d, 2)
    ensures c >= 2 ==> ValidWidth(text, p) == 2
  {
  }

  lemma ReadThree(text: Text, p: nat, b: nat, c: nat, d: nat)
    requires b < 16 && c < 64 && d < 64 && p + 2 < |text|
    requires text[p] == 0xE0 + b && text[p + 1] == 0x80 + c && text[p + 2] == 0x80 + d
    ensures Decode(text, p) == Decoded(b * 4096 + c * 64 + d, 3)
    ensures var n := b * 4096 + c * 64 + d; 0x800 <= n && IsScalar(n) ==> ValidWidth(text, p) == 3
  {
    PayloadOf(c);
    PayloadOf(d);
    assert (0xE0 + b) % 16 == b;
    hide Payload;
  }

  lemma PayloadOf(digit: nat)
    requires digit < 64
    ensures Payload(0x80 + digit) == digit && IsContinuation(0x80 + digit)
  {
  }

  lemma ReadFour(text: Text, p: nat, a: nat, b: nat, c: nat, d: nat)
    requires a < 8 && b < 64 && c < 64 && d < 64 && p + 3 < |text|
    requires text[p] == 0xF0 + a && text[p + 1] == 0x80 + b && text[p + 2] == 0x80 + c && text[p + 3] == 0x80 + d
    ensures Decode(text, p) == Decoded(a * 262144 + b * 4096 + c * 64 + d, 4)
    ensures var n := a * 262144 + b * 4096 + c * 64 + d; 0x10000 <= n <= 0x10FFFF ==> ValidWidth(text, p) == 4
  {
    PayloadOf(b);
    PayloadOf(c);
    PayloadOf(d);
    assert (0xF0 + a) % 8 == a;
    hide Payload;
  }

  /** Both readers see an encoded code point, whatever follows. */
  lemma ReadEncoded(prefix: Text, codepoint: nat, rest: Text)
    requires codepoint < CODEPOINT_LIMIT
    ensures var text := prefix + Encode(codepoint) + rest;
            && Decode(text, |prefix|) == Decoded(codepoint, |Encode(codepoint)|)
            && (IsScalar(codepoint) ==> ValidWidth(text, |prefix|) == |Encode(codepoint)|)
  {
    var encoded := Encode(codepoint);
    EncodedAt(prefix, encoded, rest);
    var text, p := prefix + encoded + rest, |prefix|;
    var a, b, c, d := codepoint / 262144, codepoint / 4096 % 64, codepoint / 64 % 64, codepoint % 64;
    Digits(codepoint);
    assert text[p + 0] == encoded[0];
    if codepoint > 0xFFFF {
      assert text[p + 1] == encoded[1] && text[p + 2] == encoded[2] && text[p + 3] == encoded[3];
      ReadFour(text, p, a, b, c, d);
    } else if codepoint > 0x7FF {
      assert text[p + 1] == encoded[1] && text[p + 2] == encoded[2];
      ReadThree(text, p, codepoint / 4096, c, d);
    } else if codepoint > 0x7F {
      assert text[p + 1] == encoded[1];
      ReadTwo(text, p, codepoint / 64, d);
    }
  }

  /** `utf8_decode` inverts `utf8_encode`, whatever follows. */
  lemma DecodeInvertsEncode(prefix: Text, codepoint: nat, rest: Text)
    requires codepoint < CODEPOINT_LIMIT
    ensures Decode(prefix + Encode(codepoint) + rest, |prefix|) == Decoded(codepoint, |Encode(codepoint)|)
  {
    ReadEncoded(prefix, codepoint, rest);
  }

  /** The strict test accepts the encoding of every scalar value, whatever follows. */
  lemma ValidWidthOfScalar(prefix: Text, codepoint: nat, rest: Text)
    requires IsScalar(codepoint)
    ensures ValidWidth(prefix + Encode(codepoint) + rest, |prefix|) == |Encode(codepoint)|
  {
    ReadEncoded(prefix, codepoint, rest);
  }

  /** One character of each width: "A", U+00E9, U+20AC, U+10348. */
  lemma KnownEncodings()
    ensures Encode(0x41) == [0x41]
    ensures Encode(0xE9) == [0xC3, 0xA9]
    ensures Encode(0x20AC) == [0xE2, 0x82, 0xAC]
    ensures Encode(0x10348) == [0xF0, 0x90, 0x8D, 0x88]
  {
  }

  /** The lenient reader on malformed octets: a stray continuation takes the next octet, a cut character stands alone. */
  lemma KnownLenientReadings()
    ensures Decode([0x80, 0x41], 0) == Decoded(1, 2)
    ensures Decode([0xC3], 0) == Decoded(0xC3, 1) && Decode([0xE2, 0x82], 0) == Decoded(0xE2, 1)
    ensures Decode([0xC3, 0xFF], 0) == Decoded(0xFF, 2) && Decode([0xFF, 0x80, 0x80, 0x80], 0) == Decoded(0x1C_0000, 4)
  {
  }

  /** Writing the digits a, b, c, d puts the marks back under them. */
  lemma EncodeDigits(a: nat, b: nat, c: nat, d: nat)
    requires a < 8 && b < 64 && c < 64 && d < 64
    ensures 2 <= c < 32 ==> Encode(c * 64 + d) == [0xC0 + c, 0x80 + d]
    ensures b < 16 && 0x800 <= b * 4096 + c * 64 + d
            ==> Encode(b * 4096 + c * 64 + d) == [0xE0 + b, 0x80 + c, 0x80 + d]
    ensures 0x10000 <= a * 262144 + b * 4096 + c * 64 + d
            ==> Encode(a * 262144 + b * 4096 + c * 64 + d) == [0xF0 + a, 0x80 + b, 0x80 + c, 0x80 + d]
  {
    DigitsOf(a, b, c, d, a * 262144 + b * 4096 + c * 64 + d);
    DigitsOf(0, b, c, d, b * 4096 + c * 64 + d);
    DigitsOf(0, 0, c, d, c * 64 + d);
  }

  lemma ContinuationMark(octet: byte)
    requires IsContinuation(octet)
    ensures octet == 0x80 + Payload(octet)
  {
  }

  lemma ScalarOfTwo(text: Text, position: nat) returns (codepoint: nat)
    requires ValidWidth(text, position) == 2
    ensures IsScalar(codepoint)
    ensures Encode(codepoint) == [text[position], text[position + 1]]
  {
    var first: int := text[position];
    ContinuationMark(text[position + 1]);
    var x := Payload(text[position + 1]);
    codepoint := first % 32 * 64 + x;
    assert first == 0xC0 + first % 32;
    EncodeDigits(0, 0, first % 32, x);
  }

  lemma ScalarOfThree(text: Text, position: nat) returns (codepoint: nat)
    requires ValidWidth(text, position) == 3
    ensures IsScalar(codepoint)
    ensures Encode(codepoint) == [text[position], text[position + 1], text[position + 2]]
  {
    var first: int := text[position];
    ContinuationMark(text[position + 1]);
    ContinuationMark(text[position + 2]);
    var x, y := Payload(text[position + 1]), Payload(text[position + 2]);
    codepoint := first % 16 * 4096 + x * 64 + y;
    assert first == 0xE0 + first % 16;
    EncodeDigits(0, first % 16, x, y);
  }

  lemma ScalarOfFour(text: Text, position: nat) returns (codepoint: nat)
    requires ValidWidth(text, position) == 4
    ensures IsScalar(codepoint)
    ensures Encode(codepoint) == [text[position], text[position + 1], text[position + 2], text[position + 3]]
  {
    var first: int := text[position];
    ContinuationMark(text[position + 1]);
    ContinuationMark(text[position + 2]);
    ContinuationMark(text[position + 3]);
    var x, y, z := Payload(text[position + 1]), Payload(text[position + 2]), Payload(text[position + 3]);
    codepoint := first % 8 * 262144 + x * 4096 + y * 64 + z;
    assert first == 0xF0 + first % 8;
    EncodeDigits(first % 8, x, y, z);
  }

  /** The strict test accepts nothing else: what it accepts is the encoding of the scalar value it reads. */
  lemma ScalarOfValidWidth(text: Text, position: nat) returns (codepoint: nat)
    requires ValidWidth(text, position) > 0
    ensures IsScalar(codepoint)
    ensures Encode(codepoint) == text[position..position + ValidWidth(text, position)]
  {
    match ValidWidth(text, position)
    case 1 => codepoint := text[position];
    case 2 => codepoint := ScalarOfTwo(text, position);
    case 3 => codepoint := ScalarOfThree(text, position);
    case _ => codepoint := ScalarOfFour(text, position);
  }

  // ---------------------------------------------------------------- repair

  lemma ReplacementIsScalar()
    ensures IsScalar(0xFFFD) && Encode(0xFFFD) == REPLACEMENT
  {
  }

  /** An octet that begins no character becomes U+FFFD. */
  lemma StrayOctetRepaired()
    ensures Repair([0x61, 0xFF, 0x62], 0) == [0x61, 0xEF, 0xBF, 0xBD, 0x62]
  {
    var text := [0x61, 0xFF, 0x62];
    assert Repair(text, 2) == text[2..3] + Repair(text, 3) == [0x62];
    assert Repair(text, 1) == REPLACEMENT + [0x62];
    assert Repair(text, 0) == text[0..1] + Repair(text, 1);
  }

  /** So does each octet of a character that is cut short, and the next character is kept. */
  lemma CutCharacterRepaired()
    ensures Repair([0xE2, 0x82, 0xC3, 0xA9], 0) == [0xEF, 0xBF, 0xBD, 0xEF, 0xBF, 0xBD, 0xC3, 0xA9]
  {
    var text := [0xE2, 0x82, 0xC3, 0xA9];
    assert Repair(text, 2) == text[2..4] + Repair(text, 4) == [0xC3, 0xA9];
    assert Repair(text, 1) == REPLACEMENT + [0xC3, 0xA9];
    assert Repair(text, 0) == REPLACEMENT + Repair(text, 1);
  }

  /** Repaired text is well formed, for every input. */
  lemma {:induction false} RepairIsWellFormed(text: Text, position: nat) returns (codepoints: seq<nat>)
    requires position <= |text|
    ensures forall c <- codepoints :: IsScalar(c)
    ensures EncodeAll(codepoints) == Repair(text, position)
    ensures WellFormed(Repair(text, position))
    decreases |text| - position
  {
    hide ValidWidth, Encode;
    if position == |text| {
      codepoints := [];
    } else {
      var width := ValidWidth(text, position);
      var first := 0xFFFD;
      var tail;
      if width > 0 {
        first := ScalarOfValidWidth(text, position);
        tail := RepairIsWellFormed(text, position + width);
      } else {
        ReplacementIsScalar();
        tail := RepairIsWellFormed(text, position + 1);
      }
      codepoints := [first] + tail;
      assert codepoints[1..] == tail;
    }
  }

  /** From `position` on, the text is a sequence of well-formed characters. */
  ghost predicate Aligned(text: Text, position: nat)
    decreases |text| - position
  {
    || position == |text|
    || (ValidWidth(text, position) > 0 && Aligned(text, position + ValidWidth(text, position)))
  }

  lemma {:induction false} EncodedIsAligned(prefix: Text, codepoints: seq<nat>)
    requires forall c <- codepoints :: IsScalar(c)
    ensures Aligned(prefix + EncodeAll(codepoints), |prefix|)
    decreases |codepoints|
  {
    hide ValidWidth, Encode;
    if codepoints != [] {
      assert IsScalar(codepoints[0]);
      var head, tail := Encode(codepoints[0]), EncodeAll(codepoints[1..]);
      assert prefix + EncodeAll(codepoints) == prefix + head + tail == (prefix + head) + tail;
      ValidWidthOfScalar(prefix, codepoints[0], tail);
      EncodedIsAligned(prefix + head, codepoints[1..]);
    }
  }

  lemma NoStraddle(text: Text, start: nat, end: nat)
    requires start < end <= |text| && Aligned(text, end) && ValidWidth(text, start) > 0
    ensures start + ValidWidth(text, start) <= end
  {
    assert end < |text| ==> !IsContinuation(text[end]);
  }

  /** Two aligned positions enclose a well-formed text: no character straddles an aligned position. */
  lemma {:induction false} AlignedPiece(text: Text, start: nat, end: nat) returns (codepoints: seq<nat>)
    requires start <= end <= |text| && Aligned(text, start) && Aligned(text, end)
    ensures forall c <- codepoints :: IsScalar(c)
    ensures EncodeAll(codepoints) == text[start..end]
    ensures WellFormed(text[start..end])
    decreases end - start
  {
    hide ValidWidth, Encode;
    if start == end {
      codepoints := [];
    } else {
      var width := ValidWidth(text, start);
      NoStraddle(text, start, end);
      var first := ScalarOfValidWidth(text, start);
      var rest := AlignedPiece(text, start + width, end);
      codepoints := [first] + rest;
      assert codepoints[1..] == rest;
      assert text[start..end] == text[start..start + width] + text[start + width..end];
    }
  }

  lemma AlignedIsWellFormed(text: Text)
    ensures Aligned(text, 0) <==> WellFormed(text)
  {
    if Aligned(text, 0) {
      var codepoints := AlignedPiece(text, 0, |text|);
      assert text[0..|text|] == text;
    }
    if WellFormed(text) {
      var codepoints: seq<nat> :| (forall c <- codepoints :: IsScalar(c)) && EncodeAll(codepoints) == text;
      EncodedIsAligned([], codepoints);
      assert [] + text == text;
    }
  }

  /** Where the text is aligned, the lenient reader sees the same characters as the strict test. */
  lemma AlignedWidth(text: Text, position: nat)
    requires Aligned(text, position) && position < |text|
    ensures Decode(text, position).width == ValidWidth(text, position)
  {
  }

  lemma {:induction false} RepairKeepsAligned(text: Text, position: nat)
    requires position <= |text| && Aligned(text, position)
    ensures Repair(text, position) == text[position..]
    decreases |text| - position
  {
    if position < |text| {
      RepairKeepsAligned(text, position + ValidWidth(text, position));
    }
  }

  /** Repair changes a text exactly when the text is malformed. */
  lemma RepairIsIdentityExactlyOnWellFormed(text: Text)
    ensures Repair(text, 0) == text <==> WellFormed(text)
  {
    AlignedIsWellFormed(text);
    if WellFormed(text) {
      RepairKeepsAligned(text, 0);
    }
    var codepoints := RepairIsWellFormed(text, 0);
  }

  lemma RepairIsIdempotent(text: Text)
    ensures Repair(Repair(text, 0), 0) == Repair(text, 0)
  {
    var codepoints := RepairIsWellFormed(text, 0);
    RepairIsIdentityExactlyOnWellFormed(Repair(text, 0));
  }

  // ---------------------------------------------------------------- the repairing loops

  /** The first loop of the repair: the length that the output will have. */
  method RepairedLength(raw: array<byte>, total: nat) returns (outputTotal: nat)
    requires total == raw.Length
    ensures outputTotal == |Repair(raw[..], 0)|
  {
    hide ValidWidth;
    outputTotal := 0;
    var j := 0;
    while j < total
      invariant 0 <= j <= total
      invariant outputTotal + |Repair(raw[..], j)| == |Repair(raw[..], 0)|
    {
      var width := ValidWidth(raw[..], j);
      if width > 0 {
        outputTotal := outputTotal + width;
        j := j + width;
      } else {
        outputTotal := outputTotal + 3;
        j := j + 1;
      }
    }
  }

  /** Copies raw[from..from + width] to text[at..at + width]. */
  method CopyOctets(raw: array<byte>, from: nat, text: array<byte>, at: nat, width: nat)
    requires raw != text && from + width <= raw.Length && at + width <= text.Length
    modifies text
    ensures text[..at + width] == old(text[..at]) + raw[from..from + width]
  {
    for k := 0 to width
      invariant text[..at] == old(text[..at])
      invariant text[at..at + k] == raw[from..from + k]
    {
      text[at + k] := raw[from + k];
    }
  }

  /** Moving one repaired unit from what is still to do to what is done. */
  lemma RepairStep(text: Text, position: nat, before: Text, after: Text)
    requires position < |text|
    requires var width := ValidWidth(text, position);
             after == before + if width > 0 then text[position..position + width] else REPLACEMENT
    ensures var width := ValidWidth(text, position);
            before + Repair(text, position) == after + Repair(text, position + if width > 0 then width else 1)
  {
    hide ValidWidth;
    var width := ValidWidth(text, position);
    var unit := if width > 0 then text[position..position + width] else REPLACEMENT;
    var rest := Repair(text, position + if width > 0 then width else 1);
    assert before + (unit + rest) == (before + unit) + rest;
  }

  /** One turn of the second loop: writes the repaired unit for raw[j] at text[output]. */
  method RepairOne(raw: array<byte>, j: nat, text: array<byte>, output: nat) returns (nextJ: nat, nextOutput: nat)
    requires raw != text && j < raw.Length
    requires output + |Repair(raw[..], j)| <= text.Length
    modifies text
    ensures j < nextJ <= raw.Length && output < nextOutput
    ensures nextOutput + |Repair(raw[..], nextJ)| == output + |Repair(raw[..], j)|
    ensures text[..nextOutput] + Repair(raw[..], nextJ) == old(text[..output]) + Repair(raw[..], j)
  {
    var width := ValidWidth(raw[..], j);
    if width > 0 {
      CopyOctets(raw, j, text, output, width);
      nextOutput := output + width;
      nextJ := j + width;
      assert raw[j..j + width] == raw[..][j..j + width];
    } else {
      text[output], text[output + 1], text[output + 2] := 0xEF, 0xBF, 0xBD;
      nextOutput := output + 3;
      nextJ := j + 1;
      assert text[..nextOutput] == old(text[..output]) + REPLACEMENT;
    }
    RepairStep(raw[..], j, old(text[..output]), text[..nextOutput]);
  }

  /** The second loop: it writes the repaired text into a buffer of exactly that length. */
  method WriteRepaired(raw: array<byte>, total: nat) returns (text: array<byte>)
    requires total == raw.Length
    ensures fresh(text)
    ensures text[..] == Repair(raw[..], 0)
  {
    var outputTotal := RepairedLength(raw, total);
    text := new byte[outputTotal];
    var output: nat, j: nat := 0, 0;
    while j < total
      invariant 0 <= j <= total && output + |Repair(raw[..], j)| == outputTotal
      invariant text[..output] + Repair(raw[..], j) == Repair(raw[..], 0)
    {
      j, output := RepairOne(raw, j, text, output);
    }
    assert text[..output] == text[..];
  }
}
