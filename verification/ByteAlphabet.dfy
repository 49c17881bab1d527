/**
 The GPT-2 byte alphabet: every octet has a printable stand-in code point, and a
 vocabulary entry spells the octets of a token with the stand-ins.
 */
module ByteAlphabet {
  import opened Bytes
  import Utf8

  function ByteUnicode(value: byte): (codepoint: nat)
    ensures codepoint < 324 && codepoint != 0x20
  {
    if 33 <= value <= 126 || 161 <= value <= 172 || 174 <= value <= 255 then value
    else if 0 <= value <= 32 then 256 + value
    else if 127 <= value <= 160 then value + 162
    else 323
  }

  function UnicodeByte(value: nat): nat {
    if value < 256 || value >= 512 then value
    else if value <= 288 then value - 256
    else if value <= 322 then value - 162
    else if value == 323 then 173
    else value
  }

  /**
   The octets that the decoder writes for one code point of a vocabulary entry. The code
   points 324..511 are no stand-ins; `achar` keeps the low eight bits of what it is given.
   */
  function CodepointBytes(codepoint: nat): Text
    requires codepoint < Utf8.CODEPOINT_LIMIT
  {
    if 256 <= codepoint < 512 then [UnicodeByte(codepoint) % 256]
    else if codepoint <= 255 then [codepoint]
    else Utf8.Encode(codepoint)
  }

  /** `decoded_codepoint_width`: what the sizing pass reserves for a code point. */
  function DecodedWidth(codepoint: nat): (width: nat) {
    if codepoint <= 511 then 1
    else if codepoint <= 0x7FF then 2
    else if codepoint <= 0xFFFF then 3
    else 4
  }

  /** The octets of piece[position..], code point by code point. */
  function DecodePiece(piece: Text, position: nat): Text
    requires position <= |piece|
    decreases |piece| - position
  {
    if position == |piece| then []
    else
      var d := Utf8.Decode(piece, position);
      CodepointBytes(d.codepoint) + DecodePiece(piece, position + d.width)
  }

  /** The stand-in of one octet, as the vocabulary writes it. */
  function ByteSymbol(value: byte): (symbol: Text)
    ensures |symbol| > 0 && 0x20 !in symbol
  {
    Utf8.Encode(ByteUnicode(value))
  }

  /** The stand-ins of all octets of `raw`. */
  function Spell(raw: Text): Text {
    if raw == [] then [] else ByteSymbol(raw[0]) + Spell(raw[1..])
  }

  /** The octets that stand for themselves: the visible characters of Latin-1. */
  predicate IsVisible(value: byte) {
    '!' <= value as char <= '~' || 0xA1 <= value <= 0xAC || 0xAE <= value
  }

  /** How many of the octets below `limit` do not stand for themselves. */
  function HiddenBelow(limit: nat): (count: nat)
    requires limit <= 256
    ensures limit <= 33 ==> count == limit
    ensures 33 <= limit <= 127 ==> count == 33
    ensures 127 <= limit <= 161 ==> count == limit - 94
    ensures 161 <= limit <= 173 ==> count == 67
    ensures 174 <= limit ==> count == 68
  {
    if limit == 0 then 0
    else HiddenBelow(limit - 1) + if IsVisible(limit - 1) then 0 else 1
  }

  /** The alphabet of GPT-2: visible octets keep their code point, the others are numbered from 256 on. */
  lemma AlphabetIsGpt2(value: byte)
    ensures ByteUnicode(value) == if IsVisible(value) then value else 256 + HiddenBelow(value)
  {
    hide HiddenBelow;
  }

  /** Every octet is recovered from its stand-in. */
  lemma AlphabetRoundTrip(value: byte)
    ensures CodepointBytes(ByteUnicode(value)) == [value]
  {
  }

  /** Different octets have different stand-ins. */
  lemma AlphabetIsInjective(a: byte, b: byte)
    requires ByteUnicode(a) == ByteUnicode(b)
    ensures a == b
  {
    AlphabetRoundTrip(a);
    AlphabetRoundTrip(b);
  }

  /** The sizing pass reserves exactly the octets that the writing pass produces. */
  lemma DecodedWidthIsExact(codepoint: nat)
    requires codepoint < Utf8.CODEPOINT_LIMIT
    ensures DecodedWidth(codepoint) == |CodepointBytes(codepoint)|
  {
  }

  lemma {:induction false} SpellAppend(left: Text, right: Text)
    ensures Spell(left + right) == Spell(left) + Spell(right)
  {
    if left == [] {
      assert left + right == right;
    } else {
      assert (left + right)[1..] == left[1..] + right;
      SpellAppend(left[1..], right);
    }
  }

  lemma {:induction false} DecodeSpelled(prefix: Text, raw: Text)
    ensures DecodePiece(prefix + Spell(raw), |prefix|) == raw
    decreases |raw|
  {
    hide Utf8.Decode, CodepointBytes, ByteUnicode;
    if raw != [] {
      var head, tail := ByteSymbol(raw[0]), Spell(raw[1..]);
      assert prefix + Spell(raw) == prefix + head + tail == (prefix + head) + tail;
      Utf8.DecodeInvertsEncode(prefix, ByteUnicode(raw[0]), tail);
      AlphabetRoundTrip(raw[0]);
      DecodeSpelled(prefix + head, raw[1..]);
    }
  }

  /** Decoding an entry gives back the octets that it spells. */
  lemma DecodeInvertsSpell(raw: Text)
    ensures DecodePiece(Spell(raw), 0) == raw
  {
    DecodeSpelled([], raw);
    assert [] + Spell(raw) == Spell(raw);
  }
}
