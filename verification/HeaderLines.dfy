/**
 Which Content-Length the request reader takes, in terms of the lines of the header: the last
 line below the separator that has the name. And which number it reads there, in terms of how
 the number is written.
 */
module HeaderLines {
  import opened Bytes
  import opened CStrings
  import opened RequestReader
  import opened RequestFraming

  const NAME: string := "content-length:"

  /** The beginning of the buffer, or the place behind a line end. */
  predicate IsLineStart(b: seq<byte>, p: nat) {
    p == 0 || (2 <= p <= |b| && b[p - 2] as char == '\r' && b[p - 1] as char == '\n')
  }

  /** Equal to a character of the name, or its upper case. */
  predicate IsEitherCase(octet: byte, letter: char) {
    octet as char == letter || ('a' <= letter <= 'z' && octet as int + 0x20 == letter as int)
  }

  predicate HasName(b: seq<byte>, p: nat) {
    p + |NAME| <= |b| && forall k | 0 <= k < |NAME| :: IsEitherCase(b[p + k], NAME[k])
  }

  ghost predicate IsLengthLine(b: seq<byte>, p: nat) {
    IsLineStart(b, p) && HasName(b, p)
  }

  /** `v` is behind the name of the last Content-Length line that begins below `separator`. */
  ghost predicate IsLastValue(b: seq<byte>, separator: nat, v: nat) {
    && |NAME| <= v < separator + |NAME|
    && IsLengthLine(b, v - |NAME|)
    && forall p: nat | v - |NAME| < p < separator :: !IsLengthLine(b, p)
  }

  lemma LowerMeans(octet: byte, letter: char)
    requires 'a' <= letter <= 'z' || letter == '-' || letter == ':'
    ensures IsEitherCase(octet, letter) <==> Lower(octet) as int == letter as int
  {
  }

  lemma NameOctets()
    ensures |NAME| == |LENGTH_HEADER| == 15
    ensures forall k | 0 <= k < 15 :: LENGTH_HEADER[k] as int == NAME[k] as int
    ensures forall k | 0 <= k < 15 :: 'a' <= NAME[k] <= 'z' || NAME[k] == '-' || NAME[k] == ':'
  {
  }

  lemma HasNameMeans(b: seq<byte>, p: nat)
    ensures HasName(b, p) <==> SameIgnoringCase(b, p, LENGTH_HEADER)
  {
    NameOctets();
    hide Lower, IsEitherCase;
    if p + 15 <= |b| {
      forall k | 0 <= k < 15
        ensures IsEitherCase(b[p + k], NAME[k]) <==> Lower(b[p + k]) == LENGTH_HEADER[k]
      {
        LowerMeans(b[p + k], NAME[k]);
      }
    }
  }

  /** Between two places where the reader looks no line begins. */
  lemma NoLineBetween(b: seq<byte>, line: nat, next: nat, p: nat)
    requires Strstr(b, line, CRLF) == Some(next) && IsLineStart(b, line) && line < p < next + 2
    ensures !IsLineStart(b, p)
  {
    hide Strstr;
    StrstrStaysInText(b, line, CRLF);
    if IsLineStart(b, p) && p >= line + 2 {
      var k := p - 2;
      assert b[k..k + 2] == CRLF;
      StrstrIsFirst(b, line, CRLF, k);
    }
  }

  lemma LineEndsAt(b: seq<byte>, line: nat, separator: nat) returns (next: nat)
    requires EndsAt(b, separator) && line < separator
    ensures Strstr(b, line, CRLF) == Some(next) && line <= next <= separator && IsLineStart(b, next + 2)
  {
    hide Strstr;
    EndsAtMeans(b, separator);
    LineIsLocal(b, b, line, separator);
    StrstrStaysInText(b, line, CRLF);
    next := Strstr(b, line, CRLF).value;
    assert b[next..next + 2] == CRLF;
    assert b[next] == b[next..next + 2][0] && b[next + 1] == b[next..next + 2][1];
  }

  /** From any line on, the last line with the name decides. */
  lemma {:induction false} LastValueFrom(b: seq<byte>, line: nat, separator: nat, last: Option<nat>)
    requires EndsAt(b, separator) && IsLineStart(b, line)
    ensures
      var found := LastValue(b, line, separator, last);
      || (found == last && forall p: nat | line <= p < separator :: !IsLengthLine(b, p))
      || (found.Some? && line + |NAME| <= found.value && IsLastValue(b, separator, found.value))
    decreases separator - line
  {
    hide Strstr, EndsAt, SameIgnoringCase, IsLineStart, HasName;
    NameOctets();
    if line < separator {
      var next := LineEndsAt(b, line, separator);
      HasNameMeans(b, line);
      var later := if HasName(b, line) then Some(line + 15) else last;
      LastValueFrom(b, next + 2, separator, later);
      forall p: nat | line < p < next + 2
        ensures !IsLineStart(b, p)
      {
        NoLineBetween(b, line, next, p);
      }
    }
  }

  /** The reader takes exactly the value of the last Content-Length line. */
  lemma LastValueExactly(b: seq<byte>, separator: nat, v: nat)
    requires EndsAt(b, separator)
    ensures LastValue(b, 0, separator, None) == Some(v) <==> IsLastValue(b, separator, v)
    ensures LastValue(b, 0, separator, None) == None <==> forall p: nat | p < separator :: !IsLengthLine(b, p)
  {
    hide LastValue, EndsAt, IsLengthLine;
    LastValueFrom(b, 0, separator, None);
  }

  /** The end of the header is the first empty line. */
  lemma EndsAtExactly(b: seq<byte>, separator: nat)
    requires forall k | 0 <= k < |b| :: b[k] != 0
    ensures EndsAt(b, separator)
      <==> Matches(b, separator, Ascii("\r\n\r\n")) && forall k: nat | k < separator :: !Matches(b, k, Ascii("\r\n\r\n"))
  {
    hide Strstr;
    assert Ascii("\r\n\r\n") == SEPARATOR;
    if EndsAt(b, separator) {
      StrstrStaysInText(b, 0, SEPARATOR);
      forall k: nat | k < separator
        ensures !Matches(b, k, SEPARATOR)
      {
        if Matches(b, k, SEPARATOR) { StrstrIsFirst(b, 0, SEPARATOR, k); }
      }
    } else if Matches(b, separator, SEPARATOR) {
      StrstrIsFirst(b, 0, SEPARATOR, separator);
      StrstrStaysInText(b, 0, SEPARATOR);
    }
  }

  // ---------------------------------------------------------------- numbers

  /** White space is tab, line feed, vertical tab, form feed, carriage return and blank. */
  lemma WhiteSpace(c: byte)
    ensures IsSpace(c) <==> c in {0x09, 0x0A, 0x0B, 0x0C, 0x0D, 0x20}
  {
  }

  /** A number in decimal. */
  function Decimal(n: nat): (digits: seq<byte>)
    ensures digits != [] && forall k | 0 <= k < |digits| :: IsDigit(digits[k])
  {
    (if n < 10 then [] else Decimal(n / 10)) + [48 + n % 10]
  }

  lemma DigitsStep(b: seq<byte>, i: nat, value: nat)
    requires i < |b| && IsDigit(b[i])
    ensures Digits(b, i, value) == Digits(b, i + 1, value * 10 + (b[i] as int - 48))
  {
  }

  /** Reading the digits of `n` gives `n`, and goes on behind them. */
  lemma {:induction false} DigitsRead(before: seq<byte>, n: nat, after: seq<byte>)
    ensures Digits(before + Decimal(n) + after, |before|, 0) == Digits(before + Decimal(n) + after, |before + Decimal(n)|, n)
    decreases n
  {
    hide Digits;
    var b, last := before + Decimal(n) + after, [48 + n % 10];
    var place := |before + Decimal(n)| - 1;
    assert b[place] == 48 + n % 10;
    if n < 10 {
      assert place == |before|;
      DigitsStep(b, place, 0);
    } else {
      assert b == before + Decimal(n / 10) + (last + after);
      assert place == |before + Decimal(n / 10)|;
      DigitsRead(before, n / 10, last + after);
      DigitsStep(b, place, n / 10);
    }
  }

  lemma DigitsEnd(b: seq<byte>, i: nat, value: nat)
    requires i >= |b| || !IsDigit(b[i])
    ensures Digits(b, i, value) == value
  {
  }

  lemma SpacesSkipped(b: seq<byte>, from: nat, end: nat)
    requires from <= end < |b| && !IsSpace(b[end]) && forall k | from <= k < end :: IsSpace(b[k])
    ensures SkipSpace(b, from) == end
  {
  }

  /** The largest number of 64 bits. */
  const LARGEST: nat := 18446744073709551615

  /**
   White space, an optional plus and decimal digits are read as their number, or the largest one
   of 64 bits if it does not fit.
   */
  lemma NumberIsRead(before: seq<byte>, spaces: seq<byte>, plus: bool, n: nat, after: seq<byte>)
    requires forall k | 0 <= k < |spaces| :: IsSpace(spaces[k])
    requires after == [] || !IsDigit(after[0])
    ensures Strtoull(before + spaces + (if plus then Ascii("+") else []) + Decimal(n) + after, |before|)
      == if n > LARGEST then LARGEST else n
  {
    var sign := if plus then Ascii("+") else [];
    assert Ascii("+")[0] != Ascii("-")[0];
    SignedRead(before, spaces, sign, n, after);
  }

  /** A minus sign makes the negative of the number, modulo 2^64. */
  lemma NegativeIsRead(before: seq<byte>, spaces: seq<byte>, n: nat, after: seq<byte>)
    requires forall k | 0 <= k < |spaces| :: IsSpace(spaces[k])
    requires after == [] || !IsDigit(after[0])
    ensures Strtoull(before + spaces + Ascii("-") + Decimal(n) + after, |before|)
      == if n > LARGEST then LARGEST else if n == 0 then 0 else 18446744073709551616 - n
  {
    SignedRead(before, spaces, Ascii("-"), n, after);
  }

  lemma SignedRead(before: seq<byte>, spaces: seq<byte>, sign: seq<byte>, n: nat, after: seq<byte>)
    requires forall k | 0 <= k < |spaces| :: IsSpace(spaces[k])
    requires after == [] || !IsDigit(after[0])
    requires sign == [] || sign == Ascii("+") || sign == Ascii("-")
    ensures Strtoull(before + spaces + sign + Decimal(n) + after, |before|)
      == if n > LARGEST then LARGEST else if sign == Ascii("-") && n > 0 then LARGEST + 1 - n else n
  {
    hide Digits, SkipSpace, Decimal;
    var front := before + spaces + sign;
    var b, s := front + Decimal(n) + after, |before + spaces|;
    assert s == |front| - |sign|;
    assert b[s] == if sign == [] then Decimal(n)[0] else sign[0];
    forall k | |before| <= k < s
      ensures IsSpace(b[k])
    {
      assert b[k] == spaces[k - |before|];
    }
    SpacesSkipped(b, |before|, s);
    DigitsRead(front, n, after);
    if after != [] { assert b[|front + Decimal(n)|] == after[0]; }
    DigitsEnd(b, |front + Decimal(n)|, n);
  }

  // ---------------------------------------------------------------- a concrete request

  const REQUEST_LINE: seq<byte> := Ascii("POST /v1 HTTP/1.1")
  const LENGTH_LINE: seq<byte> := Ascii("Content-Length: 5")

  /** A request of two header lines and five bytes. */
  const POST: seq<byte> := REQUEST_LINE + Ascii("\r\n") + LENGTH_LINE + Ascii("\r\n\r\n") + Ascii("hello")

  lemma RequestLineOctets()
    ensures |REQUEST_LINE| == 17 && forall k | 0 <= k < 17 :: REQUEST_LINE[k] != 13 && REQUEST_LINE[k] != 0
  {
  }

  lemma LengthLineOctets()
    ensures |LENGTH_LINE| == 17 && forall k | 0 <= k < 17 :: LENGTH_LINE[k] != 13 && LENGTH_LINE[k] != 0
    ensures HasName(LENGTH_LINE, 0) && LENGTH_LINE[15] == 32 && LENGTH_LINE[16] == 53
  {
  }

  lemma PostOctets()
    ensures |POST| == 45
    ensures POST[17] == 13 && POST[18] == 10 && POST[36..40] == SEPARATOR
    ensures forall k | 0 <= k < 36 :: POST[k] != 0 && (POST[k] == 13 ==> k == 17)
    ensures HasName(POST, 19)
    ensures POST[34] == 32 && POST[35] == 53
  {
    RequestLineOctets();
    LengthLineOctets();
    hide IsEitherCase;
    assert Ascii("\r\n") == CRLF && Ascii("\r\n\r\n") == SEPARATOR && |Ascii("hello")| == 5;
    hide REQUEST_LINE, LENGTH_LINE;
    var head, line := REQUEST_LINE, LENGTH_LINE;
    assert POST == head + CRLF + line + SEPARATOR + Ascii("hello");
    assert forall k | 0 <= k < 17 :: POST[k] == head[k];
    assert forall k | 0 <= k < 17 :: POST[19 + k] == line[k];
    assert POST[36..40] == SEPARATOR;
    forall k | 0 <= k < 36
      ensures POST[k] != 0 && (POST[k] == 13 ==> k == 17)
    {
      if k >= 19 { assert POST[19 + (k - 19)] == line[k - 19]; }
    }
    forall k | 0 <= k < |NAME|
      ensures IsEitherCase(POST[19 + k], NAME[k])
    {
      assert POST[19 + k] == line[0 + k];
    }
    assert POST[34] == POST[19 + 15] && POST[35] == POST[19 + 16];
  }

  lemma PostEnds()
    ensures EndsAt(POST, 36)
  {
    hide Strstr, HasName;
    PostOctets();
    StrstrIsFirst(POST, 0, SEPARATOR, 36);
    StrstrStaysInText(POST, 0, SEPARATOR);
    var i := Strstr(POST, 0, SEPARATOR).value;
    assert POST[i] == POST[i..i + 4][0] && POST[i + 2] == POST[i..i + 4][2];
  }

  lemma PostLength()
    ensures LastValue(POST, 0, 36, None) == Some(34)
  {
    hide LastValue, EndsAt, HasName;
    PostOctets();
    PostEnds();
    LastValueExactly(POST, 36, 34);
  }

  lemma NumberAt34(b: seq<byte>)
    requires |b| >= 37 && b[34] == 32 && b[35] == 53 && b[36] == 13
    ensures Strtoull(b, 34) == 5
  {
    hide Strtoull;
    var before, spaces, after := b[..34], [32], b[36..];
    assert Decimal(5) == [53];
    assert b == before + spaces + [] + [53] + after;
    NumberIsRead(before, spaces, false, 5, after);
  }

  /** The second line announces the body, and all 45 bytes are the request. */
  lemma PostIsFramed()
    ensures Frame(POST) == Some(45)
  {
    hide LastValue, Strstr, Strtoull, HasName;
    PostOctets();
    PostEnds();
    PostLength();
    assert POST[36] == POST[36..40][0];
    NumberAt34(POST);
  }
}
