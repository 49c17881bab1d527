/**
 The C string functions that the request reader calls, on a buffer whose end reads as NUL,
 and how far each of them looks.
 */
module CStrings {
  import opened Bytes

  function At(b: seq<byte>, i: nat): byte {
    if i < |b| then b[i] else 0
  }

  predicate Matches(b: seq<byte>, i: nat, pattern: seq<byte>) {
    i + |pattern| <= |b| && b[i..i + |pattern|] == pattern
  }

  /** `strstr(b + from, pattern)`, as a position in `b`. */
  function Strstr(b: seq<byte>, from: nat, pattern: seq<byte>): Option<nat>
    decreases |b| - from
  {
    if Matches(b, from, pattern) then Some(from)
    else if At(b, from) == 0 then None
    else Strstr(b, from + 1, pattern)
  }

  predicate IsSpace(c: byte) {
    c == 32 || 9 <= c <= 13
  }

  predicate IsDigit(c: byte) {
    48 <= c <= 57
  }

  function SkipSpace(b: seq<byte>, i: nat): (r: nat)
    ensures i <= r && !IsSpace(At(b, r))
    ensures forall k | i <= k < r :: k < |b| && IsSpace(b[k])
    decreases |b| - i
  {
    if IsSpace(At(b, i)) then SkipSpace(b, i + 1) else i
  }

  function Digits(b: seq<byte>, i: nat, value: nat): nat
    decreases |b| - i
  {
    if IsDigit(At(b, i)) then Digits(b, i + 1, value * 10 + (b[i] as int - 48)) else value
  }

  const ULLONG_MAX := 0xFFFF_FFFF_FFFF_FFFF

  /** `strtoull(b + i, NULL, 10)`: white space of any kind, a sign, digits; saturating, and a minus sign wraps. */
  function Strtoull(b: seq<byte>, i: nat): (r: nat)
    ensures r <= ULLONG_MAX
  {
    var s := SkipSpace(b, i);
    var signed := At(b, s) == 43 || At(b, s) == 45;
    var value := Digits(b, if signed then s + 1 else s, 0);
    if value > ULLONG_MAX then ULLONG_MAX
    else if At(b, s) == 45 && value > 0 then ULLONG_MAX + 1 - value
    else value
  }

  function Lower(c: byte): byte {
    if 65 <= c <= 90 then c + 32 else c
  }

  /** `strncasecmp(b + i, word, |word|) == 0` for a word in lower case. */
  predicate SameIgnoringCase(b: seq<byte>, i: nat, word: seq<byte>) {
    i + |word| <= |b| && forall k | 0 <= k < |word| :: Lower(b[i + k]) == word[k]
  }

  // ---------------------------------------------------------------- how far they look

  ghost predicate Agree(b: seq<byte>, c: seq<byte>, from: nat, end: nat) {
    end <= |b| && end <= |c| && forall i | from <= i < end :: b[i] == c[i]
  }

  /** A match ends before the terminator. */
  lemma {:induction false} StrstrStaysInText(b: seq<byte>, from: nat, pattern: seq<byte>)
    requires 0 !in pattern && Strstr(b, from, pattern).Some?
    ensures var i := Strstr(b, from, pattern).value;
      from <= i && Matches(b, i, pattern) && forall k | from <= k < i + |pattern| :: b[k] != 0
    decreases |b| - from
  {
    if Matches(b, from, pattern) {
      forall k | from <= k < from + |pattern| ensures b[k] != 0 {
        assert b[k] == b[from..from + |pattern|][k - from] == pattern[k - from];
      }
    } else {
      StrstrStaysInText(b, from + 1, pattern);
    }
  }

  /** The first match depends only on the bytes up to its own end. */
  lemma {:induction false} StrstrIsLocal(b: seq<byte>, c: seq<byte>, from: nat, pattern: seq<byte>)
    requires 0 !in pattern && Strstr(b, from, pattern).Some?
    requires Agree(b, c, from, Strstr(b, from, pattern).value + |pattern|)
    ensures Strstr(c, from, pattern) == Strstr(b, from, pattern)
    decreases |b| - from
  {
    StrstrStaysInText(b, from, pattern);
    var i := Strstr(b, from, pattern).value;
    if Matches(b, from, pattern) {
      assert c[from..from + |pattern|] == b[from..from + |pattern|];
    } else {
      StrstrStaysInText(b, from + 1, pattern);
      assert b[from..from + |pattern|] == c[from..from + |pattern|];
      StrstrIsLocal(b, c, from + 1, pattern);
    }
  }

  /** The first match is the first. */
  lemma {:induction false} StrstrIsFirst(b: seq<byte>, from: nat, pattern: seq<byte>, i: nat)
    requires 0 !in pattern && from <= i && Matches(b, i, pattern) && forall k | from <= k < i :: b[k] != 0
    ensures Strstr(b, from, pattern).Some? && from <= Strstr(b, from, pattern).value <= i
    decreases i - from
  {
    if !Matches(b, from, pattern) {
      StrstrIsFirst(b, from + 1, pattern, i);
    }
  }

  lemma {:induction false} SkipSpaceIsLocal(b: seq<byte>, c: seq<byte>, from: nat, end: nat)
    requires Agree(b, c, from, end) && from <= end && exists k | from <= k < end :: !IsSpace(b[k])
    ensures SkipSpace(b, from) == SkipSpace(c, from) < end
    decreases end - from
  {
    if IsSpace(At(b, from)) {
      SkipSpaceIsLocal(b, c, from + 1, end);
    }
  }

  lemma {:induction false} DigitsAreLocal(b: seq<byte>, c: seq<byte>, from: nat, value: nat, end: nat)
    requires from <= end && Agree(b, c, from, end + 1) && !IsDigit(b[end])
    ensures Digits(b, from, value) == Digits(c, from, value)
    decreases end - from
  {
    if IsDigit(At(b, from)) {
      DigitsAreLocal(b, c, from + 1, value * 10 + (b[from] as int - 48), end);
    }
  }

  /** A value with a byte that is not white space before `end` is read without looking past `end`. */
  lemma StrtoullIsLocal(b: seq<byte>, c: seq<byte>, from: nat, end: nat)
    requires from <= end && Agree(b, c, from, end + 1)
    requires !IsDigit(b[end]) && exists k | from <= k < end :: !IsSpace(b[k])
    ensures Strtoull(b, from) == Strtoull(c, from)
  {
    SkipSpaceIsLocal(b, c, from, end);
    var s := SkipSpace(b, from);
    var signed := At(b, s) == 43 || At(b, s) == 45;
    DigitsAreLocal(b, c, if signed then s + 1 else s, 0, end);
  }

  lemma {:induction false} SkipSpaceStopsAtTerminator(b: seq<byte>, from: nat, end: nat)
    requires from <= end < |b| && b[end] == 0
    ensures SkipSpace(b[..end], from) == SkipSpace(b, from) <= end
    decreases end - from
  {
    if IsSpace(At(b, from)) {
      SkipSpaceStopsAtTerminator(b, from + 1, end);
    }
  }

  lemma {:induction false} DigitsStopAtTerminator(b: seq<byte>, from: nat, value: nat, end: nat)
    requires from <= end < |b| && b[end] == 0
    ensures Digits(b[..end], from, value) == Digits(b, from, value)
    decreases end - from
  {
    if IsDigit(At(b, from)) {
      DigitsStopAtTerminator(b, from + 1, value * 10 + (b[from] as int - 48), end);
    }
  }

  /** The terminator bounds what is read as a number. */
  lemma StrtoullStopsAtTerminator(b: seq<byte>, from: nat, end: nat)
    requires from <= end < |b| && b[end] == 0
    ensures Strtoull(b[..end], from) == Strtoull(b, from)
  {
    SkipSpaceStopsAtTerminator(b, from, end);
    var s := SkipSpace(b, from);
    var signed := At(b, s) == 43 || At(b, s) == 45;
    DigitsStopAtTerminator(b, if signed then s + 1 else s, 0, end);
  }
}
