/**
 The two pre-tokenizers. Both cut a text, well formed or not, into consecutive non-empty
 pieces; the merge loop never looks across a cut. The Unicode category tables are
 parameters, so nothing here depends on their contents.
 */
module PreTokenizer {
  import opened Bytes
  import Utf8

  const NEWLINE: byte := 0x0A
  const APOSTROPHE: byte := 0x27
  const SLASH: nat := 0x2F

  // ---------------------------------------------------------------- the octet scanner

  predicate WordByte(value: byte) {
    0x41 <= value <= 0x5A || 0x61 <= value <= 0x7A || 0x30 <= value <= 0x39 || value >= 128
  }

  predicate SymbolByte(value: byte) {
    !WordByte(value) && value != SPACE && value != NEWLINE
  }

  /** Where the run of octets that satisfy `keep`, from `position` on, ends. */
  function RunEnd(text: Text, position: nat, keep: byte -> bool): (end: nat)
    requires position <= |text|
    ensures position <= end <= |text|
    ensures forall i | position <= i < end :: keep(text[i])
    ensures end < |text| ==> !keep(text[end])
    decreases |text| - position
  {
    if position < |text| && keep(text[position]) then RunEnd(text, position + 1, keep) else position
  }

  /** Where the piece that starts at `start` ends. */
  function PlainEnd(text: Text, start: nat): (end: nat)
    requires start < |text|
    ensures start < end <= |text|
  {
    var first := text[start];
    if WordByte(first) || (first == SPACE && start + 1 < |text| && WordByte(text[start + 1])) then
      RunEnd(text, start + 1, WordByte)
    else if first == SPACE || first == NEWLINE then
      RunEnd(text, start + 1, octet => octet == first)
    else
      RunEnd(text, start + 1, SymbolByte)
  }

  /** text[from..end] consists of octets that satisfy `keep`, and no longer stretch does. */
  predicate IsStretch(text: Text, from: nat, end: nat, keep: byte -> bool) {
    && from <= end <= |text|
    && (forall i | from <= i < end :: keep(text[i]))
    && (end < |text| ==> !keep(text[end]))
  }

  /** A letter or digit, or an octet of a longer character. */
  predicate IsWordOctet(value: byte) {
    value >= 128 || 'a' <= value as char <= 'z' || 'A' <= value as char <= 'Z' || '0' <= value as char <= '9'
  }

  /**
   A piece is a word with at most one space in front, or equal spaces, or equal newlines, or
   octets that are none of these; and it is as long as possible.
   */
  ghost predicate IsPlainPiece(text: Text, start: nat, end: nat)
    requires start < |text|
  {
    var first := text[start];
    if IsWordOctet(first) || (first as char == ' ' && start + 1 < |text| && IsWordOctet(text[start + 1])) then
      start < end && IsStretch(text, start + 1, end, IsWordOctet)
    else if first as char == ' ' || first as char == '\n' then
      IsStretch(text, start, end, octet => octet == first)
    else
      IsStretch(text, start, end, (octet: byte) => !IsWordOctet(octet) && octet as char != ' ' && octet as char != '\n')
  }

  lemma PlainEndMeans(text: Text, start: nat, end: nat)
    requires start < |text|
    ensures end == PlainEnd(text, start) <==> IsPlainPiece(text, start, end)
  {
    hide RunEnd;
  }

  lemma RunEndStep(text: Text, position: nat, keep: byte -> bool)
    requires position <= |text|
    ensures RunEnd(text, position, keep)
      == if position < |text| && keep(text[position]) then RunEnd(text, position + 1, keep) else position
  {
  }

  /** The loop over the octets of a word. */
  method WordFinish(text: Text, start: nat) returns (finish: nat)
    requires start < |text|
    ensures start <= finish < |text| && finish + 1 == RunEnd(text, start + 1, WordByte)
  {
    hide RunEnd, WordByte;
    finish := start;
    RunEndStep(text, finish + 1, WordByte);
    while finish + 1 < |text|
      invariant start <= finish < |text|
      invariant RunEnd(text, finish + 1, WordByte) == RunEnd(text, start + 1, WordByte)
    {
      RunEndStep(text, finish + 1, WordByte);
      if !WordByte(text[finish + 1]) { return; }
      finish := finish + 1;
    }
    RunEndStep(text, finish + 1, WordByte);
  }

  /** The loop over equal spaces or newlines. */
  method SameFinish(text: Text, start: nat) returns (finish: nat)
    requires start < |text|
    ensures start <= finish < |text| && finish + 1 == RunEnd(text, start + 1, octet => octet == text[start])
  {
    hide RunEnd;
    ghost var first := text[start];
    ghost var keep := (octet: byte) => octet == first;
    finish := start;
    while finish + 1 < |text|
      invariant start <= finish < |text|
      invariant RunEnd(text, finish + 1, keep) == RunEnd(text, start + 1, keep)
    {
      RunEndStep(text, finish + 1, keep);
      if text[finish + 1] != text[start] { break; }
      finish := finish + 1;
    }
    RunEndStep(text, finish + 1, keep);
    SameRun(text, start + 1, keep, octet => octet == text[start]);
  }

  /** Two tests that agree run equally far. */
  lemma {:induction false} SameRun(text: Text, position: nat, one: byte -> bool, other: byte -> bool)
    requires position <= |text| && forall octet: byte :: one(octet) <==> other(octet)
    ensures RunEnd(text, position, one) == RunEnd(text, position, other)
    decreases |text| - position
  {
    if position < |text| && one(text[position]) { SameRun(text, position + 1, one, other); }
  }

  /** The loop over the remaining octets. */
  method SymbolFinish(text: Text, start: nat) returns (finish: nat)
    requires start < |text|
    ensures start <= finish < |text| && finish + 1 == RunEnd(text, start + 1, SymbolByte)
  {
    hide RunEnd, WordByte;
    finish := start;
    while finish + 1 < |text|
      invariant start <= finish < |text|
      invariant RunEnd(text, finish + 1, SymbolByte) == RunEnd(text, start + 1, SymbolByte)
    {
      RunEndStep(text, finish + 1, SymbolByte);
      if WordByte(text[finish + 1]) { return; }
      if text[finish + 1] == SPACE { return; }
      if text[finish + 1] == NEWLINE { return; }
      finish := finish + 1;
    }
    RunEndStep(text, finish + 1, SymbolByte);
  }

  /** A word behind one space ends where the run from the space on ends. */
  lemma SpacedWord(text: Text, start: nat)
    requires start + 1 < |text| && WordByte(text[start + 1])
    ensures RunEnd(text, start + 1, WordByte) == RunEnd(text, start + 2, WordByte)
  {
  }

  /** One piece of `encode_plain`: the class of its first octet selects the loop. */
  method PlainFinish(text: Text, start: nat) returns (end: nat)
    requires start < |text|
    ensures end == PlainEnd(text, start)
  {
    hide RunEnd, WordByte;
    var finish := start;
    if text[start] == SPACE {
      if start + 1 < |text| {
        if WordByte(text[start + 1]) {
          SpacedWord(text, start);
          finish := finish + 1;
        }
      }
    }
    SpaceIsNoWord();
    if WordByte(text[finish]) {
      finish := WordFinish(text, finish);
    } else if text[start] == SPACE || text[start] == NEWLINE {
      finish := SameFinish(text, start);
      SameRun(text, start + 1, octet => octet == text[start], octet => octet == text[start]);
    } else {
      finish := SymbolFinish(text, start);
    }
    end := finish + 1;
  }

  lemma SpaceIsNoWord()
    ensures !WordByte(SPACE) && !WordByte(NEWLINE)
  {
  }

  // ---------------------------------------------------------------- the code point scanner

  /** The category tables of the scanner. */
  datatype Tables = Tables(
    letter: nat -> bool,
    mark: nat -> bool,
    number: nat -> bool,
    whitespace: nat -> bool)
  {
    predicate Word(codepoint: nat) {
      !number(codepoint) && (letter(codepoint) || mark(codepoint))
    }

    predicate Symbol(codepoint: nat) {
      !whitespace(codepoint) && !Word(codepoint) && !number(codepoint)
    }

    predicate Blank(codepoint: nat) {
      whitespace(codepoint) && !Newline(codepoint)
    }

    predicate OptionalPrefix(codepoint: nat) {
      !Newline(codepoint) && !number(codepoint) && !Word(codepoint)
    }
  }

  predicate Newline(codepoint: nat) {
    codepoint == 10 || codepoint == 13
  }

  predicate NewlineOrSlash(codepoint: nat) {
    Newline(codepoint) || codepoint == SLASH
  }

  /** text[start..end] read as code points, all of which satisfy `keep`. */
  ghost predicate Run(text: Text, start: nat, end: nat, keep: nat -> bool)
    decreases |text| - start
  {
    start == end || (start < end <= |text| && keep(Utf8.Decode(text, start).codepoint)
                     && Run(text, start + Utf8.Decode(text, start).width, end, keep))
  }

  /** Where the run of code points that satisfy `keep`, from `position` on, ends. */
  function CodepointRunEnd(text: Text, position: nat, keep: nat -> bool): (end: nat)
    requires position <= |text|
    ensures position <= end <= |text| && Run(text, position, end, keep)
    ensures end < |text| ==> !keep(Utf8.Decode(text, end).codepoint)
    decreases |text| - position
  {
    if position < |text| && keep(Utf8.Decode(text, position).codepoint) then
      CodepointRunEnd(text, position + Utf8.Decode(text, position).width, keep)
    else position
  }

  function LowerAscii(value: byte): byte {
    if 0x41 <= value <= 0x5A then value + 32 else value
  }

  /** 2 for 's 't 'm 'd, 3 for 're 've 'll, in either case; otherwise 0. */
  function ContractionLength(text: Text, position: nat): (length: nat)
    ensures length == 0 || length == 2 || length == 3
    ensures length > 0 ==> position + length <= |text| && forall i | position <= i < position + length :: text[i] < 0x80
  {
    if position + 1 >= |text| || text[position] != APOSTROPHE then 0
    else
      var first := LowerAscii(text[position + 1]) as char;
      if first == 's' || first == 't' || first == 'm' || first == 'd' then 2
      else if position + 2 >= |text| then 0
      else
        var second := LowerAscii(text[position + 2]) as char;
        if (first == 'r' || first == 'v') && second == 'e' then 3
        else if first == 'l' && second == 'l' then 3
        else 0
  }

  /** What a piece is; `from` is where its run starts, behind an optional leading character. */
  datatype Kind =
    | Contraction(length: nat)
    | Number
    | Word(from: nat)
    | SpacedSymbols(from: nat)
    | Newlines
    | Blanks
    | Symbols

  function KindAt(tables: Tables, text: Text, position: nat): Kind
    requires position < |text|
  {
    var d := Utf8.Decode(text, position);
    var from := position + d.width;
    var prefixed := tables.OptionalPrefix(d.codepoint) && from < |text|;
    if ContractionLength(text, position) > 0 then Contraction(ContractionLength(text, position))
    else if tables.number(d.codepoint) then Number
    else if tables.Word(d.codepoint) then Word(from)
    else if prefixed && tables.Word(Utf8.Decode(text, from).codepoint) then Word(from)
    else if prefixed && d.codepoint == SPACE && tables.Symbol(Utf8.Decode(text, from).codepoint) then SpacedSymbols(from)
    else if tables.whitespace(d.codepoint) then if Newline(d.codepoint) then Newlines else Blanks
    else Symbols
  }

  /** The end of the character at `position` if it satisfies `accept`, otherwise `position`. */
  function SkipOne(text: Text, position: nat, accept: nat -> bool): (end: nat)
    requires position <= |text|
    ensures position <= end <= |text|
  {
    if position < |text| && accept(Utf8.Decode(text, position).codepoint) then
      position + Utf8.Decode(text, position).width
    else position
  }

  /** Where the piece that starts at `position` ends. */
  function QwenEnd(tables: Tables, text: Text, position: nat): (end: nat)
    requires position < |text|
    ensures position < end <= |text|
  {
    var d := Utf8.Decode(text, position);
    match KindAt(tables, text, position)
    case Contraction(length) => position + length
    case Number => position + d.width
    case Word(from) => CodepointRunEnd(text, from, tables.Word)
    case SpacedSymbols(from) => SkipOne(text, CodepointRunEnd(text, from, tables.Symbol), Newline)
    case Newlines => CodepointRunEnd(text, position + d.width, Newline)
    case Blanks =>
      var blank := CodepointRunEnd(text, position, tables.Blank);
      if blank < |text| && tables.whitespace(Utf8.Decode(text, blank).codepoint) then CodepointRunEnd(text, blank, Newline)
      else blank
    case Symbols =>
      SkipOne(text, CodepointRunEnd(text, position, tables.Symbol), NewlineOrSlash)
  }

  /** The loop that the scanner runs over each class of code points. */
  method ScanRun(text: Text, start: nat, keep: nat -> bool) returns (cursor: nat)
    requires start <= |text|
    ensures cursor == CodepointRunEnd(text, start, keep)
  {
    cursor := start;
    while cursor < |text|
      invariant start <= cursor <= |text|
      invariant CodepointRunEnd(text, cursor, keep) == CodepointRunEnd(text, start, keep)
    {
      var d := Utf8.Decode(text, cursor);
      if !keep(d.codepoint) { break; }
      cursor := cursor + d.width;
    }
  }

  /** The loop over blanks: it ends behind the first group of line ends it meets. */
  method ScanBlanks(tables: Tables, text: Text, position: nat) returns (end: nat)
    requires position < |text| && KindAt(tables, text, position) == Blanks
    ensures end == QwenEnd(tables, text, position)
  {
    hide Utf8.Decode, KindAt, QwenEnd, CodepointRunEnd, Newline;
    ghost var keep := tables.Blank;
    BlanksEnd(tables, text, position);
    var cursor := position;
    while cursor < |text|
      invariant position <= cursor <= |text|
      invariant CodepointRunEnd(text, cursor, keep) == CodepointRunEnd(text, position, keep)
    {
      var d := Utf8.Decode(text, cursor);
      RunStep(text, cursor, keep);
      RunStep(text, cursor, Newline);
      if !tables.whitespace(d.codepoint) { return cursor; }
      if Newline(d.codepoint) {
        cursor := ScanRun(text, cursor + d.width, Newline);
        return cursor;
      }
      cursor := cursor + d.width;
    }
    RunStep(text, cursor, keep);
    return cursor;
  }

  lemma RunStep(text: Text, position: nat, keep: nat -> bool)
    requires position <= |text|
    ensures CodepointRunEnd(text, position, keep)
      == if position < |text| && keep(Utf8.Decode(text, position).codepoint)
         then CodepointRunEnd(text, position + Utf8.Decode(text, position).width, keep) else position
  {
    hide Utf8.Decode;
  }

  lemma BlanksEnd(tables: Tables, text: Text, position: nat)
    requires position < |text| && KindAt(tables, text, position) == Blanks
    ensures
      var blank := CodepointRunEnd(text, position, tables.Blank);
      QwenEnd(tables, text, position)
        == if blank < |text| && tables.whitespace(Utf8.Decode(text, blank).codepoint) then CodepointRunEnd(text, blank, Newline)
           else blank
  {
    hide Utf8.Decode, KindAt, CodepointRunEnd;
  }

  /** The last branch of the scanner: a run of symbols, and one line end or slash behind it. */
  method ScanSymbols(tables: Tables, text: Text, position: nat) returns (finish: nat)
    requires position < |text| && KindAt(tables, text, position) == Symbols
    ensures finish == QwenEnd(tables, text, position)
  {
    var d := Utf8.Decode(text, position);
    var cursor := position;
    if d.codepoint == SPACE {
      cursor := position + d.width;
      if cursor < |text| {
        var next := Utf8.Decode(text, cursor).codepoint;
        if tables.whitespace(next) || tables.Word(next) || tables.number(next) { cursor := position; }
      }
    }
    finish := ScanRun(text, cursor, tables.Symbol);
    if finish < |text| {
      var next := Utf8.Decode(text, finish);
      if Newline(next.codepoint) || next.codepoint == SLASH { finish := finish + next.width; }
    }
  }

  /** Whether the character at `position` leads a word or, as a space, a run of symbols. */
  method Prefixes(tables: Tables, text: Text, position: nat) returns (prefixWord: bool, prefixPunctuation: bool)
    requires position < |text|
    ensures var d := Utf8.Decode(text, position);
            var prefixed := tables.OptionalPrefix(d.codepoint) && position + d.width < |text|;
            && prefixWord == (prefixed && tables.Word(Utf8.Decode(text, position + d.width).codepoint))
            && prefixPunctuation == (prefixed && d.codepoint == SPACE
                                     && tables.Symbol(Utf8.Decode(text, position + d.width).codepoint))
  {
    var d := Utf8.Decode(text, position);
    prefixWord, prefixPunctuation := false, false;
    if tables.OptionalPrefix(d.codepoint) {
      var cursor := position + d.width;
      if cursor < |text| {
        var next := Utf8.Decode(text, cursor).codepoint;
        if tables.Word(next) {
          prefixWord := true;
        } else if d.codepoint == SPACE && !tables.whitespace(next) && !tables.number(next) {
          prefixPunctuation := true;
        }
      }
    }
  }

  /** One turn of the loop of `encode_plain_qwen35`: it finds the end of the piece at `position`. */
  method QwenFinish(tables: Tables, text: Text, position: nat) returns (finish: nat)
    requires position < |text|
    ensures finish == QwenEnd(tables, text, position)
  {
    var d := Utf8.Decode(text, position);
    finish := position + d.width;
    ghost var kind := KindAt(tables, text, position);
    var prefixWord, prefixPunctuation := Prefixes(tables, text, position);
    var contraction := ContractionLength(text, position);
    if contraction > 0 {
      finish := position + contraction;
    } else if tables.number(d.codepoint) {
    } else if tables.Word(d.codepoint) {
      finish := ScanRun(text, finish, tables.Word);
    } else if prefixWord {
      assert kind == Word(finish);
      finish := finish + Utf8.Decode(text, finish).width;
      finish := ScanRun(text, finish, tables.Word);
    } else if prefixPunctuation {
      assert kind == SpacedSymbols(finish);
      finish := ScanRun(text, finish, tables.Symbol);
      if finish < |text| {
        var next := Utf8.Decode(text, finish);
        if Newline(next.codepoint) { finish := finish + next.width; }
      }
    } else if tables.whitespace(d.codepoint) {
      if Newline(d.codepoint) {
        finish := ScanRun(text, finish, Newline);
      } else {
        finish := ScanBlanks(tables, text, position);
      }
    } else {
      finish := ScanSymbols(tables, text, position);
    }
  }

  // ---------------------------------------------------------------- what a piece of the code point scanner is

  const CONTRACTIONS: seq<string> := ["s", "t", "m", "d", "re", "ve", "ll"]

  /** text[from..] begins with `letters`, in either case. */
  predicate BeginsWith(text: Text, from: nat, letters: string) {
    && from + |letters| <= |text|
    && forall k | 0 <= k < |letters| ::
         text[from + k] as int == letters[k] as int || text[from + k] as int + 0x20 == letters[k] as int
  }

  ghost predicate IsContraction(text: Text, start: nat, end: nat) {
    exists i | 0 <= i < |CONTRACTIONS| ::
      && end == start + 1 + |CONTRACTIONS[i]|
      && start < |text| && text[start] as char == '\''
      && BeginsWith(text, start + 1, CONTRACTIONS[i])
  }

  /** text[from..end] is the longest run of code points that satisfy `keep`. */
  ghost predicate IsRun(text: Text, from: nat, end: nat, keep: nat -> bool) {
    && from <= end <= |text|
    && Run(text, from, end, keep)
    && (end < |text| ==> !keep(Utf8.Decode(text, end).codepoint))
  }

  /** The longest run, and one more character if it satisfies `accept`. */
  ghost predicate IsRunAndOne(text: Text, from: nat, end: nat, keep: nat -> bool, accept: nat -> bool) {
    exists stop: nat ::
      && IsRun(text, from, stop, keep)
      && end == if stop < |text| && accept(Utf8.Decode(text, stop).codepoint)
                then stop + Utf8.Decode(text, stop).width else stop
  }

  /** The longest run of blanks, and the line ends behind it. */
  ghost predicate IsBlankRun(tables: Tables, text: Text, from: nat, end: nat) {
    exists stop: nat ::
      && IsRun(text, from, stop, tables.Blank)
      && if stop < |text| && tables.whitespace(Utf8.Decode(text, stop).codepoint) then IsRun(text, stop, end, Newline)
         else end == stop
  }

  /**
   A piece is, by the first of these that fits: a contraction; one digit; a word, with at most
   one leading character that is no digit or line end; a space and symbols, with at most one line
   end behind; line ends; blanks and the line ends behind them; symbols, with at most one line
   end or slash behind. Every run is as long as possible.
   */
  ghost predicate IsQwenPiece(tables: Tables, text: Text, start: nat, end: nat)
    requires start < |text|
  {
    var first, next := Utf8.Decode(text, start).codepoint, start + Utf8.Decode(text, start).width;
    var second := if next < |text| then Utf8.Decode(text, next).codepoint else first;
    if exists stop: nat :: IsContraction(text, start, stop) then IsContraction(text, start, end)
    else if tables.number(first) then end == next
    else if tables.Word(first) then IsRun(text, start, end, tables.Word)
    else if !Newline(first) && next < |text| && tables.Word(second) then IsRun(text, next, end, tables.Word)
    else if first == SPACE && next < |text| && tables.Symbol(second) then IsRunAndOne(text, next, end, tables.Symbol, Newline)
    else if tables.whitespace(first) && Newline(first) then IsRun(text, start, end, Newline)
    else if tables.whitespace(first) then IsBlankRun(tables, text, start, end)
    else IsRunAndOne(text, start, end, tables.Symbol, NewlineOrSlash)
  }

  /** There is one longest run, the one that the scanner finds. */
  lemma {:induction false} RunIsUnique(text: Text, from: nat, end: nat, keep: nat -> bool)
    requires from <= |text|
    ensures IsRun(text, from, end, keep) <==> end == CodepointRunEnd(text, from, keep)
    decreases |text| - from
  {
    hide Utf8.Decode;
    RunStep(text, from, keep);
    if from < |text| && keep(Utf8.Decode(text, from).codepoint) {
      var next := from + Utf8.Decode(text, from).width;
      RunIsUnique(text, next, end, keep);
      assert from < end <= |text| ==> (Run(text, from, end, keep) <==> Run(text, next, end, keep));
    } else if from < end <= |text| {
      assert !Run(text, from, end, keep);
    }
  }

  lemma RunAndOneIsUnique(text: Text, from: nat, end: nat, keep: nat -> bool, accept: nat -> bool)
    requires from <= |text|
    ensures IsRunAndOne(text, from, end, keep, accept) <==> end == SkipOne(text, CodepointRunEnd(text, from, keep), accept)
  {
    hide IsRun, CodepointRunEnd, Utf8.Decode;
    forall stop: nat
      ensures IsRun(text, from, stop, keep) <==> stop == CodepointRunEnd(text, from, keep)
    {
      RunIsUnique(text, from, stop, keep);
    }
  }

  lemma BlankRunIsUnique(tables: Tables, text: Text, from: nat, end: nat)
    requires from <= |text|
    ensures
      var blank := CodepointRunEnd(text, from, tables.Blank);
      var behind := blank < |text| && tables.whitespace(Utf8.Decode(text, blank).codepoint);
      IsBlankRun(tables, text, from, end) <==> end == if behind then CodepointRunEnd(text, blank, Newline) else blank
  {
    hide IsRun, CodepointRunEnd, Utf8.Decode, Newline;
    forall stop: nat
      ensures IsRun(text, from, stop, tables.Blank) <==> stop == CodepointRunEnd(text, from, tables.Blank)
    {
      RunIsUnique(text, from, stop, tables.Blank);
    }
    RunIsUnique(text, CodepointRunEnd(text, from, tables.Blank), end, Newline);
  }

  /** Equal up to case. */
  lemma LetterMeans(octet: byte, letter: char)
    requires 'a' <= letter <= 'z'
    ensures (octet as int == letter as int || octet as int + 0x20 == letter as int) <==> LowerAscii(octet) as char == letter
  {
  }

  lemma BeginsWithOne(text: Text, from: nat, letters: string)
    requires |letters| == 1 && 'a' <= letters[0] <= 'z'
    ensures BeginsWith(text, from, letters) <==> from < |text| && LowerAscii(text[from]) as char == letters[0]
  {
    if from < |text| {
      LetterMeans(text[from], letters[0]);
      assert text[from] == text[from + 0];
    }
  }

  lemma BeginsWithTwo(text: Text, from: nat, letters: string)
    requires |letters| == 2 && 'a' <= letters[0] <= 'z' && 'a' <= letters[1] <= 'z'
    ensures BeginsWith(text, from, letters)
      <==> from + 1 < |text| && LowerAscii(text[from]) as char == letters[0] && LowerAscii(text[from + 1]) as char == letters[1]
  {
    if from + 1 < |text| {
      LetterMeans(text[from], letters[0]);
      LetterMeans(text[from + 1], letters[1]);
      assert text[from] == text[from + 0];
    }
  }

  lemma ContractionMeans(text: Text, start: nat, end: nat)
    requires start < |text|
    ensures IsContraction(text, start, end) <==> ContractionLength(text, start) > 0 && end == start + ContractionLength(text, start)
  {
    hide BeginsWith, LowerAscii;
    var from := start + 1;
    BeginsWithOne(text, from, CONTRACTIONS[0]);
    BeginsWithOne(text, from, CONTRACTIONS[1]);
    BeginsWithOne(text, from, CONTRACTIONS[2]);
    BeginsWithOne(text, from, CONTRACTIONS[3]);
    BeginsWithTwo(text, from, CONTRACTIONS[4]);
    BeginsWithTwo(text, from, CONTRACTIONS[5]);
    BeginsWithTwo(text, from, CONTRACTIONS[6]);
  }

  lemma NoContraction(text: Text, start: nat)
    requires start < |text|
    ensures (exists stop: nat :: IsContraction(text, start, stop)) <==> ContractionLength(text, start) > 0
  {
    hide IsContraction, ContractionLength;
    ContractionMeans(text, start, start + ContractionLength(text, start));
    if stop: nat :| IsContraction(text, start, stop) {
      ContractionMeans(text, start, stop);
    }
  }

  /** The scanner cuts exactly such pieces. */
  lemma QwenEndMeans(tables: Tables, text: Text, start: nat, end: nat)
    requires start < |text|
    ensures end == QwenEnd(tables, text, start) <==> IsQwenPiece(tables, text, start, end)
  {
    hide IsContraction, IsRun, IsRunAndOne, IsBlankRun, CodepointRunEnd, ContractionLength, SkipOne, Utf8.Decode;
    var next := start + Utf8.Decode(text, start).width;
    NoContraction(text, start);
    ContractionMeans(text, start, end);
    RunIsUnique(text, start, end, tables.Word);
    RunIsUnique(text, next, end, tables.Word);
    RunIsUnique(text, start, end, Newline);
    RunStep(text, start, tables.Word);
    RunStep(text, start, Newline);
    RunAndOneIsUnique(text, next, end, tables.Symbol, Newline);
    RunAndOneIsUnique(text, start, end, tables.Symbol, NewlineOrSlash);
    BlankRunIsUnique(tables, text, start, end);
  }

  // ---------------------------------------------------------------- pieces

  datatype Scanner = Plain | Qwen(tables: Tables)

  function PieceEnd(scanner: Scanner, text: Text, start: nat): (end: nat)
    requires start < |text|
    ensures start < end <= |text|
  {
    match scanner
    case Plain => PlainEnd(text, start)
    case Qwen(tables) => QwenEnd(tables, text, start)
  }

  /** The pieces of text[start..]. */
  function Pieces(scanner: Scanner, text: Text, start: nat): seq<Text>
    requires start <= |text|
    decreases |text| - start
  {
    if start == |text| then []
    else
      var end := PieceEnd(scanner, text, start);
      [text[start..end]] + Pieces(scanner, text, end)
  }

  /** Scanning partitions every text, malformed or not, into non-empty pieces. */
  lemma {:induction false} PiecesPartition(scanner: Scanner, text: Text, start: nat)
    requires start <= |text|
    ensures Flatten(Pieces(scanner, text, start)) == text[start..]
    ensures forall piece <- Pieces(scanner, text, start) :: piece != []
    decreases |text| - start
  {
    if start < |text| {
      var end := PieceEnd(scanner, text, start);
      PiecesPartition(scanner, text, end);
      assert Pieces(scanner, text, start)[1..] == Pieces(scanner, text, end);
      assert text[start..] == text[start..end] + text[end..];
    }
  }

  // ---------------------------------------------------------------- characters stay whole

  /** In a well-formed text every place next to an ASCII octet is a character boundary. */
  lemma {:induction false} AsciiBoundary(text: Text, start: nat, end: nat)
    requires start <= end <= |text| && Utf8.Aligned(text, start)
    requires end == |text| || text[end] < 0x80 || (end > start && text[end - 1] < 0x80)
    ensures Utf8.Aligned(text, end)
    decreases end - start
  {
    var next := start + Utf8.ValidWidth(text, start);
    if start < end && next != end {
      AsciiBoundary(text, next, end);
    }
  }

  lemma PlainKeepsAligned(text: Text, start: nat)
    requires start < |text| && Utf8.Aligned(text, start)
    ensures Utf8.Aligned(text, PlainEnd(text, start))
  {
    AsciiBoundary(text, start, PlainEnd(text, start));
  }

  lemma {:induction false} RunKeepsAligned(text: Text, position: nat, keep: nat -> bool)
    requires position <= |text| && Utf8.Aligned(text, position)
    ensures Utf8.Aligned(text, CodepointRunEnd(text, position, keep))
    decreases |text| - position
  {
    if position < |text| && keep(Utf8.Decode(text, position).codepoint) {
      Utf8.AlignedWidth(text, position);
      RunKeepsAligned(text, position + Utf8.Decode(text, position).width, keep);
    }
  }

  lemma SkipKeepsAligned(text: Text, position: nat, accept: nat -> bool)
    requires position <= |text| && Utf8.Aligned(text, position)
    ensures Utf8.Aligned(text, SkipOne(text, position, accept))
  {
    if position < |text| {
      Utf8.AlignedWidth(text, position);
    }
  }

  lemma QwenKeepsAligned(tables: Tables, text: Text, position: nat)
    requires position < |text| && Utf8.Aligned(text, position)
    ensures Utf8.Aligned(text, QwenEnd(tables, text, position))
  {
    Utf8.AlignedWidth(text, position);
    var next := position + Utf8.Decode(text, position).width;
    match KindAt(tables, text, position)
    case Contraction(length) =>
      AsciiBoundary(text, position, position + length);
    case Number =>
    case Word(from) =>
      RunKeepsAligned(text, from, tables.Word);
    case SpacedSymbols(from) =>
      RunKeepsAligned(text, from, tables.Symbol);
      SkipKeepsAligned(text, CodepointRunEnd(text, from, tables.Symbol), Newline);
    case Newlines =>
      RunKeepsAligned(text, next, Newline);
    case Blanks =>
      RunKeepsAligned(text, position, tables.Blank);
      RunKeepsAligned(text, CodepointRunEnd(text, position, tables.Blank), Newline);
    case Symbols =>
      RunKeepsAligned(text, position, tables.Symbol);
      SkipKeepsAligned(text, CodepointRunEnd(text, position, tables.Symbol), NewlineOrSlash);
  }

  /** No scanner cuts through a character: the pieces of a well-formed text are well formed. */
  lemma {:induction false} PiecesAreWellFormed(scanner: Scanner, text: Text, start: nat)
    requires start <= |text| && Utf8.Aligned(text, start)
    ensures forall piece <- Pieces(scanner, text, start) :: Utf8.WellFormed(piece)
    decreases |text| - start
  {
    if start < |text| {
      var end := PieceEnd(scanner, text, start);
      if scanner.Plain? {
        PlainKeepsAligned(text, start);
      } else {
        QwenKeepsAligned(scanner.tables, text, start);
      }
      var codepoints := Utf8.AlignedPiece(text, start, end);
      PiecesAreWellFormed(scanner, text, end);
    }
  }
}
