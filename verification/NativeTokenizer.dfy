/** The tokenizer object: its buffers, its loops, and what they compute. */
module NativeTokenizer {
  import opened Bytes
  import opened ByteAlphabet
  import opened Bpe
  import opened PackedTexts
  import opened PreTokenizer
  import opened Tokenizer
  import opened SpecialTokens
  import Utf8

  /** What is left of `ids` in a buffer of `capacity` entries that drops what does not fit. */
  function Clip(ids: seq<int>, capacity: nat): seq<int> {
    if |ids| <= capacity then ids else ids[..capacity]
  }

  lemma Carry<T>(done: seq<T>, next: seq<T>, rest: seq<T>)
    ensures done + (next + rest) == (done + next) + rest
  {
  }

  lemma ClipShort(ids: seq<int>, capacity: nat)
    requires |ids| <= capacity
    ensures Clip(ids, capacity) == ids
  {
  }

  lemma ClipAppend(a: seq<int>, b: seq<int>, capacity: nat)
    ensures Clip(Clip(a, capacity) + b, capacity) == Clip(a + b, capacity)
  {
  }

  // ---------------------------------------------------------------- the symbol buffer

  /** `append_symbol`: the buffer starts with 16 places and doubles when it is full. */
  method AppendSymbol(symbols: array<Text>, count: nat, value: Text) returns (grown: array<Text>)
    requires count <= symbols.Length
    modifies symbols
    ensures grown == symbols || fresh(grown)
    ensures count < grown.Length
    ensures grown[..count + 1] == old(symbols[..count]) + [value]
  {
    grown := symbols;
    if count == symbols.Length {
      var capacity := if 2 * symbols.Length > 16 then 2 * symbols.Length else 16;
      grown := new Text[capacity](_ => []);
      for i := 0 to count
        invariant grown[..i] == symbols[..i]
        invariant symbols[..] == old(symbols[..])
      {
        grown[i] := symbols[i];
      }
    }
    grown[count] := value;
    assert grown[..count + 1] == grown[..count] + [value];
  }

  /** The first loop of `encode_piece`: one symbol per octet. */
  method SpellPiece(raw: Text) returns (symbols: array<Text>)
    ensures fresh(symbols) && |raw| <= symbols.Length
    ensures symbols[..|raw|] == InitialSymbols(raw)
  {
    symbols := new Text[0](_ => []);
    var n := 0;
    while n < |raw|
      invariant n <= |raw| && fresh(symbols) && n <= symbols.Length
      invariant symbols[..n] == InitialSymbols(raw)[..n]
    {
      assert Spell([raw[n]]) == ByteSymbol(raw[n]) + Spell([raw[n]][1..]);
      assert InitialSymbols(raw)[n] == ByteSymbol(raw[n]);
      assert InitialSymbols(raw)[..n + 1] == InitialSymbols(raw)[..n] + [InitialSymbols(raw)[n]];
      symbols := AppendSymbol(symbols, n, Utf8.Encode(ByteUnicode(raw[n])));
      n := n + 1;
    }
    assert InitialSymbols(raw)[..n] == InitialSymbols(raw);
  }

  /** The two symbols at `best` are joined and the later ones move up by one place. */
  method MergeAt(symbols: array<Text>, n: nat, best: nat)
    requires n <= symbols.Length && best + 1 < n
    modifies symbols
    ensures symbols[..n - 1] == Merge(old(symbols[..n]), best)
  {
    ghost var before := symbols[..n];
    ghost var merged := Merge(before, best);
    forall j | 0 <= j < n - 1
      ensures merged[j] == if j < best then before[j] else if j == best then before[j] + before[j + 1] else before[j + 1]
    {
      MergeAtIndex(before, best);
    }
    hide Merge;
    symbols[best] := symbols[best] + symbols[best + 1];
    for i := best + 1 to n - 1
      invariant forall j | 0 <= j < i :: symbols[j] == merged[j]
      invariant forall j | i <= j < n :: symbols[j] == before[j]
    {
      symbols[i] := symbols[i + 1];
    }
  }

  class NativeTokenizer {
    const vocabulary: Packed
    const mergeLeft: Packed
    const mergeRight: Packed
    const scanner: Scanner
    const bosToken: int
    const addBosToken: bool
    ghost const Repr: set<object>

    ghost predicate Valid()
      reads this, Repr
    {
      && vocabulary in Repr && mergeLeft in Repr && mergeRight in Repr
      && vocabulary.Repr <= Repr && mergeLeft.Repr <= Repr && mergeRight.Repr <= Repr
      && vocabulary.Valid() && mergeLeft.Valid() && mergeRight.Valid()
      && mergeLeft.length.Length == mergeRight.length.Length
    }

    ghost function View(): Model
      requires Valid()
      reads this, Repr
    {
      Model(vocabulary.Texts(), Zip(mergeLeft.Texts(), mergeRight.Texts()), scanner, bosToken, addBosToken)
    }

    constructor (vocabulary: Packed, mergeLeft: Packed, mergeRight: Packed, scanner: Scanner, bosToken: int, addBosToken: bool)
      requires vocabulary.Valid() && mergeLeft.Valid() && mergeRight.Valid()
      requires mergeLeft.length.Length == mergeRight.length.Length
      ensures Valid()
      ensures View() == Model(vocabulary.Texts(), Zip(mergeLeft.Texts(), mergeRight.Texts()), scanner, bosToken, addBosToken)
      ensures Repr == {this, vocabulary, mergeLeft, mergeRight} + vocabulary.Repr + mergeLeft.Repr + mergeRight.Repr
    {
      this.vocabulary := vocabulary;
      this.mergeLeft := mergeLeft;
      this.mergeRight := mergeRight;
      this.scanner := scanner;
      this.bosToken := bosToken;
      this.addBosToken := addBosToken;
      Repr := {this, vocabulary, mergeLeft, mergeRight} + vocabulary.Repr + mergeLeft.Repr + mergeRight.Repr;
    }

    method LookupMerge(left: Text, right: Text) returns (rank: nat)
      requires Valid()
      ensures rank == Rank(View().rules, left, right)
    {
      rank := FindRule(mergeLeft, mergeRight, left, right);
    }

    /** The id of a symbol, with "<unk>" as the fallback. */
    method LookupSymbol(symbol: Text) returns (id: int)
      requires Valid()
      ensures id == SymbolId(View().tokens, symbol)
    {
      id := vocabulary.Find(symbol);
      if id < 0 { id := vocabulary.Find(UNKNOWN); }
    }

    /** The scan over all pairs: 0 if no pair has a rule, else the place of the best pair, counted from 1. */
    method FindBest(symbols: array<Text>, n: nat) returns (best: nat)
      requires Valid() && n <= symbols.Length
      ensures best == 0 ==> NoRuleApplies(View().rules, symbols[..n])
      ensures best > 0 ==> IsBest(View().rules, symbols[..n], best - 1)
    {
      hide Valid, View, Rank;
      best := 0;
      var rank := HUGE;
      ghost var rules, list := View().rules, symbols[..n];
      var i := 0;
      while i + 1 < n
        invariant 0 <= i && best <= i && (i == 0 || i < n)
        invariant best == 0 ==> rank == HUGE
        invariant best > 0 ==> rank < HUGE && PairRank(rules, list, best - 1) == rank
        invariant forall j: nat | j < i :: rank <= PairRank(rules, list, j)
        invariant forall j: nat | j + 1 < best :: rank < PairRank(rules, list, j)
      {
        var candidate := LookupMerge(symbols[i], symbols[i + 1]);
        assert candidate == PairRank(rules, list, i);
        if candidate < rank {
          rank := candidate;
          best := i + 1;
        }
        i := i + 1;
      }
    }

    /** The merge loop of `encode_piece`. */
    method MergeAll(symbols: array<Text>, count: nat) returns (n: nat)
      requires Valid() && count <= symbols.Length && symbols !in Repr
      modifies symbols
      ensures n <= count
      ensures symbols[..n] == MergeFully(View().rules, old(symbols[..count]))
    {
      hide Valid, View, MergeFully, IsBest, NoRuleApplies;
      n := count;
      while n > 1
        invariant n <= count && Valid() && View() == old(View())
        invariant MergeFully(View().rules, symbols[..n]) == MergeFully(View().rules, old(symbols[..count]))
      {
        var best := FindBest(symbols, n);
        if best == 0 {
          MergeFullyDone(View().rules, symbols[..n]);
          return;
        }
        BestInRange(View().rules, symbols[..n], best - 1);
        MergeFullyStep(View().rules, symbols[..n], best - 1);
        MergeAt(symbols, n, best - 1);
        n := n - 1;
      }
      MergeFullyShort(View().rules, symbols[..n]);
    }

    /** An id goes into the buffer if there is room. */
    static method Emit(id: int, output: array<int>, count: nat, capacity: nat) returns (newCount: nat)
      requires count <= capacity <= output.Length
      modifies output
      ensures newCount <= capacity
      ensures output[..newCount] == Clip(old(output[..count]) + [id], capacity)
    {
      newCount := count;
      if count < capacity {
        newCount := count + 1;
        output[newCount - 1] := id;
        assert output[..newCount] == old(output[..count]) + [id];
      }
    }

    /** The last loop of `encode_piece`: symbols become ids, as long as there is room. */
    method EmitIds(symbols: seq<Text>, output: array<int>, count: nat, capacity: nat) returns (newCount: nat)
      requires Valid() && output !in Repr
      requires count <= capacity <= output.Length
      modifies output
      ensures newCount <= capacity
      ensures output[..newCount] == Clip(old(output[..count]) + SymbolIds(View().tokens, symbols), capacity)
    {
      hide Valid, View, SymbolId, Clip;
      newCount := count;
      ghost var tokens, done := View().tokens, old(output[..count]);
      ghost var all := done + SymbolIds(tokens, symbols);
      ClipShort(done, capacity);
      for i := 0 to |symbols|
        invariant newCount <= capacity && Valid() && View() == old(View())
        invariant done + SymbolIds(tokens, symbols[i..]) == all
        invariant output[..newCount] == Clip(done, capacity)
      {
        assert symbols[i..][1..] == symbols[i + 1..];
        var id := LookupSymbol(symbols[i]);
        if id >= 0 {
          newCount := Emit(id, output, newCount, capacity);
          ClipAppend(done, [id], capacity);
          done := done + [id];
        }
      }
      assert done == all;
    }

    method EncodePiece(raw: Text, output: array<int>, count: nat, capacity: nat) returns (newCount: nat)
      requires Valid() && output !in Repr && count <= capacity <= output.Length
      modifies output
      ensures newCount <= capacity
      ensures output[..newCount] == Clip(old(output[..count]) + PieceIds(View(), raw), capacity)
      ensures exists chain ::
        && IsMergeChain(View().rules, chain, raw)
        && output[..newCount] == Clip(old(output[..count]) + SymbolIds(View().tokens, chain[|chain| - 1]), capacity)
    {
      hide Valid, View, Clip, MergeFully, InitialSymbols, SymbolIds;
      var symbols := SpellPiece(raw);
      var n := MergeAll(symbols, |raw|);
      newCount := EmitIds(symbols[..n], output, count, capacity);
      ghost var chain := MergeChainOf(View().rules, raw);
    }

    method PieceFinish(text: Text, start: nat) returns (finish: nat)
      requires start < |text|
      ensures finish == PieceEnd(scanner, text, start)
    {
      match scanner
      case Plain => finish := PlainFinish(text, start);
      case Qwen(tables) => finish := QwenFinish(tables, text, start);
    }

    /** One turn of the loop of `encode_plain`: cut one piece and encode it. */
    method EncodeNext(text: Text, start: nat, output: array<int>, count: nat, capacity: nat) returns (finish: nat, newCount: nat)
      requires Valid() && output !in Repr && count <= capacity <= output.Length && start < |text|
      modifies output
      ensures start < finish <= |text| && finish == PieceEnd(scanner, text, start)
      ensures newCount <= capacity
      ensures output[..newCount] == Clip(old(output[..count]) + PieceIds(View(), text[start..finish]), capacity)
    {
      hide Valid, View, PieceIds, Clip, PieceEnd;
      finish := PieceFinish(text, start);
      newCount := EncodePiece(text[start..finish], output, count, capacity);
    }

    /** `encode_plain`, with the scanner that the tokenizer was opened with. */
    method EncodePlain(text: Text, output: array<int>, count: nat, capacity: nat) returns (newCount: nat)
      requires Valid() && output !in Repr && count <= capacity <= output.Length
      modifies output
      ensures newCount <= capacity
      ensures output[..newCount] == Clip(old(output[..count]) + PlainIds(View(), text), capacity)
    {
      assert View().scanner == scanner;
      hide Valid, View, PieceIds, Clip, PieceEnd, PiecesIds, Pieces;
      newCount := count;
      var start := 0;
      ghost var model, done := View(), old(output[..count]);
      ghost var all := done + PlainIds(model, text);
      ClipShort(done, capacity);
      while start < |text|
        invariant 0 <= start <= |text| && newCount <= capacity && Valid() && View() == model
        invariant done + PiecesIds(model, Pieces(scanner, text, start)) == all
        invariant output[..newCount] == Clip(done, capacity)
      {
        PiecesIdsStep(model, text, start);
        ghost var from := start;
        start, newCount := EncodeNext(text, start, output, newCount, capacity);
        ghost var ids := PieceIds(model, text[from..start]);
        Carry(done, ids, PiecesIds(model, Pieces(scanner, text, start)));
        ClipAppend(done, ids, capacity);
        done := done + ids;
      }
      PiecesIdsDone(model, text);
      assert done == all;
    }

    /** One segment: a known special token is one id, anything else is plain text. */
    method EncodeSegment(segment: Segment, output: array<int>, count: nat, capacity: nat) returns (newCount: nat)
      requires Valid() && output !in Repr && count <= capacity <= output.Length
      modifies output
      ensures newCount <= capacity
      ensures output[..newCount] == Clip(old(output[..count]) + SegmentIds(View(), segment), capacity)
    {
      hide Clip, PlainIds;
      if segment.Special? {
        var id := vocabulary.Find(segment.text);
        if id >= 0 {
          newCount := Emit(id, output, count, capacity);
          return;
        }
      }
      newCount := EncodePlain(segment.text, output, count, capacity);
    }

    /** The segments of one turn of the splitter, one or two of them. */
    method EncodeSegments(segments: seq<Segment>, output: array<int>, count: nat, capacity: nat) returns (newCount: nat)
      requires Valid() && output !in Repr && count <= capacity <= output.Length
      modifies output
      ensures newCount <= capacity
      ensures output[..newCount] == Clip(old(output[..count]) + SegmentsIds(View(), segments), capacity)
    {
      hide Valid, View, SegmentIds, Clip;
      newCount := count;
      ghost var model, done := View(), old(output[..count]);
      ghost var all := done + SegmentsIds(model, segments);
      ClipShort(done, capacity);
      for i := 0 to |segments|
        invariant newCount <= capacity && Valid() && View() == model
        invariant done + SegmentsIds(model, segments[i..]) == all
        invariant output[..newCount] == Clip(done, capacity)
      {
        newCount := EncodeSegment(segments[i], output, newCount, capacity);
        ghost var ids, rest := SegmentIds(model, segments[i]), SegmentsIds(model, segments[i + 1..]);
        assert segments[i..][1..] == segments[i + 1..];
        Carry(done, ids, rest);
        ClipAppend(done, ids, capacity);
        done := done + ids;
      }
      assert done == all;
    }

    /** The splitting loop of `encode`. */
    method EncodeSpecials(text: Text, output: array<int>, count: nat, capacity: nat) returns (newCount: nat)
      requires Valid() && output !in Repr && count <= capacity <= output.Length
      modifies output
      ensures newCount <= capacity
      ensures output[..newCount] == Clip(old(output[..count]) + SegmentsIds(View(), Segments(text)), capacity)
    {
      hide Valid, View, SegmentsIds, Clip, CutAt, NextMarker;
      newCount := count;
      var start := 0;
      ghost var model, done := View(), old(output[..count]);
      ghost var all := done + SegmentsIds(model, Segments(text));
      ClipShort(done, capacity);
      assert text[0..] == text;
      while start < |text|
        invariant 0 <= start <= |text| && newCount <= capacity && Valid() && View() == model
        invariant done + SegmentsIds(model, Segments(text[start..])) == all
        invariant output[..newCount] == Clip(done, capacity)
      {
        ghost var from := start;
        start, newCount := EncodeCut(text, start, output, newCount, capacity);
        ghost var cut := FirstCut(text[from..]).segments;
        ghost var ids := SegmentsIds(model, cut);
        assert text[from..][start - from..] == text[start..];
        SegmentsIdsAppend(model, cut, Segments(text[start..]));
        Carry(done, ids, SegmentsIds(model, Segments(text[start..])));
        ClipAppend(done, ids, capacity);
        done := done + ids;
      }
      SegmentsIdsDone(model, text);
      assert done == all;
    }

    /** One turn of the splitting loop. */
    method EncodeCut(text: Text, start: nat, output: array<int>, count: nat, capacity: nat) returns (next: nat, newCount: nat)
      requires Valid() && output !in Repr && count <= capacity <= output.Length && start < |text|
      modifies output
      ensures start < next <= |text| && next == start + FirstCut(text[start..]).next
      ensures newCount <= capacity
      ensures output[..newCount] == Clip(old(output[..count]) + SegmentsIds(View(), FirstCut(text[start..]).segments), capacity)
    {
      hide Valid, View, SegmentsIds, Clip, CutAt, Earliest;
      var rest := text[start..];
      MarkerInText(rest);
      var marker := FindMarker(rest, INLINE_MARKERS);
      var cut := CutAt(rest, marker);
      newCount := EncodeSegments(cut.segments, output, count, capacity);
      next := start + cut.next;
    }

    /**
     `encode`: the ids of a text. Without `addSpecial` the policy of the model decides about
     the leading token. The work array never runs full, so no id is dropped.
     */
    method Encode(text: Text, addSpecial: Option<bool>, parseSpecial: Option<bool>) returns (ids: array<int>)
      requires Valid()
      ensures ids[..] == TextIds(View(), text, addSpecial.Or(addBosToken), parseSpecial.Or(true))
    {
      hide Valid, View, PlainIds, SegmentsIds, Segments, Clip;
      var capacity := if 4 * |text| + 8 > 32 then 4 * |text| + 8 else 32;
      var work := new int[capacity];
      var count := 0;
      var addSpecialValue := addSpecial.Or(addBosToken);
      var parseSpecialValue := parseSpecial.Or(true);
      if addSpecialValue && bosToken >= 0 {
        count := 1;
        work[count - 1] := bosToken;
      }
      ghost var leading := if addSpecialValue && bosToken >= 0 then [bosToken] else [];
      assert work[..count] == leading;
      ViewBos();
      ghost var expected := TextIds(View(), text, addSpecialValue, parseSpecialValue);
      assert expected == leading + if parseSpecialValue then SegmentsIds(View(), Segments(text)) else PlainIds(View(), text);
      TextIdsFit(View(), text, addSpecialValue, parseSpecialValue);
      ClipShort(expected, capacity);
      hide TextIds;
      if !parseSpecialValue {
        count := EncodePlain(text, work, count, capacity);
      } else {
        count := EncodeSpecials(text, work, count, capacity);
      }
      assert work[..count] == expected;
      ids := FirstOf(work, count);
    }

    /** `ids = work(:count)` */
    static method FirstOf(work: array<int>, count: nat) returns (ids: array<int>)
      requires count <= work.Length
      ensures fresh(ids) && ids[..] == work[..count]
    {
      ids := new int[count](i requires 0 <= i < work.Length reads work => work[i]);
    }

    // -------------------------------------------------------------- decoding

    /** The entry of an id; an id outside the vocabulary has none. */
    method EntryOf(id: int) returns (known: bool, piece: Text)
      requires Valid()
      ensures known == (0 <= id < |View().tokens|)
      ensures known ==> piece == View().tokens[id]
    {
      piece := [];
      known := 0 <= id < vocabulary.length.Length;
      if known {
        assert vocabulary.InPlace(id) && vocabulary.Texts()[id] == vocabulary.At(id);
        if vocabulary.length[id] != 0 {
          piece := vocabulary.blob[vocabulary.offset[id] - 1..vocabulary.offset[id] + vocabulary.length[id] - 1];
        }
      }
    }

    /** The sizing loop over one entry. */
    static method PieceLength(piece: Text) returns (total: nat)
      ensures total == |DecodePiece(piece, 0)|
    {
      total := 0;
      var j := 0;
      while j < |piece|
        invariant 0 <= j <= |piece|
        invariant total + |DecodePiece(piece, j)| == |DecodePiece(piece, 0)|
      {
        var d := Utf8.Decode(piece, j);
        DecodedWidthIsExact(d.codepoint);
        total := total + DecodedWidth(d.codepoint);
        j := j + d.width;
      }
    }

    /** The first pass of `decode`: how many octets the ids stand for. */
    method RawLength(ids: seq<int>) returns (total: nat)
      requires Valid()
      ensures total == |RawBytes(View().tokens, ids)|
    {
      hide Valid, View, DecodePiece;
      total := 0;
      ghost var tokens := View().tokens;
      for i := 0 to |ids|
        invariant total + |RawBytes(tokens, ids[i..])| == |RawBytes(tokens, ids)|
      {
        assert ids[i..][1..] == ids[i + 1..];
        var known, piece := EntryOf(ids[i]);
        if !known { continue; }
        var length := PieceLength(piece);
        total := total + length;
      }
    }

    /** Writes one code point of an entry behind raw[..at]. */
    static method WriteCodepoint(codepoint: nat, raw: array<byte>, at: nat) returns (next: nat)
      requires codepoint < Utf8.CODEPOINT_LIMIT && at + |CodepointBytes(codepoint)| <= raw.Length
      modifies raw
      ensures next == at + |CodepointBytes(codepoint)|
      ensures raw[..next] == old(raw[..at]) + CodepointBytes(codepoint)
    {
      hide Utf8.Encode;
      if 256 <= codepoint < 512 {
        WriteOctet(raw, at, UnicodeByte(codepoint) % 256);
        next := at + 1;
      } else if codepoint <= 255 {
        WriteOctet(raw, at, codepoint);
        next := at + 1;
      } else {
        next := WriteOctets(raw, at, Utf8.Encode(codepoint));
      }
    }

    static method WriteOctet(raw: array<byte>, at: nat, octet: byte)
      requires at < raw.Length
      modifies raw
      ensures raw[..at + 1] == old(raw[..at]) + [octet]
    {
      raw[at] := octet;
    }

    static method WriteOctets(raw: array<byte>, at: nat, octets: Text) returns (next: nat)
      requires at + |octets| <= raw.Length
      modifies raw
      ensures next == at + |octets|
      ensures raw[..next] == old(raw[..at]) + octets
    {
      next := at;
      for k := 0 to |octets|
        invariant next == at + k && raw[..next] == old(raw[..at]) + octets[..k]
      {
        ghost var done := raw[..next];
        WriteOctet(raw, next, octets[k]);
        next := next + 1;
        assert octets[..k + 1] == octets[..k] + [octets[k]];
        assert done + [octets[k]] == old(raw[..at]) + octets[..k + 1];
      }
      assert octets[..|octets|] == octets;
    }

    /** The writing loop over one entry. */
    static method WritePiece(piece: Text, raw: array<byte>, at: nat) returns (next: nat)
      requires at + |DecodePiece(piece, 0)| <= raw.Length
      modifies raw
      ensures next == at + |DecodePiece(piece, 0)|
      ensures raw[..next] == old(raw[..at]) + DecodePiece(piece, 0)
    {
      hide CodepointBytes;
      next := at;
      var j := 0;
      while j < |piece|
        invariant 0 <= j <= |piece|
        invariant next + |DecodePiece(piece, j)| == at + |DecodePiece(piece, 0)|
        invariant raw[..next] + DecodePiece(piece, j) == old(raw[..at]) + DecodePiece(piece, 0)
      {
        var d := Utf8.Decode(piece, j);
        ghost var before, head, tail := raw[..next], CodepointBytes(d.codepoint), DecodePiece(piece, j + d.width);
        next := WriteCodepoint(d.codepoint, raw, next);
        Carry(before, head, tail);
        j := j + d.width;
      }
    }

    /** The second pass of `decode`: the octets themselves. */
    method WriteRaw(ids: seq<int>, raw: array<byte>) returns (total: nat)
      requires Valid() && raw !in Repr && raw.Length == |RawBytes(View().tokens, ids)|
      modifies raw
      ensures total == raw.Length && raw[..] == RawBytes(View().tokens, ids)
    {
      hide Valid, View, DecodePiece, TokenBytes;
      total := 0;
      ghost var tokens := View().tokens;
      for i := 0 to |ids|
        invariant Valid() && View().tokens == tokens
        invariant total + |RawBytes(tokens, ids[i..])| == raw.Length
        invariant raw[..total] + RawBytes(tokens, ids[i..]) == RawBytes(tokens, ids)
      {
        assert ids[i..][1..] == ids[i + 1..];
        var known, piece := EntryOf(ids[i]);
        TokenBytesOf(tokens, ids[i]);
        if !known { continue; }
        ghost var before, head, tail := raw[..total], DecodePiece(piece, 0), RawBytes(tokens, ids[i + 1..]);
        assert RawBytes(tokens, ids[i..]) == head + tail;
        total := WritePiece(piece, raw, total);
        Carry(before, head, tail);
      }
      assert raw[..total] == raw[..];
    }

    /** `decode`: the repaired text of the ids. */
    method Decode(ids: seq<int>) returns (text: array<byte>)
      requires Valid()
      ensures text[..] == DecodedText(View().tokens, ids)
    {
      var total := RawLength(ids);
      var raw := new byte[total];
      total := WriteRaw(ids, raw);
      text := Utf8.WriteRepaired(raw, total);
    }

    lemma ViewBos()
      requires Valid()
      ensures View().bos == bosToken && View().addBos == addBosToken && View().scanner == scanner
    {
    }
  }

  lemma SegmentsIdsDone(model: Model, text: Text)
    ensures SegmentsIds(model, Segments(text[|text|..])) == []
  {
  }

  lemma TokenBytesOf(tokens: seq<Text>, id: int)
    ensures TokenBytes(tokens, id) == if 0 <= id < |tokens| then DecodePiece(tokens[id], 0) else []
  {
  }

  lemma PiecesIdsStep(model: Model, text: Text, start: nat)
    requires start < |text|
    ensures var end := PieceEnd(model.scanner, text, start);
            PiecesIds(model, Pieces(model.scanner, text, start))
              == PieceIds(model, text[start..end]) + PiecesIds(model, Pieces(model.scanner, text, end))
  {
    hide PieceIds, PieceEnd;
    var end := PieceEnd(model.scanner, text, start);
    assert Pieces(model.scanner, text, start)[1..] == Pieces(model.scanner, text, end);
  }

  lemma PiecesIdsDone(model: Model, text: Text)
    ensures PiecesIds(model, Pieces(model.scanner, text, |text|)) == []
  {
  }

  /** `open`: a vocabulary without entries is refused; absent merges are no rules. */
  method Open(tokens: Option<seq<Text>>, merges: Option<seq<Text>>, scanner: Scanner, bosToken: int, addBosToken: bool)
    returns (tokenizer: NativeTokenizer?)
    ensures tokenizer == null <==> tokens.None? || tokens.value == []
    ensures tokenizer != null ==>
      && tokenizer.Valid()
      && tokenizer.View() == Model(tokens.value, ParseRules(merges.Or([])), scanner, bosToken, addBosToken)
  {
    hide *;
    if tokens.None? || |tokens.value| == 0 { return null; }
    var vocabulary := Pack(tokens.value);
    assert vocabulary.Texts() == tokens.value;
    var lefts, rights := PackRules(merges.Or([]));
    assert vocabulary.Valid() && vocabulary.Texts() == tokens.value;
    tokenizer := new NativeTokenizer(vocabulary, lefts, rights, scanner, bosToken, addBosToken);
  }

  // ---------------------------------------------------------------- opening a file

  /** A metadata value of a model file. */
  datatype MetaValue = Number(number: int) | Flag(flag: bool) | Line(line: Text) | Lines(lines: seq<Text>) | Other

  type Metadata = map<string, MetaValue>

  function MetaInt(file: Metadata, key: string, default: int): int {
    if key in file && file[key].Number? then file[key].number else default
  }

  function MetaLines(file: Metadata, key: string): Option<seq<Text>> {
    if key in file && file[key].Lines? then Some(file[key].lines) else None
  }

  /** `trim`: without the blanks at the end. */
  function Trimmed(text: Text): Text {
    if text != [] && text[|text| - 1] == SPACE then Trimmed(text[..|text| - 1]) else text
  }

  /** The Qwen scanner only for a pre-tokenizer named "qwen35", up to blanks behind it. */
  function ScannerOf(file: Metadata, tables: Tables): Scanner {
    var key := "tokenizer.ggml.pre";
    if key in file && file[key].Line? && Trimmed(file[key].line) == Ascii("qwen35") then Qwen(tables) else Plain
  }

  /** A missing policy counts as false; only an explicit boolean asks for the leading token. */
  function AddsBos(file: Metadata): bool {
    var key := "tokenizer.ggml.add_bos_token";
    key in file && file[key].Flag? && file[key].flag
  }

  /** The metadata by example: the name of the scanner with and without blanks, the flag, the number. */
  lemma KnownMetadata(tables: Tables)
    ensures ScannerOf(map["tokenizer.ggml.pre" := Line(Ascii("qwen35 "))], tables) == Qwen(tables)
    ensures ScannerOf(map["tokenizer.ggml.pre" := Line(Ascii("qwen2"))], tables) == Plain && ScannerOf(map[], tables) == Plain
    ensures AddsBos(map["tokenizer.ggml.add_bos_token" := Flag(true)]) && !AddsBos(map["tokenizer.ggml.add_bos_token" := MetaValue.Number(1)])
    ensures !AddsBos(map[])
    ensures MetaInt(map["tokenizer.ggml.bos_token_id" := MetaValue.Number(7)], "tokenizer.ggml.bos_token_id", -1) == 7
    ensures MetaInt(map[], "tokenizer.ggml.bos_token_id", -1) == -1
  {
    var name := Ascii("qwen35 ");
    assert name[..6] == Ascii("qwen35");
    assert Trimmed(name) == Trimmed(name[..6]) == name[..6];
    var other := Ascii("qwen2");
    assert Trimmed(other) == other && |other| == 5;
  }

  /** `native_tokenizer_open`: what the metadata of a file make of the tokenizer. */
  method OpenFile(file: Metadata, tables: Tables) returns (tokenizer: NativeTokenizer?)
    ensures tokenizer == null <==> MetaLines(file, "tokenizer.ggml.tokens").Or([]) == []
    ensures tokenizer != null ==>
      && tokenizer.Valid()
      && tokenizer.View() == Model(MetaLines(file, "tokenizer.ggml.tokens").value,
           ParseRules(MetaLines(file, "tokenizer.ggml.merges").Or([])), ScannerOf(file, tables),
           MetaInt(file, "tokenizer.ggml.bos_token_id", -1), AddsBos(file))
  {
    var bosToken := MetaInt(file, "tokenizer.ggml.bos_token_id", -1);
    tokenizer := Open(MetaLines(file, "tokenizer.ggml.tokens"), MetaLines(file, "tokenizer.ggml.merges"),
      ScannerOf(file, tables), bosToken, AddsBos(file));
  }

  /** A client: encodes without special tokens and decodes again; the text comes back exactly if it is well formed. */
  method EncodeAndDecode(tokenizer: NativeTokenizer, text: Text) returns (back: array<byte>)
    requires tokenizer.Valid() && Closed(tokenizer.View())
    ensures back[..] == Utf8.Repair(text, 0)
    ensures back[..] == text <==> Utf8.WellFormed(text)
  {
    hide Closed, Utf8.WellFormed, Utf8.Repair;
    var ids := tokenizer.Encode(text, Some(false), Some(false));
    back := tokenizer.Decode(ids[..]);
    RoundTrip(tokenizer.View(), text);
    assert [] + PlainIds(tokenizer.View(), text) == PlainIds(tokenizer.View(), text);
  }

  /** The same with special tokens: for well-formed text it comes back exactly if they avoid the byte alphabet. */
  method EncodeAndDecodeSpecials(tokenizer: NativeTokenizer, text: Text) returns (back: array<byte>)
    requires tokenizer.Valid() && Closed(tokenizer.View()) && Utf8.WellFormed(text)
    ensures back[..] == text
      <==> forall segment <- Segments(text) | Atomic(tokenizer.View(), segment) :: AvoidsAlphabet(segment.text, 0)
  {
    hide Closed, Utf8.WellFormed, Utf8.Repair, AvoidsAlphabet, Atomic;
    var ids := tokenizer.Encode(text, Some(false), Some(true));
    back := tokenizer.Decode(ids[..]);
    RoundTripWithSpecials(tokenizer.View(), text);
  }
}
