/**
 The native tokenizer: what text becomes which token ids, what ids become which text, and
 the round trip between the two.
 */
module Tokenizer {
  import opened Bytes
  import opened ByteAlphabet
  import opened Bpe
  import opened PackedTexts
  import opened PreTokenizer
  import Utf8

  /** "<unk>" */
  const UNKNOWN: Text := [0x3C, 0x75, 0x6E, 0x6B, 0x3E]

  /** What an open tokenizer knows. */
  datatype Model = Model(tokens: seq<Text>, rules: seq<Rule>, scanner: Scanner, bos: int, addBos: bool)

  // ---------------------------------------------------------------- text to ids

  /** The id of a symbol: its own entry, else the entry "<unk>", else none (-1). */
  function SymbolId(tokens: seq<Text>, symbol: Text): int {
    if FindIn(tokens, symbol) >= 0 then FindIn(tokens, symbol) else FindIn(tokens, UNKNOWN)
  }

  function SymbolIds(tokens: seq<Text>, symbols: seq<Text>): (ids: seq<int>)
    ensures |ids| <= |symbols|
  {
    if symbols == [] then []
    else
      var id := SymbolId(tokens, symbols[0]);
      (if id >= 0 then [id] else []) + SymbolIds(tokens, symbols[1..])
  }

  /** One symbol: the number of its first entry, else that of "<unk>", else nothing. */
  lemma SymbolIdsOfOne(tokens: seq<Text>, symbol: Text)
    ensures symbol in tokens ==> SymbolIds(tokens, [symbol]) == [FirstIndex(tokens, symbol)]
    ensures symbol !in tokens && UNKNOWN in tokens ==> SymbolIds(tokens, [symbol]) == [FirstIndex(tokens, UNKNOWN)]
    ensures symbol !in tokens && UNKNOWN !in tokens ==> SymbolIds(tokens, [symbol]) == []
    ensures UNKNOWN == Ascii("<unk>")
  {
    assert SymbolIds(tokens, [symbol][1..]) == [];
  }

  lemma SymbolIdsStep(tokens: seq<Text>, symbols: seq<Text>)
    requires symbols != []
    ensures SymbolIds(tokens, symbols) == SymbolIds(tokens, [symbols[0]]) + SymbolIds(tokens, symbols[1..])
  {
    hide SymbolId;
    assert SymbolIds(tokens, [symbols[0]][1..]) == [];
  }

  /** Several symbols: the ids of each, in order. */
  lemma {:induction false} SymbolIdsAppend(tokens: seq<Text>, left: seq<Text>, right: seq<Text>)
    ensures SymbolIds(tokens, left + right) == SymbolIds(tokens, left) + SymbolIds(tokens, right)
  {
    if left == [] {
      assert left + right == right;
    } else {
      assert (left + right)[1..] == left[1..] + right;
      SymbolIdsAppend(tokens, left[1..], right);
      SymbolIdsStep(tokens, left);
      SymbolIdsStep(tokens, left + right);
      hide SymbolIds;
      var first, a, b := SymbolIds(tokens, [left[0]]), SymbolIds(tokens, left[1..]), SymbolIds(tokens, right);
      assert first + (a + b) == (first + a) + b;
    }
  }

  ghost function PieceIds(model: Model, piece: Text): seq<int> {
    SymbolIds(model.tokens, PieceSymbols(model.rules, piece))
  }

  ghost function PiecesIds(model: Model, pieces: seq<Text>): seq<int> {
    if pieces == [] then [] else PieceIds(model, pieces[0]) + PiecesIds(model, pieces[1..])
  }

  /** The ids of a text in which no special token is recognised. */
  ghost function PlainIds(model: Model, text: Text): seq<int> {
    PiecesIds(model, Pieces(model.scanner, text, 0))
  }

  /** The ids of the last symbols of each chain. */
  ghost function LastIds(tokens: seq<Text>, chains: seq<seq<seq<Text>>>): seq<seq<int>>
    requires forall i | 0 <= i < |chains| :: chains[i] != []
  {
    seq(|chains|, i requires 0 <= i < |chains| => SymbolIds(tokens, chains[i][|chains[i]| - 1]))
  }

  ghost predicate AreMergeChains(rules: seq<Rule>, chains: seq<seq<seq<Text>>>, pieces: seq<Text>) {
    && |chains| == |pieces|
    && forall i | 0 <= i < |pieces| :: IsMergeChain(rules, chains[i], pieces[i])
  }

  lemma {:induction false} PiecesAreMerged(model: Model, pieces: seq<Text>) returns (chains: seq<seq<seq<Text>>>)
    ensures AreMergeChains(model.rules, chains, pieces)
    ensures PiecesIds(model, pieces) == Flatten(LastIds(model.tokens, chains))
  {
    hide PieceSymbols, SymbolIds;
    chains := [];
    if pieces != [] {
      var first := MergeChainOf(model.rules, pieces[0]);
      var rest := PiecesAreMerged(model, pieces[1..]);
      chains := [first] + rest;
      assert LastIds(model.tokens, chains)[1..] == LastIds(model.tokens, rest);
    }
  }

  /**
   The pieces of a text are merged one by one: its ids are those of the symbols at the ends of
   the merge chains of its pieces, in order. Each chain is determined by its piece.
   */
  lemma PlainIdsAreMerged(model: Model, text: Text) returns (chains: seq<seq<seq<Text>>>)
    ensures AreMergeChains(model.rules, chains, Pieces(model.scanner, text, 0))
    ensures PlainIds(model, text) == Flatten(LastIds(model.tokens, chains))
  {
    chains := PiecesAreMerged(model, Pieces(model.scanner, text, 0));
  }

  // ---------------------------------------------------------------- ids to text

  /** The octets of one token; ids outside the vocabulary contribute nothing. */
  function TokenBytes(tokens: seq<Text>, id: int): Text {
    if 0 <= id < |tokens| then DecodePiece(tokens[id], 0) else []
  }

  function RawBytes(tokens: seq<Text>, ids: seq<int>): Text {
    if ids == [] then [] else TokenBytes(tokens, ids[0]) + RawBytes(tokens, ids[1..])
  }

  function DecodedText(tokens: seq<Text>, ids: seq<int>): Text {
    Utf8.Repair(RawBytes(tokens, ids), 0)
  }

  lemma RawBytesOfOne(tokens: seq<Text>, id: int)
    ensures RawBytes(tokens, [id]) == if 0 <= id < |tokens| then DecodePiece(tokens[id], 0) else []
  {
    assert RawBytes(tokens, [id][1..]) == [];
  }

  lemma {:induction false} RawBytesAppend(tokens: seq<Text>, left: seq<int>, right: seq<int>)
    ensures RawBytes(tokens, left + right) == RawBytes(tokens, left) + RawBytes(tokens, right)
  {
    if left == [] {
      assert left + right == right;
    } else {
      assert (left + right)[1..] == left[1..] + right;
      RawBytesAppend(tokens, left[1..], right);
    }
  }

  // ---------------------------------------------------------------- the round trip

  /** Every octet has its stand-in in the vocabulary, and so has the result of every rule. */
  ghost predicate Closed(model: Model) {
    && (forall value: byte :: ByteSymbol(value) in model.tokens)
    && (forall rule <- model.rules | rule.0 != [] && rule.1 != [] :: rule.0 + rule.1 in model.tokens)
  }

  lemma {:induction false} GroupsRoundTrip(tokens: seq<Text>, groups: seq<Text>)
    requires forall symbol <- SpellEach(groups) :: symbol in tokens
    ensures RawBytes(tokens, SymbolIds(tokens, SpellEach(groups))) == Flatten(groups)
    decreases |groups|
  {
    var symbols := SpellEach(groups);
    if groups != [] {
      assert symbols[0] in tokens && symbols[1..] == SpellEach(groups[1..]);
      var id := SymbolId(tokens, symbols[0]);
      assert 0 <= id < |tokens| && tokens[id] == Spell(groups[0]);
      DecodeInvertsSpell(groups[0]);
      GroupsRoundTrip(tokens, groups[1..]);
      assert SymbolIds(tokens, symbols)[1..] == SymbolIds(tokens, symbols[1..]);
    }
  }

  lemma PieceRoundTrip(model: Model, piece: Text)
    requires Closed(model)
    ensures RawBytes(model.tokens, PieceIds(model, piece)) == piece
  {
    InitialSymbolsAreProducible(model.rules, piece);
    var groups := MergeFullyKeepsSpelling(model.rules, Singletons(piece));
    FlattenSingletons(piece);
    GroupsRoundTrip(model.tokens, groups);
  }

  lemma {:induction false} PiecesRoundTrip(model: Model, pieces: seq<Text>)
    requires Closed(model)
    ensures RawBytes(model.tokens, PiecesIds(model, pieces)) == Flatten(pieces)
  {
    if pieces != [] {
      PieceRoundTrip(model, pieces[0]);
      PiecesRoundTrip(model, pieces[1..]);
      RawBytesAppend(model.tokens, PieceIds(model, pieces[0]), PiecesIds(model, pieces[1..]));
    }
  }

  /** The octets of any text, malformed or not, survive encoding, with either scanner. */
  lemma PlainBytesRoundTrip(model: Model, text: Text)
    requires Closed(model)
    ensures RawBytes(model.tokens, PlainIds(model, text)) == text
  {
    PiecesPartition(model.scanner, text, 0);
    PiecesRoundTrip(model, Pieces(model.scanner, text, 0));
  }

  /** Decoding the encoding of a text gives the text back exactly when the text is well-formed UTF-8. */
  lemma RoundTrip(model: Model, text: Text)
    requires Closed(model)
    ensures DecodedText(model.tokens, PlainIds(model, text)) == Utf8.Repair(text, 0)
    ensures DecodedText(model.tokens, PlainIds(model, text)) == text <==> Utf8.WellFormed(text)
  {
    PlainBytesRoundTrip(model, text);
    Utf8.RepairIsIdentityExactlyOnWellFormed(text);
  }

  /** What is decoded is well formed, whatever the ids. */
  lemma DecodedTextIsWellFormed(tokens: seq<Text>, ids: seq<int>)
    ensures Utf8.WellFormed(DecodedText(tokens, ids))
  {
    var codepoints := Utf8.RepairIsWellFormed(RawBytes(tokens, ids), 0);
  }

  // ---------------------------------------------------------------- no id is dropped

  lemma PieceIdsBound(model: Model, piece: Text)
    ensures |PieceIds(model, piece)| <= |piece|
  {
    MergeFullyEndsAtFixedPoint(model.rules, InitialSymbols(piece));
  }

  lemma {:induction false} PiecesIdsBound(model: Model, pieces: seq<Text>)
    ensures |PiecesIds(model, pieces)| <= |Flatten(pieces)|
  {
    if pieces != [] {
      PieceIdsBound(model, pieces[0]);
      PiecesIdsBound(model, pieces[1..]);
    }
  }

  /** A text never has more tokens than octets, so the work array of `4 * len + 8` ids never overflows. */
  lemma PlainIdsBound(model: Model, text: Text)
    ensures |PlainIds(model, text)| <= |text|
  {
    PiecesPartition(model.scanner, text, 0);
    PiecesIdsBound(model, Pieces(model.scanner, text, 0));
  }
}
