/** Two texts with every kind of piece, and how the pre-tokenizers cut them. */
module PieceExamples {
  import opened Bytes
  import opened PreTokenizer
  import Utf8

  /** Category tables for ASCII text. */
  const ASCII_TABLES: Tables := Tables(
    codepoint => 0x41 <= codepoint <= 0x5A || 0x61 <= codepoint <= 0x7A,
    codepoint => false,
    codepoint => 0x30 <= codepoint <= 0x39,
    codepoint => codepoint == 0x20 || 0x09 <= codepoint <= 0x0D)

  const SAMPLE: Text := Ascii("I'LL see\t42 +/\n--/ \n\nok\n\n")

  lemma SampleOctets()
    ensures SAMPLE == [0x49, 0x27, 0x4C, 0x4C, 0x20, 0x73, 0x65, 0x65, 0x09, 0x34, 0x32, 0x20, 0x2B, 0x2F, 0x0A, 0x2D, 0x2D, 0x2F, 0x20, 0x0A, 0x0A, 0x6F, 0x6B, 0x0A, 0x0A]
  {
  }

  /** Runs of ASCII octets. */
  lemma {:induction false} AsciiRunEnd(text: Text, from: nat, end: nat, keep: nat -> bool)
    requires from <= end <= |text|
    requires forall i | from <= i < end :: text[i] < 0x80 && keep(text[i])
    requires end < |text| ==> text[end] < 0x80 && !keep(text[end])
    ensures CodepointRunEnd(text, from, keep) == end
    decreases end - from
  {
    if from < end {
      AsciiRunEnd(text, from + 1, end, keep);
    }
  }

  lemma SampleCharacter(at: nat)
    requires at < |SAMPLE|
    ensures Utf8.Decode(SAMPLE, at) == Utf8.Decoded(SAMPLE[at], 1)
  {
  }

  lemma NotApostrophe(text: Text, position: nat)
    requires position < |text| && text[position] != APOSTROPHE
    ensures ContractionLength(text, position) == 0
  {
  }

  lemma QwenEndAt0()
    ensures QwenEnd(ASCII_TABLES, SAMPLE, 0) == 1
  {
    hide CodepointRunEnd, ContractionLength, Utf8.Decode;
    SampleOctets();
    NotApostrophe(SAMPLE, 0);
    SampleCharacter(0);
    SampleCharacter(1);
    AsciiRunEnd(SAMPLE, 1, 1, ASCII_TABLES.Word);
  }

  lemma QwenEndAt1()
    ensures QwenEnd(ASCII_TABLES, SAMPLE, 1) == 4
  {
    hide CodepointRunEnd, SkipOne, Utf8.Decode;
    SampleOctets();
  }

  lemma QwenEndAt4()
    ensures QwenEnd(ASCII_TABLES, SAMPLE, 4) == 8
  {
    hide CodepointRunEnd, ContractionLength, Utf8.Decode;
    SampleOctets();
    NotApostrophe(SAMPLE, 4);
    SampleCharacter(4);
    SampleCharacter(5);
    SampleCharacter(8);
    AsciiRunEnd(SAMPLE, 5, 8, ASCII_TABLES.Word);
  }

  lemma QwenEndAt8()
    ensures QwenEnd(ASCII_TABLES, SAMPLE, 8) == 9
  {
    hide CodepointRunEnd, ContractionLength, Utf8.Decode;
    SampleOctets();
    NotApostrophe(SAMPLE, 8);
    SampleCharacter(8);
    SampleCharacter(9);
    AsciiRunEnd(SAMPLE, 8, 9, ASCII_TABLES.Blank);
  }

  lemma QwenEndAt9()
    ensures QwenEnd(ASCII_TABLES, SAMPLE, 9) == 10
  {
    hide CodepointRunEnd, ContractionLength, Utf8.Decode;
    SampleOctets();
    NotApostrophe(SAMPLE, 9);
    SampleCharacter(9);
  }

  lemma QwenEndAt10()
    ensures QwenEnd(ASCII_TABLES, SAMPLE, 10) == 11
  {
    hide CodepointRunEnd, ContractionLength, Utf8.Decode;
    SampleOctets();
    NotApostrophe(SAMPLE, 10);
    SampleCharacter(10);
  }

  lemma QwenEndAt11()
    ensures QwenEnd(ASCII_TABLES, SAMPLE, 11) == 15
  {
    hide CodepointRunEnd, ContractionLength, Utf8.Decode;
    SampleOctets();
    NotApostrophe(SAMPLE, 11);
    SampleCharacter(11);
    SampleCharacter(12);
    SampleCharacter(14);
    AsciiRunEnd(SAMPLE, 12, 14, ASCII_TABLES.Symbol);
  }

  lemma QwenEndAt15()
    ensures QwenEnd(ASCII_TABLES, SAMPLE, 15) == 18
  {
    hide CodepointRunEnd, ContractionLength, Utf8.Decode;
    SampleOctets();
    NotApostrophe(SAMPLE, 15);
    SampleCharacter(15);
    SampleCharacter(16);
    SampleCharacter(18);
    AsciiRunEnd(SAMPLE, 15, 18, ASCII_TABLES.Symbol);
  }

  lemma QwenEndAt18()
    ensures QwenEnd(ASCII_TABLES, SAMPLE, 18) == 21
  {
    hide CodepointRunEnd, ContractionLength, Utf8.Decode;
    SampleOctets();
    NotApostrophe(SAMPLE, 18);
    SampleCharacter(18);
    SampleCharacter(19);
    SampleCharacter(21);
    AsciiRunEnd(SAMPLE, 18, 19, ASCII_TABLES.Blank);
    AsciiRunEnd(SAMPLE, 19, 21, Newline);
  }

  lemma QwenEndAt21()
    ensures QwenEnd(ASCII_TABLES, SAMPLE, 21) == 23
  {
    hide CodepointRunEnd, ContractionLength, Utf8.Decode;
    SampleOctets();
    NotApostrophe(SAMPLE, 21);
    SampleCharacter(21);
    SampleCharacter(22);
    SampleCharacter(23);
    AsciiRunEnd(SAMPLE, 22, 23, ASCII_TABLES.Word);
  }

  lemma QwenEndAt23()
    ensures QwenEnd(ASCII_TABLES, SAMPLE, 23) == 25
  {
    hide CodepointRunEnd, ContractionLength, Utf8.Decode;
    SampleOctets();
    NotApostrophe(SAMPLE, 23);
    SampleCharacter(23);
    SampleCharacter(24);
    AsciiRunEnd(SAMPLE, 24, 25, Newline);
  }

  lemma PiecesStep(scanner: Scanner, text: Text, start: nat, end: nat)
    requires start < |text| && PieceEnd(scanner, text, start) == end
    ensures Pieces(scanner, text, start) == [text[start..end]] + Pieces(scanner, text, end)
  {
  }

  /** "I", "'LL", " see", tab, "4", "2", " +/" with its line end, "--/", a space with two line ends, "ok", two line ends. */
  lemma QwenPiecesOfSample()
    ensures Pieces(Qwen(ASCII_TABLES), SAMPLE, 0)
      == [SAMPLE[0..1], SAMPLE[1..4], SAMPLE[4..8], SAMPLE[8..9], SAMPLE[9..10], SAMPLE[10..11], SAMPLE[11..15],
          SAMPLE[15..18], SAMPLE[18..21], SAMPLE[21..23], SAMPLE[23..25]]
  {
    hide QwenEnd, Pieces;
    var scanner := Qwen(ASCII_TABLES);
    QwenEndAt23();
    PiecesStep(scanner, SAMPLE, 23, 25);
    QwenEndAt21();
    PiecesStep(scanner, SAMPLE, 21, 23);
    QwenEndAt18();
    PiecesStep(scanner, SAMPLE, 18, 21);
    QwenEndAt15();
    PiecesStep(scanner, SAMPLE, 15, 18);
    QwenEndAt11();
    PiecesStep(scanner, SAMPLE, 11, 15);
    QwenEndAt10();
    PiecesStep(scanner, SAMPLE, 10, 11);
    QwenEndAt9();
    PiecesStep(scanner, SAMPLE, 9, 10);
    QwenEndAt8();
    PiecesStep(scanner, SAMPLE, 8, 9);
    QwenEndAt4();
    PiecesStep(scanner, SAMPLE, 4, 8);
    QwenEndAt1();
    PiecesStep(scanner, SAMPLE, 1, 4);
    QwenEndAt0();
    PiecesStep(scanner, SAMPLE, 0, 1);
    PiecesDone(scanner, SAMPLE);
  }

  lemma PiecesDone(scanner: Scanner, text: Text)
    ensures Pieces(scanner, text, |text|) == []
  {
  }

  /** "ab 12", two spaces, two line ends, "-+", and an accented letter. */
  const PLAIN_SAMPLE: Text := Ascii("ab 12  \n\n-+") + [0xC3, 0xA9]

  lemma PlainEndsOfSample()
    ensures PlainEnd(PLAIN_SAMPLE, 0) == 2
    ensures PlainEnd(PLAIN_SAMPLE, 2) == 5
    ensures PlainEnd(PLAIN_SAMPLE, 5) == 7
    ensures PlainEnd(PLAIN_SAMPLE, 7) == 9
    ensures PlainEnd(PLAIN_SAMPLE, 9) == 11
    ensures PlainEnd(PLAIN_SAMPLE, 11) == 13
  {
    hide PlainEnd;
    var text := PLAIN_SAMPLE;
    assert text == [0x61, 0x62, 0x20, 0x31, 0x32, 0x20, 0x20, 0x0A, 0x0A, 0x2D, 0x2B, 0xC3, 0xA9];
    PlainEndMeans(text, 0, 2);
    PlainEndMeans(text, 2, 5);
    PlainEndMeans(text, 5, 7);
    PlainEndMeans(text, 7, 9);
    PlainEndMeans(text, 9, 11);
    PlainEndMeans(text, 11, 13);
  }

  /** The words keep one space in front, equal spaces and equal line ends stay together, and so do the symbols. */
  lemma PlainPiecesOfSample()
    ensures Pieces(Plain, PLAIN_SAMPLE, 0)
      == [PLAIN_SAMPLE[0..2], PLAIN_SAMPLE[2..5], PLAIN_SAMPLE[5..7], PLAIN_SAMPLE[7..9], PLAIN_SAMPLE[9..11], PLAIN_SAMPLE[11..13]]
  {
    hide PlainEnd, Pieces;
    PlainEndsOfSample();
    PiecesStep(Plain, PLAIN_SAMPLE, 11, 13);
    PiecesStep(Plain, PLAIN_SAMPLE, 9, 11);
    PiecesStep(Plain, PLAIN_SAMPLE, 7, 9);
    PiecesStep(Plain, PLAIN_SAMPLE, 5, 7);
    PiecesStep(Plain, PLAIN_SAMPLE, 2, 5);
    PiecesStep(Plain, PLAIN_SAMPLE, 0, 2);
    PiecesDone(Plain, PLAIN_SAMPLE);
  }
}
