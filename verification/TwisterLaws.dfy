/**
 What fixes the Mersenne Twister apart from its shifts and masks: tempering and recurrence are
 linear over the bits, so the images of single bits determine them, and known words pin the
 seeding.
 */
module TwisterLaws {
  import opened Mt19937

  // ---------------------------------------------------------------- linearity of the operations

  lemma XorIs(a: bv32, b: bv32)
    ensures Xor(a, b) == a ^ b
  {
  }

  lemma AndIs(a: bv32, b: bv32)
    ensures And(a, b) == a & b
  {
  }

  lemma RightIs(a: bv32)
    ensures ShiftRight(a, 11) == a >> 11 && ShiftRight(a, 18) == a >> 18
  {
  }

  lemma LeftIs(a: bv32)
    ensures ShiftLeft(a, 7) == a << 7 && ShiftLeft(a, 15) == a << 15
  {
  }

  /** Shifts move the bits of both operands alike. */
  lemma ShiftedXor(a: bv32, b: bv32)
    ensures (a ^ b) >> 11 == (a >> 11) ^ (b >> 11) && (a ^ b) >> 18 == (a >> 18) ^ (b >> 18)
    ensures (a ^ b) << 7 == (a << 7) ^ (b << 7) && (a ^ b) << 15 == (a << 15) ^ (b << 15)
  {
  }

  lemma RegroupedXor(a: bv32, b: bv32, c: bv32)
    ensures (a ^ b) ^ c == a ^ (b ^ c) && a ^ b == b ^ a
  {
  }

  lemma XorAssociates(a: bv32, b: bv32, c: bv32)
    ensures Xor(Xor(a, b), c) == Xor(a, Xor(b, c))
  {
    hide Xor;
    XorIs(a, b);
    XorIs(b, c);
    XorIs(a ^ b, c);
    XorIs(a, b ^ c);
    RegroupedXor(a, b, c);
  }

  lemma XorCommutes(a: bv32, b: bv32)
    ensures Xor(a, b) == Xor(b, a)
  {
    hide Xor;
    XorIs(a, b);
    XorIs(b, a);
    RegroupedXor(a, b, 0);
  }

  lemma XorSwap(a: bv32, b: bv32, c: bv32, d: bv32)
    ensures Xor(Xor(a, b), Xor(c, d)) == Xor(Xor(a, c), Xor(b, d))
  {
    hide Xor;
    XorAssociates(a, b, Xor(c, d));
    XorAssociates(b, c, d);
    XorCommutes(b, c);
    XorAssociates(c, b, d);
    XorAssociates(a, c, Xor(b, d));
  }

  lemma AndDistributes(a: bv32, b: bv32, mask: bv32)
    ensures And(Xor(a, b), mask) == Xor(And(a, mask), And(b, mask))
  {
    hide Xor, And;
    XorIs(a, b);
    AndIs(a, mask);
    AndIs(b, mask);
    AndIs(a ^ b, mask);
    XorIs(a & mask, b & mask);
    MaskedXor(a, b, mask);
  }

  lemma MaskedXor(a: bv32, b: bv32, mask: bv32)
    ensures (a ^ b) & mask == (a & mask) ^ (b & mask)
  {
  }

  lemma Right11Distributes(a: bv32, b: bv32)
    ensures ShiftRight(Xor(a, b), 11) == Xor(ShiftRight(a, 11), ShiftRight(b, 11))
  {
    hide Xor, ShiftRight;
    XorIs(a, b);
    RightIs(a);
    RightIs(b);
    RightIs(a ^ b);
    XorIs(a >> 11, b >> 11);
    ShiftedXor(a, b);
  }

  lemma Right18Distributes(a: bv32, b: bv32)
    ensures ShiftRight(Xor(a, b), 18) == Xor(ShiftRight(a, 18), ShiftRight(b, 18))
  {
    hide Xor, ShiftRight;
    XorIs(a, b);
    RightIs(a);
    RightIs(b);
    RightIs(a ^ b);
    XorIs(a >> 18, b >> 18);
    ShiftedXor(a, b);
  }

  lemma Left7Distributes(a: bv32, b: bv32)
    ensures ShiftLeft(Xor(a, b), 7) == Xor(ShiftLeft(a, 7), ShiftLeft(b, 7))
  {
    hide Xor, ShiftLeft;
    XorIs(a, b);
    LeftIs(a);
    LeftIs(b);
    LeftIs(a ^ b);
    XorIs(a << 7, b << 7);
    ShiftedXor(a, b);
  }

  lemma Left15Distributes(a: bv32, b: bv32)
    ensures ShiftLeft(Xor(a, b), 15) == Xor(ShiftLeft(a, 15), ShiftLeft(b, 15))
  {
    hide Xor, ShiftLeft;
    XorIs(a, b);
    LeftIs(a);
    LeftIs(b);
    LeftIs(a ^ b);
    XorIs(a << 15, b << 15);
    ShiftedXor(a, b);
  }

  lemma FirstIsLinear(x: bv32, y: bv32)
    ensures First(Xor(x, y)) == Xor(First(x), First(y))
  {
    hide Xor, ShiftRight;
    Right11Distributes(x, y);
    XorSwap(x, y, ShiftRight(x, 11), ShiftRight(y, 11));
  }

  lemma SecondIsLinear(x: bv32, y: bv32)
    ensures Second(Xor(x, y)) == Xor(Second(x), Second(y))
  {
    hide Xor, ShiftLeft, And;
    Left7Distributes(x, y);
    AndDistributes(ShiftLeft(x, 7), ShiftLeft(y, 7), 0x9d2c_5680);
    XorSwap(x, y, And(ShiftLeft(x, 7), 0x9d2c_5680), And(ShiftLeft(y, 7), 0x9d2c_5680));
  }

  lemma ThirdIsLinear(x: bv32, y: bv32)
    ensures Third(Xor(x, y)) == Xor(Third(x), Third(y))
  {
    hide Xor, ShiftLeft, And;
    Left15Distributes(x, y);
    AndDistributes(ShiftLeft(x, 15), ShiftLeft(y, 15), 0xefc6_0000);
    XorSwap(x, y, And(ShiftLeft(x, 15), 0xefc6_0000), And(ShiftLeft(y, 15), 0xefc6_0000));
  }

  lemma FourthIsLinear(x: bv32, y: bv32)
    ensures Fourth(Xor(x, y)) == Xor(Fourth(x), Fourth(y))
  {
    hide Xor, ShiftRight;
    Right18Distributes(x, y);
    XorSwap(x, y, ShiftRight(x, 18), ShiftRight(y, 18));
  }

  /** The tempering respects exclusive or. */
  lemma TemperIsLinear(x: bv32, y: bv32)
    ensures Temper(Xor(x, y)) == Xor(Temper(x), Temper(y))
  {
    hide First, Second, Third, Fourth, Xor;
    FirstIsLinear(x, y);
    SecondIsLinear(First(x), First(y));
    ThirdIsLinear(Second(First(x)), Second(First(y)));
    FourthIsLinear(Third(Second(First(x))), Third(Second(First(y))));
  }

  // ---------------------------------------------------------------- the tempering, bit by bit

  lemma LowBitsTempered()
    ensures Temper(0x0000_0001) == 0x0040_0091 && Temper(0x0000_0002) == 0x0000_0002
    ensures Temper(0x0000_0004) == 0x0102_0244 && Temper(0x0000_0008) == 0x0204_0489
    ensures Temper(0x0000_0010) == 0x0000_0010 && Temper(0x0000_0020) == 0x0800_1220
    ensures Temper(0x0000_0040) == 0x0000_0040 && Temper(0x0000_0080) == 0x2040_4890
  {
  }

  lemma LowerBitsTempered()
    ensures Temper(0x0000_0100) == 0x0080_0120 && Temper(0x0000_0200) == 0x0100_0240
    ensures Temper(0x0000_0400) == 0x0200_0480 && Temper(0x0000_0800) == 0x0444_0990
    ensures Temper(0x0000_1000) == 0x0808_1200 && Temper(0x0000_2000) == 0x0102_2244
    ensures Temper(0x0000_4000) == 0x2224_4c81 && Temper(0x0000_8000) == 0x4000_9010
  {
  }

  lemma UpperBitsTempered()
    ensures Temper(0x0001_0000) == 0x8801_3220 && Temper(0x0002_0000) == 0x0102_0000
    ensures Temper(0x0004_0000) == 0x2044_4891 && Temper(0x0008_0000) == 0x0488_0022
    ensures Temper(0x0010_0000) == 0x0910_0044 && Temper(0x0020_0000) == 0x1220_0088
    ensures Temper(0x0040_0000) == 0x0444_0911 && Temper(0x0080_0000) == 0x0888_1222
  {
  }

  lemma HighBitsTempered()
    ensures Temper(0x0100_0000) == 0x8100_0040 && Temper(0x0200_0000) == 0x2220_4888
    ensures Temper(0x0400_0000) == 0x4400_9100 && Temper(0x0800_0000) == 0x8801_2200
    ensures Temper(0x1000_0000) == 0x1102_0440 && Temper(0x2000_0000) == 0x2004_0801
    ensures Temper(0x4000_0000) == 0x4408_1102 && Temper(0x8000_0000) == 0x8810_2204
  {
  }

  /** The images of all single bits. */
  lemma SingleBitsTempered()
    ensures Temper(0x0000_0001) == 0x0040_0091 && Temper(0x0000_0002) == 0x0000_0002
    ensures Temper(0x0000_0004) == 0x0102_0244 && Temper(0x0000_0008) == 0x0204_0489
    ensures Temper(0x0000_0010) == 0x0000_0010 && Temper(0x0000_0020) == 0x0800_1220
    ensures Temper(0x0000_0040) == 0x0000_0040 && Temper(0x0000_0080) == 0x2040_4890
    ensures Temper(0x0000_0100) == 0x0080_0120 && Temper(0x0000_0200) == 0x0100_0240
    ensures Temper(0x0000_0400) == 0x0200_0480 && Temper(0x0000_0800) == 0x0444_0990
    ensures Temper(0x0000_1000) == 0x0808_1200 && Temper(0x0000_2000) == 0x0102_2244
    ensures Temper(0x0000_4000) == 0x2224_4c81 && Temper(0x0000_8000) == 0x4000_9010
    ensures Temper(0x0001_0000) == 0x8801_3220 && Temper(0x0002_0000) == 0x0102_0000
    ensures Temper(0x0004_0000) == 0x2044_4891 && Temper(0x0008_0000) == 0x0488_0022
    ensures Temper(0x0010_0000) == 0x0910_0044 && Temper(0x0020_0000) == 0x1220_0088
    ensures Temper(0x0040_0000) == 0x0444_0911 && Temper(0x0080_0000) == 0x0888_1222
    ensures Temper(0x0100_0000) == 0x8100_0040 && Temper(0x0200_0000) == 0x2220_4888
    ensures Temper(0x0400_0000) == 0x4400_9100 && Temper(0x0800_0000) == 0x8801_2200
    ensures Temper(0x1000_0000) == 0x1102_0440 && Temper(0x2000_0000) == 0x2004_0801
    ensures Temper(0x4000_0000) == 0x4408_1102 && Temper(0x8000_0000) == 0x8810_2204
  {
    hide Temper;
    LowBitsTempered();
    LowerBitsTempered();
    UpperBitsTempered();
    HighBitsTempered();
  }

  /** The first output of the seed 5489, and the image of 1. */
  lemma KnownOutputs()
    ensures Temper(0x9b0a_fa27) == 0xd091_bb5c && Temper(1) == 0x0040_0091
  {
  }

  // ---------------------------------------------------------------- the recurrence

  /** A new word is made of the words 624, 623 and 227 places before it. */
  lemma Recurrence(seed: bv32, k: nat)
    ensures Word(seed, k + 624) == Recur(Word(seed, k), Word(seed, k + 1), Word(seed, k + 397))
  {
    hide Recur;
  }

  lemma RecurIsXor(x: bv32, y: bv32, middle: bv32)
    ensures Recur(x, y, middle) == Xor(middle, TimesMatrix(Join(x, y)))
  {
  }

  /** The upper bit of the one and the other bits of the other. */
  lemma JoinTakes(x: bv32, y: bv32)
    ensures And(Join(x, y), 0x8000_0000) == And(x, 0x8000_0000)
    ensures And(Join(x, y), 0x7fff_ffff) == And(y, 0x7fff_ffff)
  {
  }

  /** The matrix takes the last bit off, and adds its last row if that was set. */
  lemma MatrixUndoesDoubling(x: bv32)
    requires x < 0x8000_0000
    ensures TimesMatrix(x << 1) == x && TimesMatrix((x << 1) | 1) == x ^ 0x9908_b0df
  {
  }

  lemma SeedStepOf(x: bv32, mixed: bv32, v: nat, n: nat, next: nat)
    requires Mix(x) == mixed && Value(mixed) == v
    requires next == (1812433253 * v + n) % 0x1_0000_0000
    ensures SeedStep(x, n) == FromValue(next)
  {
    hide Mix, Value, FromValue;
  }

  lemma KnownMixes()
    ensures Mix(0x1571) == 0x1571 && Mix(0x4d98_ee96) == 0x4d98_ee97 && Mix(0xaf25_f095) == 0xaf25_f097
  {
  }

  lemma KnownValues()
    ensures Value(0x1571) == 5489 && Value(0x4d98_ee97) == 1301868183 && Value(0xaf25_f097) == 2938499223
  {
  }

  lemma KnownNumbers()
    ensures FromValue(1301868182) == 0x4d98_ee96 && FromValue(2938499221) == 0xaf25_f095 && FromValue(2950281878) == 0xafd9_ba96
  {
  }

  /** The first words of the seed 5489. */
  lemma KnownWords()
    ensures Word(5489, 1) == 1301868182 && Word(5489, 2) == 2938499221 && Word(5489, 3) == 2950281878
  {
    hide SeedStep, Mix, Value, FromValue;
    KnownMixes();
    KnownValues();
    KnownNumbers();
    SeedStepOf(0x1571, 0x1571, 5489, 1, 1301868182);
    SeedStepOf(0x4d98_ee96, 0x4d98_ee97, 1301868183, 2, 2938499221);
    SeedStepOf(0xaf25_f095, 0xaf25_f097, 2938499223, 3, 2950281878);
    assert Word(5489, 1) == SeedStep(Word(5489, 0), 1);
    assert Word(5489, 2) == SeedStep(Word(5489, 1), 2);
    assert Word(5489, 3) == SeedStep(Word(5489, 2), 3);
  }

  /** The word that the recurrence makes of words 0, 1 and 397 of that seed. */
  lemma KnownRecurrence()
    ensures Recur(5489, 1301868182, 0xbdc6_8d6c) == 0x9b0a_fa27
  {
  }
}
