/**
 The Mersenne Twister MT19937: the published recurrence on 32-bit words, and the generator
 that keeps 624 of them in 64-bit integers and overwrites them in place.
 */
module Mt19937 {
  import opened DoubleRounding

  const DEGREE := 624
  const MIDDLE := 397

  // ---------------------------------------------------------------- the recurrence

  function Xor(x: bv32, y: bv32): bv32 { x ^ y }

  function And(x: bv32, y: bv32): bv32 { x & y }

  function ShiftRight(x: bv32, n: bv5): bv32 { x >> n }

  function ShiftLeft(x: bv32, n: bv5): bv32 { x << n }

  function Mix(x: bv32): bv32 {
    Xor(x, ShiftRight(x, 30))
  }

  function Value(x: bv32): (v: nat)
    ensures v < 0x1_0000_0000
  {
    x as int
  }

  function FromValue(v: nat): bv32
    requires v < 0x1_0000_0000
  {
    v as bv32
  }

  /** The word after `x` when the first 624 words are filled from a seed. */
  function SeedStep(x: bv32, n: nat): bv32 {
    FromValue((1812433253 * Value(Mix(x)) + n) % 0x1_0000_0000)
  }

  /** The upper bit of one word and the lower bits of its neighbour. */
  function Join(x: bv32, y: bv32): bv32 {
    (x & 0x8000_0000) | (y & 0x7fff_ffff)
  }

  /** The product with the matrix of the recurrence. */
  function TimesMatrix(x: bv32): bv32 {
    (x >> 1) ^ (if x & 1 == 1 then 0x9908_b0df else 0)
  }

  function Recur(x: bv32, y: bv32, middle: bv32): bv32 {
    middle ^ TimesMatrix(Join(x, y))
  }

  /** The sequence of a seed. */
  function Word(seed: bv32, n: nat): bv32 {
    if n == 0 then seed
    else if n < DEGREE then SeedStep(Word(seed, n - 1), n)
    else Recur(Word(seed, n - DEGREE), Word(seed, n - DEGREE + 1), Word(seed, n - DEGREE + MIDDLE))
  }

  function First(x: bv32): bv32 {
    Xor(x, ShiftRight(x, 11))
  }

  function Second(x: bv32): bv32 {
    Xor(x, And(ShiftLeft(x, 7), 0x9d2c_5680))
  }

  function Third(x: bv32): bv32 {
    Xor(x, And(ShiftLeft(x, 15), 0xefc6_0000))
  }

  function Fourth(x: bv32): bv32 {
    Xor(x, ShiftRight(x, 18))
  }

  function Temper(x: bv32): bv32 {
    Fourth(Third(Second(First(x))))
  }

  // ---------------------------------------------------------------- 64-bit integers hold 32-bit words

  /** A 32-bit word in a 64-bit integer. */
  function Wide(x: bv32): bv64 {
    x as bv64
  }

  function IEor(a: bv64, b: bv64): bv64 { a ^ b }

  function IAnd(a: bv64, b: bv64): bv64 { a & b }

  function IOr(a: bv64, b: bv64): bv64 { a | b }

  function ShiftR(a: bv64, n: bv6): bv64 { a >> n }

  function ShiftL(a: bv64, n: bv6): bv64 { a << n }

  function Low32(a: bv64): bv64 { a & 0xffff_ffff }

  predicate BTest0(a: bv64) { a & 1 == 1 }

  lemma XorIn64(x: bv32, y: bv32)
    ensures IEor(Wide(x), Wide(y)) == Wide(Xor(x, y))
  {
  }

  lemma Shift30In64(x: bv32)
    ensures ShiftR(Wide(x), 30) == Wide(ShiftRight(x, 30))
  {
    assert (x as bv64) >> 30 == (x >> 30) as bv64;
    assert ShiftRight(x, 30) == x >> 30;
    assert ShiftR(x as bv64, 30) == (x as bv64) >> 30;
  }

  lemma Shift11In64(x: bv32)
    ensures ShiftR(Wide(x), 11) == Wide(ShiftRight(x, 11))
  {
    assert (x as bv64) >> 11 == (x >> 11) as bv64;
    assert ShiftRight(x, 11) == x >> 11;
    assert ShiftR(x as bv64, 11) == (x as bv64) >> 11;
  }

  lemma Shift18In64(x: bv32)
    ensures ShiftR(Wide(x), 18) == Wide(ShiftRight(x, 18))
  {
    assert (x as bv64) >> 18 == (x >> 18) as bv64;
    assert ShiftRight(x, 18) == x >> 18;
    assert ShiftR(x as bv64, 18) == (x as bv64) >> 18;
  }

  lemma MaskedShift7In64(x: bv32)
    ensures IAnd(ShiftL(Wide(x), 7), 0x9d2c_5680) == Wide(And(ShiftLeft(x, 7), 0x9d2c_5680))
  {
  }

  lemma MaskedShift15In64(x: bv32)
    ensures IAnd(ShiftL(Wide(x), 15), 0xefc6_0000) == Wide(And(ShiftLeft(x, 15), 0xefc6_0000))
  {
  }

  lemma MaskKeeps(x: bv32)
    ensures Low32(Wide(x)) == Wide(x)
  {
  }

  // ---------------------------------------------------------------- words as numbers

  function ToInteger(w: bv64): nat {
    w as int
  }

  function FromInteger(v: nat): bv64
    requires v < 0x1_0000_0000
  {
    v as bv64
  }

  lemma ValueIn64(x: bv32)
    ensures (x as bv64) as int == x as int
  {
  }

  lemma IntegerOfWide(x: bv32)
    ensures ToInteger(Wide(x)) == Value(x)
  {
    ValueIn64(x);
    assert Wide(x) == x as bv64;
  }

  lemma BackIn64(w: bv64)
    ensures (w as int) as bv64 == w
  {
  }

  lemma NumberIn32(v: nat)
    requires v < 0x1_0000_0000
    ensures (v as bv32) as int == v
  {
    assert v % 0x1_0000_0000 == v;
  }

  lemma DetourIn64(v: nat)
    requires v < 0x1_0000_0000
    ensures v as bv64 == (v as bv32) as bv64
  {
    NumberIn32(v);
    var x := v as bv32;
    ValueIn64(x);
    BackIn64(x as bv64);
  }

  /** A number below 2^32 is the same 64-bit integer with or without the detour through 32 bits. */
  lemma NumberIn64(v: nat)
    requires v < 0x1_0000_0000
    ensures FromInteger(v) == Wide(FromValue(v))
  {
    DetourIn64(v);
    assert FromInteger(v) == v as bv64;
    assert FromValue(v) == v as bv32;
    assert Wide(v as bv32) == (v as bv32) as bv64;
  }

  /** An `integer(int64)` that is not negative. */
  type int64 = x: int | 0 <= x < 0x8000_0000_0000_0000

  /** The product and sum of the seeding do not overflow a signed 64-bit integer. */
  lemma SeedingFits(v: nat, i: nat)
    requires v < 0x1_0000_0000 && i < DEGREE
    ensures 1812433253 * v + i < 0x8000_0000_0000_0000
  {
  }

  /** `iand(1812433253 * ieor(previous, shiftr(previous, 30)) + i, mask32)` */
  method SeedNext(ghost x: bv32, previous: bv64, i: nat) returns (next: bv64)
    requires i < DEGREE && previous == Wide(x)
    ensures next == Wide(SeedStep(x, i))
  {
    hide Wide, IEor, ShiftR, Xor, ShiftRight, Value, FromValue, ToInteger, FromInteger;
    Shift30In64(x);
    XorIn64(x, ShiftRight(x, 30));
    IntegerOfWide(Mix(x));
    SeedingFits(Value(Mix(x)), i);
    var mixed := IEor(previous, ShiftR(previous, 30));
    var product: int64 := 1812433253 * ToInteger(mixed) + i;
    NumberIn64(product % 0x1_0000_0000);
    next := FromInteger(product % 0x1_0000_0000);
  }

  // ---------------------------------------------------------------- twist and tempering

  lemma JoinIn64(x: bv32, y: bv32)
    ensures IOr(IAnd(Wide(x), 0x8000_0000), IAnd(Wide(y), 0x7fff_ffff)) == Wide(Join(x, y))
  {
  }

  lemma MatrixIn64(x: bv32, middle: bv32)
    ensures BTest0(Wide(x)) ==>
      Low32(IEor(IEor(Wide(middle), ShiftR(Wide(x), 1)), 0x9908_b0df)) == Wide(middle ^ TimesMatrix(x))
    ensures !BTest0(Wide(x)) ==> Low32(IEor(Wide(middle), ShiftR(Wide(x), 1))) == Wide(middle ^ TimesMatrix(x))
  {
  }

  lemma RecurIn64(x: bv32, y: bv32, m: bv32)
    ensures Recur(x, y, m) == m ^ TimesMatrix(Join(x, y))
  {
  }

  /** The new word of one position, from the position, its neighbour and the middle one. */
  method TwistOne(ghost x: bv32, ghost y: bv32, ghost m: bv32, current: bv64, next: bv64, middle: bv64) returns (r: bv64)
    requires current == Wide(x) && next == Wide(y) && middle == Wide(m)
    ensures r == Wide(Recur(x, y, m))
  {
    hide *;
    JoinIn64(x, y);
    MatrixIn64(Join(x, y), m);
    RecurIn64(x, y, m);
    var value := IOr(IAnd(current, 0x8000_0000), IAnd(next, 0x7fff_ffff));
    r := IEor(middle, ShiftR(value, 1));
    if BTest0(value) { r := IEor(r, 0x9908_b0df); }
    r := Low32(r);
  }

  /** The tempering; left shifts run past 32 bits, but only masked bits come back. */
  method TemperOne(ghost x: bv32, word: bv64) returns (r: bv64)
    requires word == Wide(x)
    ensures r == Wide(Temper(x))
  {
    hide Wide, IEor, IAnd, ShiftL, ShiftR, Low32, Xor, And, ShiftLeft, ShiftRight;
    ghost var a, b, c := First(x), Second(First(x)), Third(Second(First(x)));
    Shift11In64(x);
    XorIn64(x, ShiftRight(x, 11));
    MaskedShift7In64(a);
    XorIn64(a, And(ShiftLeft(a, 7), 0x9d2c_5680));
    MaskedShift15In64(b);
    XorIn64(b, And(ShiftLeft(b, 15), 0xefc6_0000));
    Shift18In64(c);
    XorIn64(c, ShiftRight(c, 18));
    MaskKeeps(Fourth(c));
    var value := word;
    value := IEor(value, ShiftR(value, 11));
    value := IEor(value, IAnd(ShiftL(value, 7), 0x9d2c_5680));
    value := IEor(value, IAnd(ShiftL(value, 15), 0xefc6_0000));
    value := IEor(value, ShiftR(value, 18));
    r := Low32(value);
  }

  // ---------------------------------------------------------------- pairs of words as fractions

  /** Two words as a double over 2^64. */
  function Fraction(low: bv32, high: bv32): real {
    RoundToDouble(Value(low) + Value(high) * 0x1_0000_0000) as real / 18446744073709551616.0
  }

  lemma FractionOf(low: bv32, high: bv32, l: nat, h: nat)
    requires l == Value(low) && h == Value(high)
    ensures Fraction(low, high) == RoundToDouble(l + h * 0x1_0000_0000) as real / 18446744073709551616.0
  {
  }

  /** The fraction reaches 1 exactly for a full high word and a low word among the last 1024. */
  lemma BelowOneExactly(low: bv32, high: bv32)
    ensures 0.0 <= Fraction(low, high) <= 1.0
    ensures Fraction(low, high) < 1.0 <==> !(Value(high) == 0xFFFF_FFFF && Value(low) >= 0xFFFF_FC00)
  {
    hide RoundToDouble, Value;
    var l, h := Value(low), Value(high);
    RoundsToLimitExactly(l + h * 0x1_0000_0000);
    Over(RoundToDouble(l + h * 0x1_0000_0000));
  }

  lemma Over(n: nat)
    requires n <= 0x1_0000_0000_0000_0000
    ensures 0.0 <= n as real / 18446744073709551616.0 <= 1.0
    ensures n as real / 18446744073709551616.0 < 1.0 <==> n < 0x1_0000_0000_0000_0000
  {
  }

  /** Two full words make 1. */
  lemma FullWordsMakeOne()
    ensures Fraction(0xFFFF_FFFF, 0xFFFF_FFFF) == 1.0
  {
    var full: bv32 := 0xFFFF_FFFF;
    assert Value(full) == 0xFFFF_FFFF;
    hide Value, RoundToDouble;
    BelowOneExactly(full, full);
  }

  // ---------------------------------------------------------------- the generator

  function Seed32(seed: bv64): bv32 {
    (seed & 0xffff_ffff) as bv32
  }

  lemma SeedIsMasked(seed: bv64)
    ensures Low32(seed) == Wide(Seed32(seed))
  {
  }

  lemma FirstWord(seed: bv32)
    ensures Word(seed, 0) == seed
  {
  }

  lemma WordFromSeed(seed: bv32, n: nat)
    requires 0 < n < DEGREE
    ensures Word(seed, n) == SeedStep(Word(seed, n - 1), n)
  {
  }

  /** The seeding loop. */
  method Filled(from: bv64) returns (state: array<bv64>)
    ensures fresh(state) && state.Length == DEGREE
    ensures forall i | 0 <= i < DEGREE :: state[i] == Wide(Word(Seed32(from), i))
  {
    hide Wide, Recur, SeedStep, Seed32, Low32, Word;
    ghost var seed := Seed32(from);
    state := new bv64[DEGREE];
    SeedIsMasked(from);
    FirstWord(seed);
    state[0] := Low32(from);
    var i := 1;
    while i < DEGREE
      invariant 1 <= i <= DEGREE
      invariant forall j | 0 <= j < i :: state[j] == Wide(Word(seed, j))
    {
      WordFromSeed(seed, i);
      var next := SeedNext(Word(seed, i - 1), state[i - 1], i);
      state[i] := next;
      i := i + 1;
    }
  }

  class Generator {
    const state: array<bv64>
    var position: nat
    ghost var seed: bv32
    ghost var calls: nat
    ghost var rounds: nat

    /** The array holds words `624 * rounds` and following; `position` is one based, past the end if all are used up. */
    ghost predicate Valid()
      reads this, state
    {
      && state.Length == DEGREE && 1 <= position <= DEGREE + 1
      && calls + DEGREE == DEGREE * rounds + position - 1
      && forall i | 0 <= i < DEGREE :: state[i] == Wide(Word(seed, DEGREE * rounds + i))
    }

    constructor (from: bv64)
      ensures Valid() && fresh(state) && calls == 0 && seed == Seed32(from)
    {
      hide Wide, Word, Seed32;
      var filled := Filled(from);
      state := filled;
      position := DEGREE + 1;
      seed := Seed32(from);
      calls := 0;
      rounds := 0;
    }

    static lemma WordAfter(seed: bv32, n: nat)
      ensures Word(seed, n + DEGREE) == Recur(Word(seed, n), Word(seed, n + 1), Word(seed, n + MIDDLE))
    {
    }

    /** Replaces the words of one round by those of the next, in place. */
    method TwistAll()
      requires Valid() && position == DEGREE + 1
      modifies this`position, this`rounds, state
      ensures Valid() && position == 1
    {
      hide Wide, Recur, Word;
      ghost var base := DEGREE * rounds;
      var i := 0;
      while i < DEGREE
        invariant i <= DEGREE
        invariant forall j | 0 <= j < i :: state[j] == Wide(Word(seed, base + DEGREE + j))
        invariant forall j | i <= j < DEGREE :: state[j] == Wide(Word(seed, base + j))
        modifies state
      {
        var next := i + 1;
        if next > DEGREE - 1 { next := 0; }
        var offset := i + MIDDLE;
        if offset > DEGREE - 1 { offset := offset - DEGREE; }
        ghost var x, y, m := Word(seed, base + i), Word(seed, base + i + 1), Word(seed, base + i + MIDDLE);
        assert state[next] == Wide(y) && state[offset] == Wide(m);
        var twisted := TwistOne(x, y, m, state[i], state[next], state[offset]);
        WordAfter(seed, base + i);
        assert base + i + DEGREE == base + DEGREE + i;
        state[i] := twisted;
        i := i + 1;
      }
      rounds := rounds + 1;
      position := 1;
      assert DEGREE * rounds == base + DEGREE;
    }

    /** Call number n (from 0) returns the tempered word 624 + n of the sequence. */
    method Uint32() returns (r: bv64)
      requires Valid()
      modifies this`position, this`rounds, this`calls, state
      ensures Valid() && calls == old(calls) + 1
      ensures r == Wide(Temper(Word(seed, DEGREE + old(calls))))
    {
      hide Wide, Temper, Word;
      if position > DEGREE {
        TwistAll();
      }
      ghost var x := Word(seed, DEGREE + calls);
      assert state[position - 1] == Wide(x);
      r := TemperOne(x, state[position - 1]);
      position := position + 1;
      calls := calls + 1;
    }

    /**
     Two words, the low one first, as a double over 2^64. Both conversions and the two powers
     of two are exact; only the sum is rounded. So the result is below 1 except for the last
     1024 pairs, for which it is 1.
     */
    method UniformReal64() returns (r: real)
      requires Valid()
      modifies this`position, this`rounds, this`calls, state
      ensures Valid() && calls == old(calls) + 2
      ensures
        var low, high := Temper(Word(seed, DEGREE + old(calls))), Temper(Word(seed, DEGREE + old(calls) + 1));
        && r == Fraction(low, high) && 0.0 <= r <= 1.0
        && (r < 1.0 <==> !(Value(high) == 0xFFFF_FFFF && Value(low) >= 0xFFFF_FC00))
    {
      hide Temper, Word, Wide, Value, ToInteger, Fraction, RoundToDouble;
      ghost var x, y := Temper(Word(seed, DEGREE + calls)), Temper(Word(seed, DEGREE + calls + 1));
      var low := Uint32();
      var high := Uint32();
      IntegerOfWide(x);
      IntegerOfWide(y);
      FractionOf(x, y, ToInteger(low), ToInteger(high));
      BelowOneExactly(x, y);
      r := RoundToDouble(ToInteger(low) + ToInteger(high) * 0x1_0000_0000) as real / 18446744073709551616.0;
    }
  }
}
