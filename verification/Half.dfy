/**
 Conversion between single and half precision on bit patterns. A magnitude is an integer
 number of units of 2^-149, the least positive single; the half 0x7c00, infinity, takes the
 place of 2^16, as rounding to nearest wants it.
 */
module Half {

  function Pow2(n: nat): (p: nat)
    ensures p >= 1
  {
    if n == 0 then 1 else 2 * Pow2(n - 1)
  }

  lemma Pow2Step(n: nat)
    ensures Pow2(n + 1) == 2 * Pow2(n)
  {
  }

  lemma {:induction false} Pow2Add(a: nat, b: nat)
    ensures Pow2(a + b) == Pow2(a) * Pow2(b)
    decreases b
  {
    if b > 0 {
      Pow2Add(a, b - 1);
      assert Pow2(a + b) == 2 * Pow2(a + b - 1);
    }
  }

  lemma {:induction false} Pow2Monotone(a: nat, b: nat)
    requires a <= b
    ensures Pow2(a) <= Pow2(b)
    decreases b
  {
    if a < b {
      Pow2Monotone(a, b - 1);
    }
  }

  lemma Pow2Values()
    ensures Pow2(13) == 0x2000 && Pow2(24) == 0x100_0000 && Pow2(25) == 0x200_0000
  {
    assert Pow2(4) == 16;
    Pow2Add(4, 4);
    Pow2Add(8, 4);
    Pow2Add(12, 1);
    Pow2Add(12, 12);
    Pow2Add(12, 13);
  }

  lemma KnownPowers()
    ensures Pow2(10) == 0x400 && Pow2(0) == 1 && Pow2(1) == 2
  {
    assert Pow2(5) == 32;
    Pow2Add(5, 5);
  }

  type bits32 = x: int | 0 <= x < 0x1_0000_0000
  type bits16 = x: int | 0 <= x < 0x1_0000

  // ---------------------------------------------------------------- what the patterns mean

  function FloatSign(b: bits32): nat { b / 0x8000_0000 }
  function FloatExponent(b: bits32): nat { b / 0x80_0000 % 0x100 }
  function FloatFraction(b: bits32): nat { b % 0x80_0000 }

  function HalfSign(h: bits16): nat { h / 0x8000 }

  /** The pattern without its sign: 0x7c00 is infinity, what is greater is not a number. */
  function HalfBits(h: bits16): nat { h % 0x8000 }

  predicate FloatIsNan(b: bits32) { FloatExponent(b) == 0xff && FloatFraction(b) != 0 }
  predicate FloatIsInfinite(b: bits32) { FloatExponent(b) == 0xff && FloatFraction(b) == 0 }

  /** The magnitude of a finite single. */
  function FloatMagnitude(b: bits32): nat {
    if FloatExponent(b) == 0 then FloatFraction(b)
    else (0x80_0000 + FloatFraction(b)) * Pow2(FloatExponent(b) - 1)
  }

  /** The magnitude of a half pattern, in the same units. */
  function HalfMagnitude(m: nat): nat {
    if m < 0x400 then m * Pow2(125)
    else (0x400 + m % 0x400) * Pow2(124 + m / 0x400)
  }

  // ---------------------------------------------------------------- correct rounding

  /** Nearest to `v`, and even if two are nearest, by the two neighbours. */
  predicate RoundsTo(v: nat, m: nat) {
    && m <= 0x7c00
    && (0 < m ==> HalfMagnitude(m - 1) + HalfMagnitude(m) <= 2 * v)
    && (0 < m && m % 2 == 1 ==> HalfMagnitude(m - 1) + HalfMagnitude(m) < 2 * v)
    && (m < 0x7c00 ==> 2 * v <= HalfMagnitude(m) + HalfMagnitude(m + 1))
    && (m < 0x7c00 && m % 2 == 1 ==> 2 * v < HalfMagnitude(m) + HalfMagnitude(m + 1))
  }

  function Distance(a: nat, b: nat): nat {
    if a < b then b - a else a - b
  }

  /** Neighbouring halves, scaled: within a binade the step is constant. */
  lemma NextHalf(m: nat)
    requires m >= 0x400
    ensures HalfMagnitude(m + 1) == (0x400 + m % 0x400 + 1) * Pow2(124 + m / 0x400)
  {
    if m % 0x400 == 0x3ff {
      assert (m + 1) / 0x400 == m / 0x400 + 1 && (m + 1) % 0x400 == 0;
      assert Pow2(124 + m / 0x400 + 1) == 2 * Pow2(124 + m / 0x400);
    } else {
      assert (m + 1) / 0x400 == m / 0x400 && (m + 1) % 0x400 == m % 0x400 + 1;
    }
  }

  lemma HalvesIncrease(m: nat)
    ensures HalfMagnitude(m) < HalfMagnitude(m + 1)
  {
    if m >= 0x400 {
      NextHalf(m);
      Times(0x400 + m % 0x400, Pow2(124 + m / 0x400));
    } else {
      assert Pow2(125) >= 1;
      assert HalfMagnitude(m + 1) == (m + 1) * Pow2(125) by {
        if m == 0x3ff { assert (m + 1) / 0x400 == 1 && (m + 1) % 0x400 == 0; }
      }
      Times(m, Pow2(125));
    }
  }

  lemma Times(a: nat, p: nat)
    ensures (a + 1) * p == a * p + p
  {
  }

  lemma {:induction false} HalvesAreOrdered(m: nat, n: nat)
    requires m < n
    ensures HalfMagnitude(m) < HalfMagnitude(n)
    decreases n
  {
    hide HalfMagnitude;
    HalvesIncrease(n - 1);
    if m < n - 1 {
      HalvesAreOrdered(m, n - 1);
    }
  }

  /** No half is nearer, and one equally near is odd. */
  lemma RoundsToNearest(v: nat, m: nat, other: nat)
    requires RoundsTo(v, m) && other <= 0x7c00 && other != m
    ensures Distance(v, HalfMagnitude(m)) <= Distance(v, HalfMagnitude(other))
    ensures Distance(v, HalfMagnitude(m)) == Distance(v, HalfMagnitude(other)) ==> m % 2 == 0
  {
    hide HalfMagnitude;
    if other < m {
      if other < m - 1 { HalvesAreOrdered(other, m - 1); }
      HalvesAreOrdered(m - 1, m);
    } else {
      if m + 1 < other { HalvesAreOrdered(m + 1, other); }
      HalvesAreOrdered(m, m + 1);
    }
  }

  /** Greater magnitudes do not round to smaller halves; so the result is unique. */
  lemma RoundingIsMonotone(v: nat, m: nat, w: nat, n: nat)
    requires RoundsTo(v, m) && RoundsTo(w, n) && v <= w
    ensures m <= n
  {
    hide HalfMagnitude;
    if n < m {
      HalvesAreOrdered(n, n + 1);
      HalvesAreOrdered(m - 1, m);
      if n + 1 < m {
        HalvesAreOrdered(n + 1, m);
        HalvesAreOrdered(n, m - 1);
      }
    }
  }

  lemma HalfRoundsToItself(m: nat)
    requires m <= 0x7c00
    ensures RoundsTo(HalfMagnitude(m), m)
  {
    hide HalfMagnitude;
    HalvesIncrease(m);
    if m > 0 { HalvesIncrease(m - 1); }
  }

  // ---------------------------------------------------------------- float_to_half

  /** What `float_to_half` promises of every pattern. */
  predicate IsRounding(b: bits32, h: bits16) {
    && HalfSign(h) == FloatSign(b)
    && if FloatIsNan(b) then
         HalfBits(h) == 0x7c00 + if FloatFraction(b) < 0x2000 then 1 else FloatFraction(b) / 0x2000
       else if FloatIsInfinite(b) then HalfBits(h) == 0x7c00
       else RoundsTo(FloatMagnitude(b), HalfBits(h))
  }

  /** `sign | rest`, for a sign bit and what is below it. */
  function OrSign(sign: nat, rest: nat): (h: bits16)
    requires (sign == 0 || sign == 0x8000) && rest < 0x8000
    ensures HalfSign(h) == sign / 0x8000 && HalfBits(h) == rest
  {
    sign + rest
  }

  /** Rounds `whole + remainder / unit` to the nearest integer, ties to even. */
  predicate RoundsUp(rounded: nat, remainder: nat, unit: nat) {
    2 * remainder > unit || (2 * remainder == unit && rounded % 2 == 1)
  }

  lemma TooSmall(b: bits32)
    requires FloatExponent(b) < 102
    ensures RoundsTo(FloatMagnitude(b), 0)
  {
    hide Pow2;
    var e := FloatExponent(b);
    Pow2Values();
    SmallHalves(0);
    SmallHalves(1);
    if e == 0 {
      Pow2Monotone(24, 125);
    } else {
      Pow2Monotone(e - 1, 100);
      Pow2Add(100, 25);
      Bigger(0x80_0000 + FloatFraction(b), 0x100_0000, Pow2(e - 1), Pow2(100));
    }
  }

  lemma Bigger(a: nat, b: nat, p: nat, q: nat)
    requires a < b && p <= q && 1 <= q
    ensures a * p < b * q
  {
    assert a * p <= a * q < b * q;
  }

  lemma LargestHalf()
    ensures HalfMagnitude(0x7c00) == 0x80_0000 * Pow2(142)
  {
    hide Pow2;
    assert 0x7c00 / 0x400 == 31 && 0x7c00 % 0x400 == 0;
    Pow2Values();
    Pow2Add(142, 13);
  }

  /** Whatever is at least 2^16 rounds to infinity. */
  lemma LargeRounds(v: nat)
    requires 0x80_0000 * Pow2(142) <= v
    ensures RoundsTo(v, 0x7c00)
  {
    hide Pow2, HalfMagnitude;
    LargestHalf();
    HalvesIncrease(0x7bff);
  }

  lemma TooLarge(b: bits32)
    requires 142 < FloatExponent(b) < 0xff
    ensures RoundsTo(FloatMagnitude(b), 0x7c00)
  {
    hide Pow2, RoundsTo;
    var e := FloatExponent(b);
    Pow2Monotone(142, e - 1);
    AtLeast(0x80_0000 + FloatFraction(b), 0x80_0000, Pow2(e - 1), Pow2(142));
    LargeRounds(FloatMagnitude(b));
  }

  lemma AtLeast(a: nat, b: nat, p: nat, q: nat)
    requires a >= b && p >= q
    ensures a * p >= b * q
  {
    assert a * p >= b * p >= b * q;
  }

  /** The half patterns below 0x800 are equally spaced. */
  lemma SmallHalves(m: nat)
    requires m <= 0x800
    ensures HalfMagnitude(m) == m * Pow2(125)
  {
    hide Pow2;
    Pow2Step(125);
    if m >= 0x800 {
      assert m / 0x400 == 2 && m % 0x400 == 0;
    } else if m >= 0x400 {
      assert m / 0x400 == 1 && m % 0x400 == m - 0x400;
    }
  }

  function Rounded(f: nat, unit: nat): nat
    requires 0 < unit
  {
    Quotient(f, unit) + if RoundsUp(Quotient(f, unit), Remainder(f, unit), unit) then 1 else 0
  }

  /** `f >> n` and the bits shifted out, for a unit of 2^n. */
  function Quotient(f: nat, unit: nat): nat
    requires 0 < unit
  {
    f / unit
  }

  function Remainder(f: nat, unit: nat): nat
    requires 0 < unit
  {
    f % unit
  }

  /** A quotient rounded to nearest even. */
  lemma RoundedBounds(f: nat, unit: nat)
    requires 0 < unit
    ensures
      var m := Rounded(f, unit);
      && 2 * f <= (2 * m + 1) * unit && (m % 2 == 1 ==> 2 * f < (2 * m + 1) * unit)
      && (0 < m ==> (2 * m - 1) * unit <= 2 * f)
      && (0 < m && m % 2 == 1 ==> (2 * m - 1) * unit < 2 * f)
  {
    var q, r := f / unit, f % unit;
    assert f == q * unit + r;
    assert (2 * q + 1) * unit == 2 * (q * unit) + unit;
    assert (2 * q + 3) * unit == 2 * (q * unit) + 3 * unit;
    assert (2 * q - 1) * unit == 2 * (q * unit) - unit;
  }

  lemma Order(x: int, y: int, k: nat)
    requires 0 < k
    ensures x <= y ==> x * k <= y * k
    ensures x < y ==> x * k < y * k
  {
  }

  lemma TwoSteps(m: int, unit: nat, k: nat)
    ensures ((2 * m + 1) * unit) * k == 2 * (m * (unit * k)) + unit * k
    ensures ((2 * m - 1) * unit) * k == 2 * (m * (unit * k)) - unit * k
  {
    assert (m * unit) * k == m * (unit * k);
    assert (2 * m + 1) * unit == 2 * (m * unit) + unit && (2 * m - 1) * unit == 2 * (m * unit) - unit;
  }

  /** The magnitude `v` lies within half a step `p` of the rounded magnitude `g`, ties to even. */
  predicate Near(v: int, g: int, p: int, m: int) {
    && 2 * v <= 2 * g + p && (m % 2 == 1 ==> 2 * v < 2 * g + p)
    && (0 < m ==> 2 * g - p <= 2 * v)
    && (0 < m && m % 2 == 1 ==> 2 * g - p < 2 * v)
  }

  /** The rounded quotient, in units of 2^-149: `k` of them to a unit of the significand. */
  lemma ScaledBounds(f: nat, unit: nat, k: nat)
    requires 0 < k && 0 < unit
    ensures Near(f * k, Rounded(f, unit) * (unit * k), unit * k, Rounded(f, unit))
  {
    RoundedBounds(f, unit);
    var m: int := Rounded(f, unit);
    TwoSteps(m, unit, k);
    Order(2 * f, (2 * m + 1) * unit, k);
    Order((2 * m - 1) * unit, 2 * f, k);
    Double(f, k);
  }

  lemma Double(f: nat, k: nat)
    ensures (2 * f) * k == 2 * (f * k)
  {
  }

  /** The subnormal branch: the significand shifted right and rounded. */
  lemma SubnormalRounding(b: bits32)
    requires 102 <= FloatExponent(b) <= 112
    ensures
      var unit := Pow2(126 - FloatExponent(b));
      var m := Rounded(0x80_0000 + FloatFraction(b), unit);
      m <= 0x400 && RoundsTo(FloatMagnitude(b), m)
  {
    hide Pow2, HalfMagnitude, Rounded, RoundsTo, Near;
    var e, f := FloatExponent(b), 0x80_0000 + FloatFraction(b);
    var unit, k := Pow2(126 - e), Pow2(e - 1);
    var m := Rounded(f, unit);
    Pow2Add(126 - e, e - 1);
    SubnormalFits(f, e);
    ScaledBounds(f, unit, k);
    assert FloatMagnitude(b) == f * k;
    EvenlySpaced(f * k, m);
  }

  /** Among the equally spaced small halves, near is nearest. */
  lemma EvenlySpaced(v: nat, m: nat)
    requires m <= 0x400 && Near(v, m * Pow2(125), Pow2(125), m)
    ensures RoundsTo(v, m)
  {
    hide Pow2, HalfMagnitude, RoundsTo, Near;
    var p := Pow2(125);
    SmallHalves(m);
    SmallHalves(m + 1);
    Times(m, p);
    if m > 0 {
      SmallHalves(m - 1);
      Times(m - 1, p);
    }
    Among(v, m, m * p, p);
  }

  lemma Among(v: nat, m: nat, g: nat, p: nat)
    requires m <= 0x400 && Near(v, g, p, m)
    requires HalfMagnitude(m) == g && HalfMagnitude(m + 1) == g + p && (m > 0 ==> HalfMagnitude(m - 1) == g - p)
    ensures RoundsTo(v, m)
  {
    hide HalfMagnitude;
  }

  lemma SubnormalFits(f: nat, e: nat)
    requires f < 0x100_0000 && 102 <= e <= 112
    ensures Rounded(f, Pow2(126 - e)) <= 0x400
  {
    hide Pow2;
    Pow2Values();
    Pow2Monotone(13, 126 - e);
    Pow2Add(13, 1);
    FourteenBits();
    Pow2Monotone(14, 126 - e);
    QuotientFits(f, Pow2(126 - e));
  }

  lemma FourteenBits()
    ensures Pow2(14) == 0x4000
  {
    Pow2Values();
    assert Pow2(14) == 2 * Pow2(13);
  }

  lemma QuotientFits(f: nat, unit: nat)
    requires f < 0x100_0000 && 0x4000 <= unit
    ensures Rounded(f, unit) <= 0x400
  {
    var q := f / unit;
    assert q * unit <= f;
    if q >= 0x400 { AtLeast(q, 0x400, unit, 0x4000); }
  }

  /** The normal branch, where a carry out of the fraction is one more in the exponent field. */
  lemma NormalRounding(b: bits32)
    requires 113 <= FloatExponent(b) <= 142
    ensures
      var m := (FloatExponent(b) - 112) * 0x400 + Rounded(FloatFraction(b), 0x2000);
      m <= 0x7c00 && RoundsTo(FloatMagnitude(b), m)
  {
    hide Pow2, HalfMagnitude, Rounded, RoundsTo, FloatExponent, FloatFraction;
    FractionFits(b);
    NormalNumber(FloatExponent(b), FloatFraction(b));
  }

  lemma FractionFits(b: bits32)
    ensures FloatFraction(b) < 0x80_0000
  {
  }

  lemma NormalNumber(e: nat, fraction: nat)
    requires 113 <= e <= 142 && fraction < 0x80_0000
    ensures
      var m := (e - 112) * 0x400 + Rounded(fraction, 0x2000);
      m <= 0x7c00 && RoundsTo((0x80_0000 + fraction) * Pow2(e - 1), m)
  {
    hide *;
    var f, k, p := 0x80_0000 + fraction, Pow2(e - 1), Pow2(e + 12);
    var r := Rounded(fraction, 0x2000);
    HiddenBit(fraction);
    StepOfBinade(e);
    ScaledBounds(f, 0x2000, k);
    AboveBinade(f, k);
    NormalNeighbours(e - 112, r, p, (0x400 + r) * p);
    BetweenNeighbours(f * k, (e - 112) * 0x400 + r, 0x400 + r, p, (0x400 + r) * p);
  }

  lemma StepOfBinade(e: nat)
    requires 1 <= e
    ensures Pow2(e + 12) == 0x2000 * Pow2(e - 1)
  {
    hide Pow2;
    Pow2Values();
    Pow2Add(e - 1, 13);
  }

  /** A normal number is at least the least of its binade. */
  lemma AboveBinade(f: nat, k: nat)
    requires 0x80_0000 <= f
    ensures 0x400 * (0x2000 * k) <= f * k
  {
    AtLeast(f, 0x80_0000, k, k);
  }

  /** Near in steps of the binade is nearest by the neighbours. */
  lemma BetweenNeighbours(v: nat, m: nat, g: nat, p: nat, magnitude: nat)
    requires 0 < m <= 0x7c00 && m % 2 == g % 2 && 0x400 <= g && Near(v, magnitude, p, g)
    requires magnitude == g * p && 0x400 * p <= v
    requires HalfMagnitude(m) == magnitude && magnitude + p <= HalfMagnitude(m + 1) && HalfMagnitude(m - 1) < HalfMagnitude(m)
    requires 0x400 < g ==> HalfMagnitude(m - 1) == magnitude - p
    ensures RoundsTo(v, m)
  {
    hide HalfMagnitude;
    if g == 0x400 {
      assert magnitude <= v;
    }
  }

  /** The implicit leading bit does not change the rounding. */
  lemma HiddenBit(fraction: nat)
    requires fraction < 0x80_0000
    ensures Rounded(0x80_0000 + fraction, 0x2000) == 0x400 + Rounded(fraction, 0x2000)
    ensures Rounded(fraction, 0x2000) <= 0x400
  {
    assert (0x80_0000 + fraction) / 0x2000 == 0x400 + fraction / 0x2000;
    assert (0x80_0000 + fraction) % 0x2000 == fraction % 0x2000;
  }

  lemma NormalNeighbours(e: nat, r: nat, p: nat, g: nat)
    requires 1 <= e && r <= 0x400 && p == Pow2(124 + e) && g == (0x400 + r) * p
    ensures
      var m := e * 0x400 + r;
      && HalfMagnitude(m) == g
      && g + p <= HalfMagnitude(m + 1)
      && (r > 0 ==> HalfMagnitude(m - 1) == g - p)
      && HalfMagnitude(m - 1) < HalfMagnitude(m)
  {
    hide Pow2;
    var m := e * 0x400 + r;
    HalvesIncrease(m - 1);
    Times(0x400 + r, p);
    if r > 0 { Times(0x400 + r - 1, p); }
    if r < 0x400 {
      NextHalf(m);
      if r > 0 { assert (m - 1) / 0x400 == e && (m - 1) % 0x400 == r - 1; }
    } else {
      assert m / 0x400 == e + 1 && m % 0x400 == 0;
      assert (m - 1) / 0x400 == e && (m - 1) % 0x400 == 0x3ff;
      NextHalf(m);
      Pow2Step(124 + e);
      Doubled(p);
    }
  }

  lemma Doubled(p: nat)
    ensures 0x400 * (2 * p) == 0x800 * p && 0x401 * (2 * p) == 0x802 * p
  {
  }

  /** `float_to_half` */
  method FloatToHalf(bits: bits32) returns (h: bits16)
    ensures IsRounding(bits, h)
  {
    hide Pow2, FloatMagnitude, RoundsTo;
    var sign := if bits >= 0x8000_0000 then 0x8000 else 0;
    var exponentBits := bits / 0x80_0000 % 0x100;
    var fraction: nat := bits % 0x80_0000;
    if exponentBits == 0xff {
      if fraction == 0 {
        return OrSign(sign, 0x7c00);
      }
      fraction := fraction / 0x2000;
      if fraction == 0 {
        fraction := 1;
      }
      return OrSign(sign, 0x7c00 + fraction);
    }
    if exponentBits == 0 {
      TooSmall(bits);
      return OrSign(sign, 0);
    }
    var exponent := exponentBits - 127;
    if exponent < -14 {
      if exponent < -25 {
        TooSmall(bits);
        return OrSign(sign, 0);
      }
      SubnormalRounding(bits);
      var shift: nat := -exponent - 1;
      var rounded := RoundShifted(0x80_0000 + fraction, shift);
      return OrSign(sign, rounded);
    }
    if exponent > 15 {
      TooLarge(bits);
      return OrSign(sign, 0x7c00);
    }
    NormalRounding(bits);
    HiddenBit(fraction);
    var rounded := RoundShifted13(fraction);
    if rounded == 0x400 {
      rounded := 0;
      exponent := exponent + 1;
      if exponent > 15 {
        return OrSign(sign, 0x7c00);
      }
    }
    h := OrSign(sign, (exponent + 15) * 0x400 + rounded);
  }

  /** The comparison with the halfway point, common to both branches. */
  method RoundUp(quotient: nat, remainder: nat, halfway: nat, ghost unit: nat) returns (rounded: nat)
    requires unit == 2 * halfway
    ensures rounded == quotient + if RoundsUp(quotient, remainder, unit) then 1 else 0
  {
    rounded := quotient;
    if remainder > halfway || (remainder == halfway && rounded % 2 != 0) {
      rounded := rounded + 1;
    }
  }

  /** A right shift that rounds to nearest even, as the subnormal branch does it. */
  method RoundShifted(fraction: nat, shift: nat) returns (rounded: nat)
    requires 1 <= shift
    ensures rounded == Rounded(fraction, Pow2(shift))
  {
    hide Pow2, RoundsUp, Quotient, Remainder;
    Pow2Step(shift - 1);
    var unit, halfway := Pow2(shift), Pow2(shift - 1);
    rounded := RoundUp(Quotient(fraction, unit), Remainder(fraction, unit), halfway, unit);
  }

  method RoundShifted13(fraction: nat) returns (rounded: nat)
    ensures rounded == Rounded(fraction, 0x2000)
  {
    rounded := RoundUp(fraction / 0x2000, fraction % 0x2000, 0x1000, 0x2000);
  }

  // ---------------------------------------------------------------- half_to_float

  /** What `half_to_float` promises: the same sign, and the same magnitude or class. */
  predicate IsWidening(h: bits16, b: bits32) {
    && FloatSign(b) == HalfSign(h)
    && if HalfBits(h) >= 0x7c00 then FloatExponent(b) == 0xff && FloatFraction(b) == (HalfBits(h) - 0x7c00) * 0x2000
       else FloatExponent(b) < 0xff && FloatMagnitude(b) == HalfMagnitude(HalfBits(h))
  }

  function Assemble(sign: nat, exponent: nat, fraction: nat): (b: bits32)
    requires sign <= 1 && exponent < 0x100 && fraction < 0x80_0000
    ensures FloatSign(b) == sign && FloatExponent(b) == exponent && FloatFraction(b) == fraction
  {
    assert (sign * 0x100 + exponent) * 0x80_0000 == sign * 0x8000_0000 + exponent * 0x80_0000;
    (sign * 0x100 + exponent) * 0x80_0000 + fraction
  }

  /** A subnormal half, shifted until its leading bit is implicit. */
  lemma NormalizedMagnitude(fraction: nat, normalized: nat, shift: nat)
    requires shift <= 10 && normalized == fraction * Pow2(shift) && 0x400 <= normalized < 0x800
    ensures (0x80_0000 + (normalized - 0x400) * 0x2000) * Pow2(112 - shift) == fraction * Pow2(125)
  {
    hide Pow2;
    Pow2Values();
    Pow2Add(shift, 112 - shift);
    Pow2Add(112, 13);
    assert 0x80_0000 + (normalized - 0x400) * 0x2000 == normalized * 0x2000;
    Regroup(fraction, Pow2(shift), Pow2(112 - shift));
  }

  lemma Regroup(a: nat, p: nat, q: nat)
    ensures a * p * 0x2000 * q == a * (p * q * 0x2000)
  {
    assert a * p * 0x2000 * q == a * p * q * 0x2000;
    assert a * p * q == a * (p * q);
  }

  /** `half_to_float` */
  method HalfToFloat(h: bits16) returns (b: bits32)
    ensures IsWidening(h, b)
  {
    hide Pow2;
    var sign := h / 0x8000;
    var exponent := h / 0x400 % 0x20;
    var fraction := h % 0x400;
    assert HalfBits(h) == exponent * 0x400 + fraction;
    if exponent == 0 {
      if fraction == 0 {
        b := Assemble(sign, 0, 0);
        Zero(Pow2(125));
      } else {
        var normalized, shift: nat := Normalize(fraction);
        NormalizedMagnitude(fraction, normalized, shift);
        b := Assemble(sign, 127 - 15 - shift + 1, (normalized - 0x400) * 0x2000);
      }
    } else if exponent == 0x1f {
      b := Assemble(sign, 0xff, fraction * 0x2000);
    } else {
      b := Assemble(sign, exponent + 112, fraction * 0x2000);
      Pow2Values();
      Pow2Add(111 + exponent, 13);
      assert HalfBits(h) / 0x400 == exponent && HalfBits(h) % 0x400 == fraction;
      WidenNormal(fraction, Pow2(111 + exponent));
    }
  }

  lemma Zero(p: nat)
    ensures 0 * p == 0
  {
  }

  lemma WidenNormal(fraction: nat, k: nat)
    ensures (0x80_0000 + fraction * 0x2000) * k == (0x400 + fraction) * (k * 0x2000)
  {
    assert 0x80_0000 + fraction * 0x2000 == (0x400 + fraction) * 0x2000;
  }

  /** The normalization loop: shifts until bit 10 is set. */
  method Normalize(fraction: nat) returns (normalized: nat, shift: nat)
    requires 0 < fraction < 0x400
    ensures shift <= 10 && normalized == fraction * Pow2(shift) && 0x400 <= normalized < 0x800
  {
    normalized, shift := fraction, 0;
    assert Pow2(0) == 1;
    while normalized / 0x400 % 2 == 0
      invariant 0 < normalized < 0x800 && normalized == fraction * Pow2(shift)
      invariant Pow2(shift) <= normalized
      decreases 0x800 - normalized
    {
      assert Pow2(shift + 1) == 2 * Pow2(shift);
      normalized := normalized * 2;
      shift := shift + 1;
    }
    if shift > 10 {
      Pow2Monotone(11, shift);
      ElevenBits();
    }
  }

  lemma ElevenBits()
    ensures Pow2(11) == 0x800
  {
    assert Pow2(8) == 0x100;
  }

  // ---------------------------------------------------------------- together

  /** Widening a half and rounding it again gives the same pattern, for all of them, even those that are not numbers. */
  lemma RoundingInvertsWidening(h: bits16, b: bits32, back: bits16)
    requires IsWidening(h, b) && IsRounding(b, back)
    ensures back == h
  {
    hide HalfMagnitude, FloatMagnitude, RoundsTo;
    var m := HalfBits(h);
    if m < 0x7c00 {
      HalfRoundsToItself(m);
      RoundingIsMonotone(FloatMagnitude(b), m, FloatMagnitude(b), HalfBits(back));
      RoundingIsMonotone(FloatMagnitude(b), HalfBits(back), FloatMagnitude(b), m);
    }
    assert h == HalfSign(h) * 0x8000 + HalfBits(h) && back == HalfSign(back) * 0x8000 + HalfBits(back);
  }

  /** The signed value of a pattern that is a number; infinity counts as 2^16 or, for singles, as the next power of two. */
  function FloatValue(b: bits32): int {
    var m: int := FloatMagnitude(b);
    if FloatSign(b) == 1 then -m else m
  }

  function HalfValue(h: bits16): int {
    var m: int := HalfMagnitude(HalfBits(h));
    if HalfSign(h) == 1 then -m else m
  }

  lemma InfinityRounds(b: bits32, h: bits16)
    requires !FloatIsNan(b) && IsRounding(b, h)
    ensures RoundsTo(FloatMagnitude(b), HalfBits(h))
  {
    if FloatIsInfinite(b) {
      hide Pow2, RoundsTo;
      Pow2Monotone(142, 254);
      AtLeast(0x80_0000, 0x80_0000, Pow2(254), Pow2(142));
      LargeRounds(FloatMagnitude(b));
    }
  }

  lemma NotAbove(m: nat, n: nat)
    requires m <= n
    ensures HalfMagnitude(m) <= HalfMagnitude(n)
  {
    hide HalfMagnitude;
    if m < n { HalvesAreOrdered(m, n); }
  }

  /** Conversion is monotone on everything that is a number. */
  lemma ConversionIsMonotone(a: bits32, b: bits32, x: bits16, y: bits16)
    requires !FloatIsNan(a) && !FloatIsNan(b) && IsRounding(a, x) && IsRounding(b, y)
    requires FloatValue(a) <= FloatValue(b)
    ensures HalfValue(x) <= HalfValue(y)
  {
    InfinityRounds(a, x);
    InfinityRounds(b, y);
    hide HalfMagnitude, FloatMagnitude, RoundsTo;
    var v, w := FloatMagnitude(a), FloatMagnitude(b);
    if FloatSign(a) == 1 && FloatSign(b) == 1 {
      RoundingIsMonotone(w, HalfBits(y), v, HalfBits(x));
      NotAbove(HalfBits(y), HalfBits(x));
    } else if FloatSign(a) == 0 && FloatSign(b) == 0 {
      RoundingIsMonotone(v, HalfBits(x), w, HalfBits(y));
      NotAbove(HalfBits(x), HalfBits(y));
    } else if FloatSign(a) == 0 {
      RoundingIsMonotone(v, HalfBits(x), 0, 0) by { HalfRoundsToItself(0); ZeroHalf(); }
      RoundingIsMonotone(w, HalfBits(y), 0, 0) by { HalfRoundsToItself(0); ZeroHalf(); }
      ZeroHalf();
    }
  }

  lemma ZeroHalf()
    ensures HalfMagnitude(0) == 0
  {
  }

  // ---------------------------------------------------------------- known numbers

  lemma PowersNear149()
    ensures Pow2(149) == 0x400 * Pow2(139) == 0x80_0000 * Pow2(126)
    ensures Pow2(154) == 32 * Pow2(149) && Pow2(149) == 0x100 * Pow2(141)
  {
    assert Pow2(5) == 32;
    KnownPowers();
    Pow2Values();
    assert Pow2(13) == 0x2000;
    hide Pow2;
    Pow2Add(139, 10);
    Pow2Add(13, 10);
    Pow2Add(126, 23);
    Pow2Add(149, 5);
    Pow2Add(141, 8);
    Pow2Add(5, 3);
    Eight();
  }

  lemma Eight()
    ensures Pow2(3) == 8
  {
    assert Pow2(2) == 4;
  }

  /** One, the greatest half 65504, the least subnormals, and the sign. */
  lemma KnownMagnitudes()
    ensures FloatMagnitude(0x3f80_0000) == HalfMagnitude(0x3c00) == Pow2(149)
    ensures FloatMagnitude(0x477f_e000) == HalfMagnitude(0x7bff) == 65504 * Pow2(149)
    ensures FloatMagnitude(1) == 1 && HalfMagnitude(1) == Pow2(125)
    ensures FloatSign(0xbf80_0000) == HalfSign(0xbc00) == 1 && FloatMagnitude(0xbf80_0000) == Pow2(149) && HalfBits(0xbc00) == 0x3c00
  {
    hide Pow2;
    PowersNear149();
  }
}
