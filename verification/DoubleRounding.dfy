/**
 Rounding of a natural number to double precision, to nearest with ties to even: 53 bits are
 kept, so that in each binade the doubles are a power of two apart.
 */
module DoubleRounding {
  import opened Half

  /** 2^53: below it every number is a double. */
  const EXACT_LIMIT := 0x20_0000_0000_0000

  /** How far the doubles are apart at `n`, sought from `unit` on. */
  function SpacingFrom(n: nat, unit: nat): (spacing: nat)
    requires 0 < unit
    ensures unit <= spacing && n < EXACT_LIMIT * spacing
    ensures spacing == unit || EXACT_LIMIT * spacing <= 2 * n
    decreases n - unit
  {
    if n < EXACT_LIMIT * unit then unit else SpacingFrom(n, 2 * unit)
  }

  function RoundToDouble(n: nat): nat {
    var spacing := SpacingFrom(n, 1);
    Rounded(n, spacing) * spacing
  }

  lemma RoundedAtMost(f: nat, unit: nat, m: nat)
    requires 0 < unit && f < m * unit
    ensures Rounded(f, unit) <= m
  {
    var q := f / unit;
    assert q * unit <= f;
    if q >= m { AtLeast(q, m, unit, unit); }
  }

  /** The rounded number is within half a step, and at most the end of the binade. */
  lemma RoundToDoubleIsNear(n: nat)
    ensures
      var spacing, r := SpacingFrom(n, 1), RoundToDouble(n);
      2 * n - spacing <= 2 * r <= 2 * n + spacing && r <= EXACT_LIMIT * spacing
  {
    hide Rounded;
    var spacing := SpacingFrom(n, 1);
    RoundedBounds(n, spacing);
    RoundedAtMost(n, spacing, EXACT_LIMIT);
    var m: int := Rounded(n, spacing);
    assert (2 * m + 1) * spacing == 2 * (m * spacing) + spacing && (2 * m - 1) * spacing == 2 * (m * spacing) - spacing;
    AtLeast(EXACT_LIMIT, Rounded(n, spacing), spacing, spacing);
    if m == 0 { assert RoundToDouble(n) == 0; }
  }

  /** What 53 bits hold is not changed. */
  lemma SmallNumbersAreDoubles(n: nat)
    requires n < EXACT_LIMIT
    ensures RoundToDouble(n) == n
  {
    assert SpacingFrom(n, 1) == 1;
    assert n / 1 == n && n % 1 == 0;
  }

  /** Halfway between two doubles the even one is taken: above 2^53 down, and then up. */
  lemma KnownTies()
    ensures RoundToDouble(0x20_0000_0000_0001) == 0x20_0000_0000_0000
    ensures RoundToDouble(0x20_0000_0000_0003) == 0x20_0000_0000_0004
  {
    assert SpacingFrom(0x20_0000_0000_0001, 1) == SpacingFrom(0x20_0000_0000_0001, 2) == 2;
    assert SpacingFrom(0x20_0000_0000_0003, 1) == SpacingFrom(0x20_0000_0000_0003, 2) == 2;
  }

  /** In the last binade below 2^64 the doubles are 2048 apart. */
  lemma LastBinade(n: nat)
    requires 0x8000_0000_0000_0000 <= n < 0x1_0000_0000_0000_0000
    ensures SpacingFrom(n, 1) == 2048
  {
    assert SpacingFrom(n, 1024) == SpacingFrom(n, 2048) == 2048;
    assert SpacingFrom(n, 256) == SpacingFrom(n, 512) == SpacingFrom(n, 1024);
    assert SpacingFrom(n, 64) == SpacingFrom(n, 128) == SpacingFrom(n, 256);
    assert SpacingFrom(n, 16) == SpacingFrom(n, 32) == SpacingFrom(n, 64);
    assert SpacingFrom(n, 4) == SpacingFrom(n, 8) == SpacingFrom(n, 16);
    assert SpacingFrom(n, 1) == SpacingFrom(n, 2) == SpacingFrom(n, 4);
  }

  lemma LastRounding(n: nat)
    requires n < 0x1_0000_0000_0000_0000
    ensures Rounded(n, 2048) * 2048 == 0x1_0000_0000_0000_0000 <==> 0xFFFF_FFFF_FFFF_FC00 <= n
  {
  }

  /** A number below 2^64 stays below it, except the last 1024, which round up to it. */
  lemma RoundsToLimitExactly(n: nat)
    requires n < 0x1_0000_0000_0000_0000
    ensures RoundToDouble(n) <= 0x1_0000_0000_0000_0000
    ensures RoundToDouble(n) == 0x1_0000_0000_0000_0000 <==> 0xFFFF_FFFF_FFFF_FC00 <= n
  {
    RoundToDoubleIsNear(n);
    if 0x8000_0000_0000_0000 <= n {
      LastBinade(n);
      LastRounding(n);
    }
  }
}
