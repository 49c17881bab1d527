/**
 Quantizing activations to Q8_0 blocks, in exact arithmetic: the scalar form rounds ties away
 from zero, the AVX2 form rounds them to even and puts its 32 values back in order with two
 packs and a permutation.
 */
module Q8Quantize {
  import opened RealVectors
  import Q = Q8Dot

  function Abs(x: real): real {
    if x < 0.0 then -x else x
  }

  function Max(a: real, b: real): real {
    if b > a then b else a
  }

  // ---------------------------------------------------------------- rounding

  /** `roundf` */
  function RoundAway(x: real): int {
    if x >= 0.0 then (x + 0.5).Floor else -((0.5 - x).Floor)
  }

  /** `_MM_FROUND_TO_NEAREST_INT` */
  function RoundEven(x: real): int {
    var below := x.Floor;
    var rest := x - below as real;
    if rest < 0.5 then below
    else if rest > 0.5 then below + 1
    else if below % 2 == 0 then below
    else below + 1
  }

  function Round(x: real, even: bool): int {
    if even then RoundEven(x) else RoundAway(x)
  }

  lemma FloorBounds(x: real)
    ensures x.Floor as real <= x < x.Floor as real + 1.0
  {
  }

  lemma RoundIsNear(x: real, even: bool)
    ensures -0.5 <= Round(x, even) as real - x <= 0.5
  {
    FloorBounds(x);
    FloorBounds(x + 0.5);
    FloorBounds(0.5 - x);
  }

  /** Halfway between two integers the even one is taken, or the one further from zero. */
  lemma RoundOnTies(x: real, even: bool)
    requires Abs(Round(x, even) as real - x) == 0.5
    ensures if even then Round(x, even) % 2 == 0 else Abs(Round(x, even) as real) > Abs(x)
  {
    FloorBounds(x);
    FloorBounds(x + 0.5);
    FloorBounds(0.5 - x);
  }

  lemma RoundKeepsRange(x: real, even: bool)
    requires -127.0 <= x <= 127.0
    ensures -127 <= Round(x, even) <= 127
  {
    RoundIsNear(x, even);
  }

  /** Halfway between two integers, of which the smaller in magnitude is even. */
  predicate IsTieAboveEven(x: real) {
    var n := Abs(x).Floor;
    n % 2 == 0 && Abs(x) == n as real + 0.5
  }

  /** The two forms disagree on exactly these inputs. */
  lemma RoundingsAgreeExactly(x: real)
    ensures RoundAway(x) == RoundEven(x) <==> !IsTieAboveEven(x)
  {
    if x >= 0.0 {
      AgreeOnPositive(x);
    } else {
      FloorOfNegative(x);
      AgreeOnPositive(-x);
      RoundEvenOfNegative(x);
    }
  }

  lemma AgreeOnPositive(x: real)
    requires 0.0 <= x
    ensures RoundAway(x) == RoundEven(x) <==> !IsTieAboveEven(x)
  {
    FloorBounds(x);
    FloorBounds(x + 0.5);
    var n := x.Floor;
    assert (x + 0.5).Floor == if x - n as real < 0.5 then n else n + 1;
  }

  lemma FloorOfNegative(x: real)
    ensures (-x).Floor == if x.Floor as real == x then -x.Floor else -x.Floor - 1
  {
    FloorBounds(x);
    FloorBounds(-x);
  }

  /** Rounding to even does not depend on the sign. */
  lemma RoundEvenOfNegative(x: real)
    ensures RoundEven(-x) == -RoundEven(x)
  {
    FloorOfNegative(x);
    FloorBounds(x);
  }

  // ---------------------------------------------------------------- one block

  /** The greatest magnitude of the first `n` inputs. */
  function MaxAbs(xs: seq<real>, n: nat): (m: real)
    requires n <= |xs|
    ensures 0.0 <= m
  {
    if n == 0 then 0.0 else Max(MaxAbs(xs, n - 1), Abs(xs[n - 1]))
  }

  lemma {:induction false} MaxAbsBounds(xs: seq<real>, n: nat, i: nat)
    requires i < n <= |xs|
    ensures Abs(xs[i]) <= MaxAbs(xs, n)
    decreases n
  {
    if i < n - 1 { MaxAbsBounds(xs, n - 1, i); }
  }

  /** It is one of them, or zero. */
  lemma {:induction false} MaxAbsIsTaken(xs: seq<real>, n: nat)
    requires n <= |xs|
    ensures MaxAbs(xs, n) == 0.0 || exists i | 0 <= i < n :: MaxAbs(xs, n) == Abs(xs[i])
    decreases n
  {
    if n > 0 { MaxAbsIsTaken(xs, n - 1); }
  }

  lemma {:induction false} MaxAbsIsLeast(xs: seq<real>, n: nat, bound: real)
    requires n <= |xs| && 0.0 <= bound && forall i | 0 <= i < n :: Abs(xs[i]) <= bound
    ensures MaxAbs(xs, n) <= bound
    decreases n
  {
    if n > 0 { MaxAbsIsLeast(xs, n - 1, bound); }
  }

  function Inverse(maximum: real): real {
    if maximum != 0.0 then 127.0 / maximum else 0.0
  }

  function ScaleBy(x: real, inverse: real): real {
    x * inverse
  }

  function Scaled(x: real, maximum: real): real {
    ScaleBy(x, Inverse(maximum))
  }

  function Quantized(x: real, maximum: real, even: bool): int {
    Round(Scaled(x, maximum), even)
  }

  /** The least difference between two quantized values. */
  function Step(maximum: real): real {
    maximum / 127.0
  }

  lemma InRange(x: real, maximum: real)
    requires Abs(x) <= maximum
    ensures -127.0 <= Scaled(x, maximum) <= 127.0
    ensures Times(Scaled(x, maximum), Step(maximum)) == x
  {
    if maximum == 0.0 {
      assert x == 0.0 && Inverse(maximum) == 0.0;
    } else {
      InverseOf(maximum);
      var i, step := Inverse(maximum), Step(maximum);
      Reassociate(x, i, step);
      Below(x, maximum, i);
      Below(-x, maximum, i);
    }
  }

  lemma InverseOf(maximum: real)
    requires 0.0 < maximum
    ensures 0.0 < Inverse(maximum) && Inverse(maximum) * maximum == 127.0 && Inverse(maximum) * Step(maximum) == 1.0
  {
    var i := 127.0 / maximum;
    assert i * maximum == 127.0;
    assert maximum == Step(maximum) * 127.0;
    assert i * (Step(maximum) * 127.0) == i * Step(maximum) * 127.0;
  }

  lemma Reassociate(x: real, i: real, step: real)
    requires i * step == 1.0
    ensures x * i * step == x
  {
    assert x * i * step == x * (i * step);
  }

  lemma Below(x: real, m: real, i: real)
    requires x <= m && 0.0 < i && i * m == 127.0
    ensures x * i <= 127.0
    ensures (-x) * i == -(x * i)
  {
    TimesMonotone(i, x, m);
  }

  lemma TimesMonotone(k: real, x: real, y: real)
    requires 0.0 <= k && x <= y
    ensures k * x <= k * y
  {
  }

  /** Every quantized value fits, is never -128, and is within half a step of its input. */
  lemma QuantizedIsClose(x: real, maximum: real, even: bool)
    requires Abs(x) <= maximum
    ensures -127 <= Quantized(x, maximum, even) <= 127
    ensures 2.0 * Abs(Times(Quantized(x, maximum, even) as real, Step(maximum)) - x) <= Step(maximum)
  {
    hide Round, Scaled, Step, Times, Abs;
    InRange(x, maximum);
    var y, step := Scaled(x, maximum), Step(maximum);
    RoundIsNear(y, even);
    RoundKeepsRange(y, even);
    NotNegative(x);
    StepIsPositive(maximum);
    StepError(Round(y, even) as real, y, step);
  }

  lemma StepIsPositive(maximum: real)
    ensures 0.0 <= maximum ==> 0.0 <= Step(maximum)
  {
  }

  lemma StepError(q: real, y: real, step: real)
    requires -0.5 <= q - y <= 0.5 && 0.0 <= step
    ensures 2.0 * Abs(Times(q, step) - Times(y, step)) <= step
  {
    hide Abs, Times;
    Difference(q, y, step);
    Small(q - y, step);
    AbsBound(Times(q - y, step), step);
  }

  lemma AbsBound(e: real, step: real)
    requires -step <= 2.0 * e <= step
    ensures 2.0 * Abs(e) <= step
  {
  }

  lemma Difference(q: real, y: real, step: real)
    ensures Times(q - y, step) == Times(q, step) - Times(y, step)
  {
  }

  lemma Small(d: real, step: real)
    requires -0.5 <= d <= 0.5 && 0.0 <= step
    ensures -step <= 2.0 * Times(d, step) <= step
  {
    var half := step / 2.0;
    assert half >= 0.0 && step == 2.0 * half;
    var twice := 2.0 * d;
    assert Times(d, step) == twice * half;
    UnitTimes(twice, half);
  }

  lemma NotNegativeProduct(a: real, b: real)
    requires 0.0 <= a && 0.0 <= b
    ensures 0.0 <= a * b
  {
  }

  lemma UnitTimes(d: real, k: real)
    requires -1.0 <= d <= 1.0 && 0.0 <= k
    ensures -k <= d * k <= k
  {
    NotNegativeProduct(1.0 - d, k);
    NotNegativeProduct(1.0 + d, k);
    assert (1.0 - d) * k == k - d * k && (1.0 + d) * k == k + d * k;
  }

  function SignedByte(x: nat): Q.int8
    requires x < 256
  {
    if x < 128 then x else x - 256
  }

  /** A half precision pattern, low byte first. */
  function ScaleBytes(bits: nat): seq<Q.int8>
    requires bits < 0x1_0000
  {
    [SignedByte(bits % 256), SignedByte(bits / 256)]
  }

  function QuantizedByte(x: real, maximum: real, even: bool): (q: Q.int8)
    requires Abs(x) <= maximum
    ensures q != -128
  {
    QuantizedIsClose(x, maximum, even);
    Quantized(x, maximum, even)
  }

  /** The 32 values of a block. */
  function BlockValues(xs: seq<real>, even: bool): (q: seq<Q.int8>)
    requires |xs| == 32
    ensures |q| == 32 && Q.Symmetric(q)
  {
    seq(32, i requires 0 <= i < 32 => (MaxAbsBounds(xs, 32, i); QuantizedByte(xs[i], MaxAbs(xs, 32), even)))
  }

  // ---------------------------------------------------------------- the maximum by lanes

  function AbsLanes(v: Lanes): Lanes {
    seq(8, i requires 0 <= i < 8 => Abs(v[i]))
  }

  function MaxLanes(a: Lanes, b: Lanes): Lanes {
    seq(8, i requires 0 <= i < 8 => Max(a[i], b[i]))
  }

  /** The lane-wise maximum of four registers. */
  function LaneMaxima(v0: Lanes, v1: Lanes, v2: Lanes, v3: Lanes): Lanes {
    MaxLanes(MaxLanes(MaxLanes(AbsLanes(v0), AbsLanes(v1)), AbsLanes(v2)), AbsLanes(v3))
  }

  /** Halves, then pairs, then the last two. */
  function ReduceMax(m: Lanes): real {
    var max4 := [Max(m[4], m[0]), Max(m[5], m[1]), Max(m[6], m[2]), Max(m[7], m[3])];
    var max2 := [Max(max4[0], max4[2]), Max(max4[1], max4[3])];
    Max(max2[0], max2[1])
  }

  /** The greatest magnitude as the AVX2 form finds it. */
  function VectorMax(xs: seq<real>): real
    requires |xs| == 32
  {
    ReduceMax(LaneMaxima(xs[..8], xs[8..16], xs[16..24], xs[24..]))
  }

  lemma ReduceMaxIsGreatest(m: Lanes)
    ensures forall j | 0 <= j < 8 :: m[j] <= ReduceMax(m)
    ensures exists j | 0 <= j < 8 :: m[j] == ReduceMax(m)
  {
    var r := ReduceMax(m);
    assert r == m[0] || r == m[1] || r == m[2] || r == m[3] || r == m[4] || r == m[5] || r == m[6] || r == m[7];
  }

  lemma LaneMaximaAreGreatest(v0: Lanes, v1: Lanes, v2: Lanes, v3: Lanes, j: nat)
    requires j < 8
    ensures var m := LaneMaxima(v0, v1, v2, v3)[j];
      && Abs(v0[j]) <= m && Abs(v1[j]) <= m && Abs(v2[j]) <= m && Abs(v3[j]) <= m
      && (m == Abs(v0[j]) || m == Abs(v1[j]) || m == Abs(v2[j]) || m == Abs(v3[j]))
  {
  }

  /** The lane-wise reduction is the greatest magnitude of the block. */
  lemma VectorMaximum(xs: seq<real>)
    requires |xs| == 32
    ensures VectorMax(xs) == MaxAbs(xs, 32)
  {
    hide LaneMaxima, ReduceMax, Abs;
    var v0: Lanes, v1: Lanes, v2: Lanes, v3: Lanes := xs[..8], xs[8..16], xs[16..24], xs[24..];
    var lanes := LaneMaxima(v0, v1, v2, v3);
    var m := ReduceMax(lanes);
    ReduceMaxIsGreatest(lanes);
    forall i | 0 <= i < 32 ensures Abs(xs[i]) <= m {
      LaneMaximaAreGreatest(v0, v1, v2, v3, i % 8);
      assert xs[i] == [v0, v1, v2, v3][i / 8][i % 8];
    }
    var j :| 0 <= j < 8 && lanes[j] == m;
    LaneMaximaAreGreatest(v0, v1, v2, v3, j);
    MaxAbsBounds(xs, 32, j);
    MaxAbsBounds(xs, 32, j + 8);
    MaxAbsBounds(xs, 32, j + 16);
    MaxAbsBounds(xs, 32, j + 24);
    NotNegative(xs[j]);
    MaxAbsIsLeast(xs, 32, m);
  }

  lemma NotNegative(x: real)
    ensures 0.0 <= Abs(x)
  {
  }

  // ---------------------------------------------------------------- the packs and the permutation

  function Saturate8(x: int): Q.int8 {
    if x < -128 then -128 else if x > 127 then 127 else x
  }

  function Map<T, U>(f: T -> U, s: seq<T>): (r: seq<U>)
    ensures |r| == |s|
  {
    seq(|s|, i requires 0 <= i < |s| => f(s[i]))
  }

  /** `_mm256_packs_epi32`: each 128-bit half takes four values of either source. */
  function PacksEpi32(a: seq<int>, b: seq<int>): (r: seq<int>)
    requires |a| == |b| == 8
    ensures |r| == 16
  {
    Map(Q.Saturate16, a[..4]) + Map(Q.Saturate16, b[..4]) + Map(Q.Saturate16, a[4..]) + Map(Q.Saturate16, b[4..])
  }

  /** `_mm256_packs_epi16` */
  function PacksEpi16(a: seq<int>, b: seq<int>): (r: seq<Q.int8>)
    requires |a| == |b| == 16
    ensures |r| == 32
  {
    Map(Saturate8, a[..8]) + Map(Saturate8, b[..8]) + Map(Saturate8, a[8..]) + Map(Saturate8, b[8..])
  }

  function Dword(p: seq<Q.int8>, j: nat): (r: seq<Q.int8>)
    requires |p| == 32 && j < 8
    ensures |r| == 4
  {
    p[4 * j..4 * j + 4]
  }

  /** `_mm256_permutevar8x32_epi32` with 0, 4, 1, 5, 2, 6, 3, 7. */
  function Permute(p: seq<Q.int8>): (r: seq<Q.int8>)
    requires |p| == 32
    ensures |r| == 32
  {
    Dword(p, 0) + Dword(p, 4) + Dword(p, 1) + Dword(p, 5) + Dword(p, 2) + Dword(p, 6) + Dword(p, 3) + Dword(p, 7)
  }

  predicate Small8(s: seq<int>) {
    forall i | 0 <= i < |s| :: -128 <= s[i] <= 127
  }

  lemma SaturationKeeps(s: seq<int>)
    requires Small8(s)
    ensures Map(Q.Saturate16, s) == s && Map(Saturate8, s) == s
  {
    var wide, narrow := Map(Q.Saturate16, s), Map(Saturate8, s);
    forall i | 0 <= i < |s| ensures wide[i] == s[i] && narrow[i] == s[i] {
      assert wide[i] == Q.Saturate16(s[i]) && narrow[i] == Saturate8(s[i]);
    }
  }

  /** The permutation undoes the interleaving of the packs. */
  lemma PacksAndPermutationRestoreOrder(a: seq<int>, b: seq<int>, c: seq<int>, d: seq<int>)
    requires |a| == |b| == |c| == |d| == 8
    requires Small8(a) && Small8(b) && Small8(c) && Small8(d)
    ensures Permute(PacksEpi16(PacksEpi32(a, b), PacksEpi32(c, d))) == a + b + c + d
  {
    hide Permute, Small8, Map, Dword;
    PacksOf(a, b);
    PacksOf(c, d);
    var ab, cd := PacksEpi32(a, b), PacksEpi32(c, d);
    HalvesOf(a[..4], b[..4], a[4..], b[4..], ab);
    HalvesOf(c[..4], d[..4], c[4..], d[4..], cd);
    SmallParts(a, b);
    SmallParts(c, d);
    SaturationKeeps(a[..4] + b[..4]);
    SaturationKeeps(c[..4] + d[..4]);
    SaturationKeeps(a[4..] + b[4..]);
    SaturationKeeps(c[4..] + d[4..]);
    var p: seq<int> := a[..4] + b[..4] + c[..4] + d[..4] + a[4..] + b[4..] + c[4..] + d[4..];
    Order(a[..4], b[..4], c[..4], d[..4], a[4..], b[4..], c[4..], d[4..], PacksEpi16(ab, cd));
    assert a == a[..4] + a[4..] && b == b[..4] + b[4..] && c == c[..4] + c[4..] && d == d[..4] + d[4..];
  }

  lemma SmallParts(a: seq<int>, b: seq<int>)
    requires |a| == |b| == 8 && Small8(a) && Small8(b)
    ensures Small8(a[..4] + b[..4]) && Small8(a[4..] + b[4..])
  {
  }

  lemma PacksOf(a: seq<int>, b: seq<int>)
    requires |a| == |b| == 8 && Small8(a) && Small8(b)
    ensures PacksEpi32(a, b) == a[..4] + b[..4] + a[4..] + b[4..]
  {
    SaturationKeeps(a[..4]);
    SaturationKeeps(b[..4]);
    SaturationKeeps(a[4..]);
    SaturationKeeps(b[4..]);
  }

  lemma HalvesOf(p: seq<int>, q: seq<int>, r: seq<int>, s: seq<int>, all: seq<int>)
    requires |p| == |q| == |r| == |s| == 4 && all == p + q + r + s
    ensures all[..8] == p + q && all[8..] == r + s
  {
  }

  lemma FourParts(p0: seq<int>, p1: seq<int>, p2: seq<int>, p3: seq<int>, rest: seq<int>, all: seq<int>)
    requires |p0| == |p1| == |p2| == |p3| == 4 && all == ((p0 + p1) + (p2 + p3)) + rest
    ensures all[0..4] == p0 && all[4..8] == p1 && all[8..12] == p2 && all[12..16] == p3
  {
    var front := (p0 + p1) + (p2 + p3);
    assert front[0..4] == p0 && front[4..8] == p1 && front[8..12] == p2 && front[12..16] == p3;
    assert all[..16] == front;
    assert all[0..4] == all[..16][0..4] && all[4..8] == all[..16][4..8];
    assert all[8..12] == all[..16][8..12] && all[12..16] == all[..16][12..16];
  }

  lemma LastParts(first: seq<int>, p4: seq<int>, p5: seq<int>, p6: seq<int>, p7: seq<int>, all: seq<int>)
    requires |first| == 16 && |p4| == |p5| == |p6| == |p7| == 4 && all == first + ((p4 + p5) + (p6 + p7))
    ensures all[16..20] == p4 && all[20..24] == p5 && all[24..28] == p6 && all[28..32] == p7
  {
    var rest := (p4 + p5) + (p6 + p7);
    FourParts(p4, p5, p6, p7, [], rest);
    assert all[16..] == rest;
    assert all[16..20] == all[16..][0..4] && all[20..24] == all[16..][4..8];
    assert all[24..28] == all[16..][8..12] && all[28..32] == all[16..][12..16];
  }

  lemma Order(p0: seq<int>, p1: seq<int>, p2: seq<int>, p3: seq<int>, p4: seq<int>, p5: seq<int>, p6: seq<int>, p7: seq<int>, all: seq<Q.int8>)
    requires |p0| == |p1| == |p2| == |p3| == |p4| == |p5| == |p6| == |p7| == 4
    requires all == (p0 + p1) + (p2 + p3) + (p4 + p5) + (p6 + p7)
    ensures |all| == 32 && Permute(all) == p0 + p4 + p1 + p5 + p2 + p6 + p3 + p7
  {
    var first, second := (p0 + p1) + (p2 + p3), (p4 + p5) + (p6 + p7);
    assert all == first + second;
    FourParts(p0, p1, p2, p3, second, all);
    LastParts(first, p4, p5, p6, p7, all);
  }

  // ---------------------------------------------------------------- the loops

  type bits16 = x: int | 0 <= x < 0x1_0000

  function Inputs(xs: seq<real>, b: nat): (block: seq<real>)
    requires 32 * b + 32 <= |xs|
    ensures |block| == 32
  {
    xs[32 * b..32 * b + 32]
  }

  /** The half precision scale of a block; the conversion is the parameter `toHalf`. */
  function Scale(toHalf: real -> bits16, xs: seq<real>): bits16
    requires |xs| == 32
  {
    toHalf(Step(MaxAbs(xs, 32)))
  }

  /** The 34 bytes of a block. */
  function BlockBytes(toHalf: real -> bits16, xs: seq<real>, even: bool): (bytes: seq<Q.int8>)
    requires |xs| == 32
    ensures |bytes| == 34
  {
    ScaleBytes(Scale(toHalf, xs)) + BlockValues(xs, even)
  }

  /** Room for the blocks and scales of `input` values. */
  predicate Fits(input: nat, output: nat, scales: nat) {
    input / 32 * 34 <= output && input / 32 <= scales
  }

  /** The first `n` blocks of the output and their scales. */
  predicate Encoded(toHalf: real -> bits16, half: nat -> real, xs: seq<real>, bytes: seq<Q.int8>, scales: seq<real>, n: nat, even: bool)
    requires 32 * n <= |xs| && 34 * n <= |bytes| && n <= |scales|
  {
    forall b | 0 <= b < n ::
      && bytes[34 * b..34 * b + 34] == BlockBytes(toHalf, Inputs(xs, b), even)
      && scales[b] == half(Scale(toHalf, Inputs(xs, b)))
  }

  /** Writing block `n` behind what is there keeps the earlier blocks. */
  lemma OneMoreEncoded(toHalf: real -> bits16, half: nat -> real, xs: seq<real>, bytes: seq<Q.int8>, scales: seq<real>,
    later: seq<Q.int8>, laterScales: seq<real>, n: nat, even: bool)
    requires 32 * n + 32 <= |xs| && 34 * n + 34 <= |bytes| == |later| && n < |scales| == |laterScales|
    requires Encoded(toHalf, half, xs, bytes, scales, n, even)
    requires later[..34 * n] == bytes[..34 * n] && later[34 * n..34 * n + 34] == BlockBytes(toHalf, Inputs(xs, n), even)
    requires laterScales == scales[n := half(Scale(toHalf, Inputs(xs, n)))]
    ensures Encoded(toHalf, half, xs, later, laterScales, n + 1, even)
  {
    hide BlockBytes, Scale, Inputs;
    forall b | 0 <= b < n ensures later[34 * b..34 * b + 34] == bytes[34 * b..34 * b + 34] {
      assert later[34 * b..34 * b + 34] == later[..34 * n][34 * b..34 * b + 34];
      assert bytes[34 * b..34 * b + 34] == bytes[..34 * n][34 * b..34 * b + 34];
    }
  }

  /** The running maximum of the scalar form. */
  method ScalarMaximum(input: array<real>, offset: nat) returns (maximum: real)
    requires offset + 32 <= input.Length
    ensures maximum == MaxAbs(input[..][offset..offset + 32], 32)
  {
    maximum := 0.0;
    ghost var xs := input[..][offset..offset + 32];
    for i := 0 to 32
      invariant maximum == MaxAbs(xs, i)
    {
      var magnitude := Abs(input[offset + i]);
      assert xs[i] == input[offset + i];
      if magnitude > maximum {
        maximum := magnitude;
      }
    }
  }

  /** Copies a pattern and the values behind it to a block of the output. */
  method Store(output: array<Q.int8>, at: nat, bits: bits16, values: seq<Q.int8>)
    requires at + 34 <= output.Length && |values| == 32
    modifies output
    ensures output[..at] == old(output[..at])
    ensures output[..][at..at + 34] == ScaleBytes(bits) + values
  {
    output[at] := SignedByte(bits % 256);
    output[at + 1] := SignedByte(bits / 256);
    forall k | 0 <= k < 32 {
      output[at + 2 + k] := values[k];
    }
    ghost var bytes := ScaleBytes(bits) + values;
    forall k | 0 <= k < 34 ensures output[..][at..at + 34][k] == bytes[k] {
      assert output[..][at..at + 34][k] == output[at + k];
      if k >= 2 { assert output[at + 2 + (k - 2)] == values[k - 2]; }
    }
  }

  /** The values of a block by the scalar form. */
  method ScalarValues(input: array<real>, offset: nat, maximum: real) returns (values: seq<Q.int8>)
    requires offset + 32 <= input.Length && maximum == MaxAbs(input[..][offset..offset + 32], 32)
    ensures values == BlockValues(input[..][offset..offset + 32], false)
  {
    hide MaxAbs, Round, ScaleBy;
    ghost var xs := input[..][offset..offset + 32];
    var inverse := Inverse(maximum);
    values := [];
    for i := 0 to 32
      invariant |values| == i && values == BlockValues(xs, false)[..i]
    {
      assert xs[i] == input[offset + i];
      MaxAbsBounds(xs, 32, i);
      QuantizedIsClose(xs[i], maximum, false);
      var scaled := ScaleBy(input[offset + i], inverse);
      RoundOf(scaled);
      var q := RoundAway(scaled);
      assert q == Quantized(xs[i], maximum, false);
      values := values + [q];
    }
  }

  lemma RoundOf(x: real)
    ensures Round(x, false) == RoundAway(x) && Round(x, true) == RoundEven(x)
  {
  }

  /** `q8_quantize_scalar` */
  method QuantizeScalar(toHalf: real -> bits16, half: nat -> real, input: array<real>, output: array<Q.int8>, scales: array<real>)
    requires input.Length % 32 == 0 && Fits(input.Length, output.Length, scales.Length) && scales != input
    modifies output, scales
    ensures Encoded(toHalf, half, input[..], output[..], scales[..], input.Length / 32, false)
  {
    ghost var xs := input[..];
    for block := 0 to input.Length / 32
      invariant input[..] == xs && Encoded(toHalf, half, xs, output[..], scales[..], block, false)
    {
      var maximum := ScalarMaximum(input, 32 * block);
      var scaleBits := toHalf(maximum / 127.0);
      var values := ScalarValues(input, 32 * block, maximum);
      ghost var bytes, before := output[..], scales[..];
      scales[block] := half(scaleBits);
      Store(output, 34 * block, scaleBits, values);
      OneMoreEncoded(toHalf, half, xs, bytes, before, output[..], scales[..], block, false);
    }
  }

  function RoundedLanes(v: Lanes, inverse: real): (q: seq<int>)
    ensures |q| == 8
  {
    seq(8, i requires 0 <= i < 8 => RoundEven(ScaleBy(v[i], inverse)))
  }

  lemma LanesFit(xs: seq<real>, k: nat)
    requires |xs| == 32 && k <= 24
    ensures
      var q := RoundedLanes(xs[k..k + 8], Inverse(MaxAbs(xs, 32)));
      Small8(q) && q == BlockValues(xs, true)[k..k + 8]
  {
    hide MaxAbs, Round, Inverse, ScaleBy, RoundEven;
    var maximum := MaxAbs(xs, 32);
    var q := RoundedLanes(xs[k..k + 8], Inverse(maximum));
    forall i | 0 <= i < 8 ensures -128 <= q[i] <= 127 && q[i] == BlockValues(xs, true)[k + i] {
      MaxAbsBounds(xs, 32, k + i);
      QuantizedIsClose(xs[k + i], maximum, true);
      RoundOf(Scaled(xs[k + i], maximum));
      assert xs[k..k + 8][i] == xs[k + i];
    }
  }

  /** The stored register of the AVX2 form. */
  function PackedValues(xs: seq<real>): (values: seq<Q.int8>)
    requires |xs| == 32
    ensures |values| == 32
  {
    var v0: Lanes, v1: Lanes, v2: Lanes, v3: Lanes := xs[..8], xs[8..16], xs[16..24], xs[24..];
    var inverse := Inverse(VectorMax(xs));
    Permute(PacksEpi16(
      PacksEpi32(RoundedLanes(v0, inverse), RoundedLanes(v1, inverse)),
      PacksEpi32(RoundedLanes(v2, inverse), RoundedLanes(v3, inverse))))
  }

  /** The AVX2 form quantizes every input in its place. */
  lemma PackedValuesAreInOrder(xs: seq<real>)
    requires |xs| == 32
    ensures PackedValues(xs) == BlockValues(xs, true)
  {
    hide RoundedLanes, Permute, PacksEpi16, PacksEpi32, MaxAbs, VectorMax, BlockValues, Small8, Inverse;
    VectorMaximum(xs);
    LanesFit(xs, 0);
    LanesFit(xs, 8);
    LanesFit(xs, 16);
    LanesFit(xs, 24);
    var inverse := Inverse(MaxAbs(xs, 32));
    var v := BlockValues(xs, true);
    assert xs[0..8] == xs[..8] && xs[24..32] == xs[24..];
    PacksAndPermutationRestoreOrder(RoundedLanes(xs[..8], inverse), RoundedLanes(xs[8..16], inverse),
      RoundedLanes(xs[16..24], inverse), RoundedLanes(xs[24..], inverse));
    assert v == v[0..8] + v[8..16] + v[16..24] + v[24..32];
  }

  /** `q8_quantize_avx2` */
  method QuantizeAvx2(toHalf: real -> bits16, half: nat -> real, input: array<real>, output: array<Q.int8>, scales: array<real>)
    requires input.Length % 32 == 0 && Fits(input.Length, output.Length, scales.Length) && scales != input
    modifies output, scales
    ensures Encoded(toHalf, half, input[..], output[..], scales[..], input.Length / 32, true)
  {
    hide Encoded, BlockValues, PackedValues, VectorMax, MaxAbs;
    ghost var xs := input[..];
    EncodedNothing(toHalf, half, xs, output[..], scales[..], true);
    for block := 0 to input.Length / 32
      invariant input[..] == xs && Encoded(toHalf, half, xs, output[..], scales[..], block, true)
    {
      var v := input[..][32 * block..32 * block + 32];
      assert |v| == 32;
      var maximum := VectorMax(v);
      var scaleBits := toHalf(maximum / 127.0);
      VectorMaximum(v);
      PackedValuesAreInOrder(v);
      ghost var bytes, before := output[..], scales[..];
      scales[block] := half(scaleBits);
      Store(output, 34 * block, scaleBits, PackedValues(v));
      OneMoreEncoded(toHalf, half, xs, bytes, before, output[..], scales[..], block, true);
    }
  }

  /** `fortai_q8_quantize`: refuses a count that is not a positive multiple of 32, leaving everything alone. */
  method Quantize(toHalf: real -> bits16, half: nat -> real, input: array<real>, output: array<Q.int8>, scales: array<real>, avx2: bool)
    requires Fits(input.Length, output.Length, scales.Length) && scales != input
    modifies output, scales
    ensures input.Length == 0 || input.Length % 32 != 0 ==> output[..] == old(output[..]) && scales[..] == old(scales[..])
    ensures input.Length % 32 == 0 ==> (
      && Encoded(toHalf, half, input[..], output[..], scales[..], input.Length / 32, avx2)
      && Q.HasBlocks(output.Length, 0, input.Length / 32) && Q.AllSymmetric(output[..], input.Length / 32))
  {
    hide Encoded;
    if input.Length == 0 || input.Length % 32 != 0 {
      EncodedNothing(toHalf, half, input[..], output[..], scales[..], avx2);
      return;
    }
    if avx2 {
      QuantizeAvx2(toHalf, half, input, output, scales);
    } else {
      QuantizeScalar(toHalf, half, input, output, scales);
    }
    EncodedIsSymmetric(toHalf, half, input[..], output[..], scales[..], input.Length / 32, avx2);
  }

  lemma EncodedNothing(toHalf: real -> bits16, half: nat -> real, xs: seq<real>, bytes: seq<Q.int8>, scales: seq<real>, even: bool)
    ensures Encoded(toHalf, half, xs, bytes, scales, 0, even)
  {
  }

  // ---------------------------------------------------------------- what the product relies on

  /** Either form leaves blocks for which no 16-bit sum of the AVX2 product saturates. */
  lemma EncodedIsSymmetric(toHalf: real -> bits16, half: nat -> real, xs: seq<real>, bytes: seq<Q.int8>, scales: seq<real>, n: nat, even: bool)
    requires 32 * n <= |xs| && 34 * n <= |bytes| && n <= |scales| && Encoded(toHalf, half, xs, bytes, scales, n, even)
    ensures Q.HasBlocks(|bytes|, 0, n) && Q.AllSymmetric(bytes, n)
  {
    forall b | 0 <= b < n ensures Q.Symmetric(Q.Values(bytes, b)) {
      hide BlockValues;
      var block := BlockBytes(toHalf, Inputs(xs, b), even);
      assert Q.Values(bytes, b) == bytes[34 * b..34 * b + 34][2..];
      assert block[2..] == BlockValues(Inputs(xs, b), even);
    }
  }

  /** The two forms store the same bytes for a block exactly if they round its values alike. */
  lemma FormsAgreeExactly(toHalf: real -> bits16, xs: seq<real>)
    requires |xs| == 32
    ensures BlockBytes(toHalf, xs, false) == BlockBytes(toHalf, xs, true)
      <==> forall i | 0 <= i < 32 :: !IsTieAboveEven(Scaled(xs[i], MaxAbs(xs, 32)))
  {
    hide Round, MaxAbs, Scaled, IsTieAboveEven, RoundEven, RoundAway;
    var away, tied := BlockValues(xs, false), BlockValues(xs, true);
    var maximum := MaxAbs(xs, 32);
    forall i | 0 <= i < 32 ensures away[i] == tied[i] <==> !IsTieAboveEven(Scaled(xs[i], maximum)) {
      MaxAbsBounds(xs, 32, i);
      RoundOf(Scaled(xs[i], maximum));
      RoundingsAgreeExactly(Scaled(xs[i], maximum));
    }
    var a, b := BlockBytes(toHalf, xs, false), BlockBytes(toHalf, xs, true);
    assert a[2..] == away && b[2..] == tied && a[..2] == b[..2];
    assert a == a[..2] + a[2..] && b == b[..2] + b[2..];
    if forall i | 0 <= i < 32 :: !IsTieAboveEven(Scaled(xs[i], maximum)) {
      assert away == tied;
    }
  }
}
