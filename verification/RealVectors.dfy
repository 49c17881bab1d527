/**
 Inner products in exact arithmetic: the plain loop, and the blocked loop with four
 accumulators of eight lanes that the AVX2 kernels share.
 */
module RealVectors {

  function Times(a: real, b: real): real {
    a * b
  }

  /** The inner product. */
  function Dot(a: seq<real>, b: seq<real>): real
    requires |a| == |b|
  {
    if a == [] then 0.0 else Dot(a[..|a| - 1], b[..|b| - 1]) + a[|a| - 1] * b[|b| - 1]
  }

  lemma {:induction false} DotAppend(a: seq<real>, b: seq<real>, c: seq<real>, d: seq<real>)
    requires |a| == |b| && |c| == |d|
    ensures Dot(a + c, b + d) == Dot(a, b) + Dot(c, d)
    decreases |c|
  {
    if c == [] {
      assert a + c == a && b + d == b;
    } else {
      var n := |a| + |c| - 1;
      assert (a + c)[..n] == a + c[..|c| - 1] && (b + d)[..n] == b + d[..|d| - 1];
      DotAppend(a, b, c[..|c| - 1], d[..|d| - 1]);
    }
  }

  /** Row and column, entry by entry: `Dot` is linear in its first argument. */
  lemma {:induction false} DotCombination(a: seq<real>, x: real, b: seq<real>, y: real, c: seq<real>, d: seq<real>)
    requires |a| == |b| == |c| == |d|
    requires forall i | 0 <= i < |a| :: c[i] == x * a[i] + y * b[i]
    ensures Dot(c, d) == x * Dot(a, d) + y * Dot(b, d)
    decreases |a|
  {
    if a != [] {
      var n := |a| - 1;
      DotCombination(a[..n], x, b[..n], y, c[..n], d[..n]);
      Distribute(x, a[n], Dot(a[..n], d[..n]), y, b[n], Dot(b[..n], d[..n]), d[n]);
    }
  }

  lemma Distribute(x: real, a: real, p: real, y: real, b: real, q: real, d: real)
    ensures x * p + y * q + (x * a + y * b) * d == x * (p + a * d) + y * (q + b * d)
  {
    assert (x * a + y * b) * d == x * (a * d) + y * (b * d);
  }

  // ---------------------------------------------------------------- eight lanes

  /** A 256-bit register of eight floats. */
  type Lanes = s: seq<real> | |s| == 8 witness [0.0, 0.0, 0.0, 0.0, 0.0, 0.0, 0.0, 0.0]

  const ZEROS: Lanes := [0.0, 0.0, 0.0, 0.0, 0.0, 0.0, 0.0, 0.0]

  function LaneSum(a: Lanes): real {
    a[0] + a[1] + a[2] + a[3] + a[4] + a[5] + a[6] + a[7]
  }

  /** `_mm256_fmadd_ps` */
  function Fmadd(a: Lanes, b: Lanes, c: Lanes): Lanes {
    seq(8, i requires 0 <= i < 8 => a[i] * b[i] + c[i])
  }

  /** `_mm256_add_ps` */
  function AddLanes(a: Lanes, b: Lanes): Lanes {
    seq(8, i requires 0 <= i < 8 => a[i] + b[i])
  }

  /** `reduce_dot_sums`: pairwise additions, then the halves, then two horizontal additions. */
  function ReduceDotSums(sums: seq<Lanes>): real
    requires |sums| == 4
  {
    var first := AddLanes(sums[0], sums[2]);
    var second := AddLanes(sums[1], sums[3]);
    var all := AddLanes(first, second);
    var lanes := [all[0] + all[4], all[1] + all[5], all[2] + all[6], all[3] + all[7]];
    var pairs := [lanes[0] + lanes[1], lanes[2] + lanes[3]];
    pairs[0] + pairs[1]
  }

  lemma DotOfEight(a: Lanes, b: Lanes)
    ensures Dot(a, b) == a[0] * b[0] + a[1] * b[1] + a[2] * b[2] + a[3] * b[3] + a[4] * b[4] + a[5] * b[5] + a[6] * b[6] + a[7] * b[7]
  {
    DotOfFour(a[..4], b[..4]);
    DotOfFour(a[4..], b[4..]);
    DotAppend(a[..4], b[..4], a[4..], b[4..]);
    assert a == a[..4] + a[4..] && b == b[..4] + b[4..];
  }

  lemma EmptyDot()
    ensures Dot([], []) == 0.0
  {
  }

  lemma DotOfFour(a: seq<real>, b: seq<real>)
    requires |a| == |b| == 4
    ensures Dot(a, b) == a[0] * b[0] + a[1] * b[1] + a[2] * b[2] + a[3] * b[3]
  {
    hide Dot;
    EmptyDot();
    assert a[..0] == [] && b[..0] == [];
    DotStep(a, b, 0);
    DotStep(a, b, 1);
    DotStep(a, b, 2);
    DotStep(a, b, 3);
    assert a[..4] == a && b[..4] == b;
  }

  lemma FmaddSum(a: Lanes, b: Lanes, c: Lanes)
    ensures LaneSum(Fmadd(a, b, c)) == LaneSum(c) + Dot(a, b)
  {
    DotOfEight(a, b);
  }

  /** One block of 32 entries: every accumulator takes eight of them. */
  function FmaddBlock(sums: seq<Lanes>, a: seq<real>, b: seq<real>): (r: seq<Lanes>)
    requires |sums| == 4 && |a| == |b| == 32
    ensures |r| == 4
  {
    [Fmadd(a[..8], b[..8], sums[0]), Fmadd(a[8..16], b[8..16], sums[1]),
     Fmadd(a[16..24], b[16..24], sums[2]), Fmadd(a[24..], b[24..], sums[3])]
  }

  function Total(sums: seq<Lanes>): real
    requires |sums| == 4
  {
    LaneSum(sums[0]) + LaneSum(sums[1]) + LaneSum(sums[2]) + LaneSum(sums[3])
  }

  lemma FmaddBlockTotal(sums: seq<Lanes>, a: seq<real>, b: seq<real>)
    requires |sums| == 4 && |a| == |b| == 32
    ensures Total(FmaddBlock(sums, a, b)) == Total(sums) + Dot(a, b)
  {
    hide LaneSum, Dot, Fmadd;
    FmaddSum(a[..8], b[..8], sums[0]);
    FmaddSum(a[8..16], b[8..16], sums[1]);
    FmaddSum(a[16..24], b[16..24], sums[2]);
    FmaddSum(a[24..], b[24..], sums[3]);
    DotAppend(a[..8], b[..8], a[8..16], b[8..16]);
    DotAppend(a[..8] + a[8..16], b[..8] + b[8..16], a[16..24], b[16..24]);
    DotAppend(a[..8] + a[8..16] + a[16..24], b[..8] + b[8..16] + b[16..24], a[24..], b[24..]);
    assert a == a[..8] + a[8..16] + a[16..24] + a[24..] && b == b[..8] + b[8..16] + b[16..24] + b[24..];
  }

  lemma DotStep(a: seq<real>, b: seq<real>, i: nat)
    requires |a| == |b| && i < |a|
    ensures Dot(a[..i + 1], b[..i + 1]) == Dot(a[..i], b[..i]) + a[i] * b[i]
  {
    assert a[..i + 1][..i] == a[..i] && b[..i + 1][..i] == b[..i];
  }

  lemma DotBlock(a: seq<real>, b: seq<real>, i: nat)
    requires |a| == |b| && i + 32 <= |a|
    ensures Dot(a[..i + 32], b[..i + 32]) == Dot(a[..i], b[..i]) + Dot(a[i..i + 32], b[i..i + 32])
  {
    DotAppend(a[..i], b[..i], a[i..i + 32], b[i..i + 32]);
    assert a[..i + 32] == a[..i] + a[i..i + 32] && b[..i + 32] == b[..i] + b[i..i + 32];
  }

  /** The four accumulators after a block still hold the inner product of what was read. */
  lemma BlockStep(sums: seq<Lanes>, a: seq<real>, b: seq<real>, i: nat)
    requires |sums| == 4 && |a| == |b| && i + 32 <= |a| && Total(sums) == Dot(a[..i], b[..i])
    ensures Total(FmaddBlock(sums, a[i..i + 32], b[i..i + 32])) == Dot(a[..i + 32], b[..i + 32])
  {
    hide Total, Dot, FmaddBlock;
    FmaddBlockTotal(sums, a[i..i + 32], b[i..i + 32]);
    DotBlock(a, b, i);
  }

  lemma TotalIsReduced(sums: seq<Lanes>)
    requires |sums| == 4
    ensures ReduceDotSums(sums) == Total(sums)
  {
  }

  lemma BlockOf(a: array<real>, i: nat)
    requires i + 32 <= a.Length
    ensures a[..][..i] == a[..i] && a[..][i..i + 32] == a[i..i + 32] && a[..][..i + 32] == a[..i + 32]
  {
  }

  /** The blocked part of `dot_f16_avx2`; what is left of the rows is for the plain loop. */
  method DotBlocks(left: array<real>, right: array<real>) returns (r: real, i: nat)
    requires left.Length == right.Length
    ensures i <= left.Length < i + 32 && r == Dot(left[..i], right[..i])
  {
    assert Total([ZEROS, ZEROS, ZEROS, ZEROS]) == 0.0 && Dot([], []) == 0.0;
    hide Dot, LaneSum, FmaddBlock, Total;
    var sums := [ZEROS, ZEROS, ZEROS, ZEROS];
    i := 0;
    assert left[..i] == [] && right[..i] == [];
    while i + 32 <= left.Length
      invariant i <= left.Length && |sums| == 4 && Total(sums) == Dot(left[..i], right[..i])
    {
      BlockOf(left, i);
      BlockOf(right, i);
      BlockStep(sums, left[..], right[..], i);
      sums := FmaddBlock(sums, left[i..i + 32], right[i..i + 32]);
      i := i + 32;
    }
    TotalIsReduced(sums);
    r := ReduceDotSums(sums);
  }

  /** `dot_f16_scalar` and `dot_f16_avx2` on exact numbers: both are the inner product. */
  method DotF16(left: array<real>, right: array<real>, avx2: bool) returns (r: real)
    requires left.Length == right.Length
    ensures r == Dot(left[..], right[..])
  {
    var i: nat := 0;
    r := 0.0;
    if avx2 {
      r, i := DotBlocks(left, right);
    }
    ghost var a, b := left[..], right[..];
    while i < left.Length
      invariant i <= left.Length && r == Dot(a[..i], b[..i])
    {
      DotStep(a, b, i);
      r := r + left[i] * right[i];
      i := i + 1;
    }
    assert a[..i] == a && b[..i] == b;
  }
}
