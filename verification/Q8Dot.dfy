/**
 The inner product of a Q8_0 weight row with a quantized activation: the scalar loop, and the
 AVX2 loop with saturating 16-bit pair sums, on the bytes of 34-byte blocks. The sums of the
 blocks are in exact arithmetic.
 */
module Q8Dot {
  import opened RealVectors

  type int8 = x: int | -128 <= x <= 127

  function Unsigned8(x: int8): nat {
    if x < 0 then x + 256 else x
  }

  /** The half precision scale at `offset`, low byte first. */
  function ScaleBits(bytes: seq<int8>, offset: nat): (bits: nat)
    requires offset + 2 <= |bytes|
    ensures bits < 0x1_0000
  {
    Unsigned8(bytes[offset]) + 0x100 * Unsigned8(bytes[offset + 1])
  }

  function Product(w: int, a: int): int { w * a }

  /** The sum of the first `n` products. */
  function SumProducts(w: seq<int8>, a: seq<int8>, n: nat): int
    requires n <= |w| && n <= |a|
  {
    if n == 0 then 0 else SumProducts(w, a, n - 1) + Product(w[n - 1], a[n - 1])
  }

  /** The blocks are 34 bytes: two bytes of scale, 32 of values. */
  predicate HasBlocks(length: nat, first: nat, count: nat) {
    (first + count) * 34 <= length
  }

  function Values(bytes: seq<int8>, block: nat): (v: seq<int8>)
    requires block * 34 + 34 <= |bytes|
    ensures |v| == 32
  {
    bytes[block * 34 + 2..block * 34 + 34]
  }

  /** The two scales of a block together. */
  function BlockScale(half: nat -> real, weights: seq<int8>, scales: seq<real>, offset: nat, b: nat): real
    requires offset + 2 <= |weights| && b < |scales|
  {
    half(ScaleBits(weights, offset)) * scales[b]
  }

  /** The contribution of block `b` of a row whose blocks begin at block `first`. */
  function BlockTerm(half: nat -> real, weights: seq<int8>, quantized: seq<int8>, scales: seq<real>, first: nat, b: nat): real
    requires (first + b) * 34 + 34 <= |weights| && b * 34 + 34 <= |quantized| && b < |scales|
  {
    BlockScale(half, weights, scales, (first + b) * 34, b)
      * (SumProducts(Values(weights, first + b), Values(quantized, b), 32) as real)
  }

  /** The inner product over the first `n` blocks. */
  function RowDot(half: nat -> real, weights: seq<int8>, quantized: seq<int8>, scales: seq<real>, first: nat, n: nat): real
    requires HasBlocks(|weights|, first, n) && HasBlocks(|quantized|, 0, n) && n <= |scales|
  {
    if n == 0 then 0.0
    else
      RowDot(half, weights, quantized, scales, first, n - 1) + BlockTerm(half, weights, quantized, scales, first, n - 1)
  }

  // ---------------------------------------------------------------- the instructions

  function Saturate16(x: int): int {
    if x < -32768 then -32768 else if x > 32767 then 32767 else x
  }

  /** `_mm256_sign_epi8` on one byte; negating -128 wraps. */
  function Sign8(a: int8, b: int8): int8 {
    if b > 0 then a else if b == 0 then 0 else if a == -128 then -128 else -a
  }

  /** One 16-bit lane of `_mm256_maddubs_epi16`: unsigned times signed, two products, saturated. */
  function MaddUbs(u0: int8, s0: int8, u1: int8, s1: int8): int {
    Saturate16(Product(Unsigned8(u0), s0) + Product(Unsigned8(u1), s1))
  }

  /** The 16-bit sum of products 2k and 2k+1 as the kernel forms it. */
  function PairSum(w: seq<int8>, a: seq<int8>, k: nat): int
    requires |w| == |a| == 32 && k < 16
  {
    MaddUbs(Sign8(w[2 * k], w[2 * k]), Sign8(a[2 * k], w[2 * k]), Sign8(w[2 * k + 1], w[2 * k + 1]), Sign8(a[2 * k + 1], w[2 * k + 1]))
  }

  /** One 32-bit lane of `_mm256_madd_epi16` with ones. */
  function LaneDot(w: seq<int8>, a: seq<int8>, j: nat): int
    requires |w| == |a| == 32 && j < 8
  {
    PairSum(w, a, 2 * j) + PairSum(w, a, 2 * j + 1)
  }

  function LaneDots(w: seq<int8>, a: seq<int8>): Lanes
    requires |w| == |a| == 32
  {
    seq(8, j requires 0 <= j < 8 => LaneDot(w, a, j) as real)
  }

  // ---------------------------------------------------------------- no saturation

  /** What the quantizer guarantees of its values. */
  predicate Symmetric(a: seq<int8>) {
    forall i | 0 <= i < |a| :: a[i] != -128
  }

  /** The product that the two sign instructions make of a weight and an activation. */
  function SignProduct(w: int8, a: int8): int {
    Product(Unsigned8(Sign8(w, w)), Sign8(a, w))
  }

  /** The one case in which it is not the product: negating -128 wraps. */
  predicate Wraps(w: int8, a: int8) {
    w < 0 && a == -128
  }

  lemma Negatives(w: int, a: int)
    ensures Product(0 - w, 0 - a) == Product(w, a)
    ensures Product(0 - w, a) == 0 - Product(w, a)
  {
  }

  lemma Bounded(size: nat, a: int)
    requires size <= 128 && -128 <= a <= 127
    ensures -16384 <= Product(size, a) <= 16256
    ensures 0 < size && a < 0 ==> Product(size, a) < 0
  {
    Ordered(size, a, 127);
    Ordered(size, -128, a);
    if a < 0 { Ordered(size, a, -1); }
  }

  lemma Ordered(size: nat, x: int, y: int)
    requires x <= y
    ensures size * x <= size * y
  {
  }

  /** It is the product exactly outside that case, where it is too small; and it is never large. */
  lemma SignProductExactly(w: int8, a: int8)
    ensures SignProduct(w, a) == Product(w, a) <==> !Wraps(w, a)
    ensures SignProduct(w, a) <= Product(w, a)
    ensures -16384 <= SignProduct(w, a) <= 16256
  {
    if w < 0 {
      var size: nat := 0 - w;
      assert Unsigned8(Sign8(w, w)) == size;
      if a == -128 {
        assert Sign8(a, w) == a;
        Bounded(size, a);
        Negatives(w, a);
      } else {
        assert Sign8(a, w) == 0 - a;
        Bounded(size, 0 - a);
        Negatives(w, a);
      }
    } else {
      Bounded(w, a);
    }
  }

  /** So no pair sum saturates, whatever the weights and activations. */
  lemma PairSumIsExact(w: seq<int8>, a: seq<int8>, k: nat)
    requires |w| == |a| == 32 && k < 16
    ensures PairSum(w, a, k) == SignProduct(w[2 * k], a[2 * k]) + SignProduct(w[2 * k + 1], a[2 * k + 1])
    ensures -32768 <= PairSum(w, a, k) < 32767
  {
    SignProductExactly(w[2 * k], a[2 * k]);
    SignProductExactly(w[2 * k + 1], a[2 * k + 1]);
    hide Product, Sign8, Unsigned8;
  }

  function SumSignProducts(w: seq<int8>, a: seq<int8>, n: nat): int
    requires n <= |w| && n <= |a|
  {
    if n == 0 then 0 else SumSignProducts(w, a, n - 1) + SignProduct(w[n - 1], a[n - 1])
  }

  lemma FourMore(w: seq<int8>, a: seq<int8>, i: nat)
    requires |w| == |a| && i + 4 <= |w|
    ensures SumSignProducts(w, a, i + 4) == SumSignProducts(w, a, i)
      + (SignProduct(w[i], a[i]) + SignProduct(w[i + 1], a[i + 1])) + (SignProduct(w[i + 2], a[i + 2]) + SignProduct(w[i + 3], a[i + 3]))
  {
    hide SignProduct;
    assert SumSignProducts(w, a, i + 1) == SumSignProducts(w, a, i) + SignProduct(w[i], a[i]);
    assert SumSignProducts(w, a, i + 2) == SumSignProducts(w, a, i + 1) + SignProduct(w[i + 1], a[i + 1]);
    assert SumSignProducts(w, a, i + 3) == SumSignProducts(w, a, i + 2) + SignProduct(w[i + 2], a[i + 2]);
  }

  lemma LaneDotIsSum(w: seq<int8>, a: seq<int8>, j: nat)
    requires |w| == |a| == 32 && j < 8
    ensures SumSignProducts(w, a, 4 * j + 4) == SumSignProducts(w, a, 4 * j) + LaneDot(w, a, j)
  {
    hide PairSum, SignProduct, SumSignProducts;
    PairSumIsExact(w, a, 2 * j);
    PairSumIsExact(w, a, 2 * j + 1);
    FourMore(w, a, 4 * j);
    assert 2 * (2 * j) == 4 * j && 2 * (2 * j + 1) == 4 * j + 2;
  }

  /** The eight lanes add up to the sum of what the sign instructions made. */
  lemma LanesAddUp(w: seq<int8>, a: seq<int8>)
    requires |w| == |a| == 32
    ensures LaneSum(LaneDots(w, a)) == SumSignProducts(w, a, 32) as real
  {
    LaneDotIsSum(w, a, 0);
    LaneDotIsSum(w, a, 1);
    LaneDotIsSum(w, a, 2);
    LaneDotIsSum(w, a, 3);
    LaneDotIsSum(w, a, 4);
    LaneDotIsSum(w, a, 5);
    LaneDotIsSum(w, a, 6);
    LaneDotIsSum(w, a, 7);
    hide LaneDot;
    assert SumSignProducts(w, a, 0) == 0;
    hide SumSignProducts;
    assert SumSignProducts(w, a, 32) == LaneDot(w, a, 0) + LaneDot(w, a, 1) + LaneDot(w, a, 2) + LaneDot(w, a, 3)
      + LaneDot(w, a, 4) + LaneDot(w, a, 5) + LaneDot(w, a, 6) + LaneDot(w, a, 7);
  }

  /** No weight and activation of the block wrap. */
  predicate NothingWraps(w: seq<int8>, a: seq<int8>, n: nat)
    requires n <= |w| && n <= |a|
  {
    forall i | 0 <= i < n :: !Wraps(w[i], a[i])
  }

  lemma {:induction false} SumsAgreeExactly(w: seq<int8>, a: seq<int8>, n: nat)
    requires n <= |w| && n <= |a|
    ensures SumSignProducts(w, a, n) <= SumProducts(w, a, n)
    ensures SumSignProducts(w, a, n) == SumProducts(w, a, n) <==> NothingWraps(w, a, n)
    decreases n
  {
    hide Product, SignProduct;
    if n > 0 {
      SumsAgreeExactly(w, a, n - 1);
      SignProductExactly(w[n - 1], a[n - 1]);
      assert NothingWraps(w, a, n) <==> NothingWraps(w, a, n - 1) && !Wraps(w[n - 1], a[n - 1]);
    }
  }

  /** The lanes of a block add up to its scalar sum exactly if no negative weight meets -128. */
  lemma LanesAreExactly(w: seq<int8>, a: seq<int8>)
    requires |w| == |a| == 32
    ensures LaneSum(LaneDots(w, a)) == SumProducts(w, a, 32) as real <==> NothingWraps(w, a, 32)
  {
    hide LaneSum, LaneDots, SumProducts, SumSignProducts;
    LanesAddUp(w, a);
    SumsAgreeExactly(w, a, 32);
  }

  /** An activation of -128, which the quantizer never makes, would come out with the wrong sign. */
  lemma ActivationMinus128IsWrong()
    ensures var w: seq<int8> := seq(32, i => -128);
      LaneDot(w, w, 0) != SumProducts(w, w, 4)
  {
    var w: seq<int8> := seq(32, i => -128);
    assert SumProducts(w, w, 0) == 0 && SumProducts(w, w, 1) == 16384 && SumProducts(w, w, 2) == 32768;
    assert SumProducts(w, w, 3) == 49152;
    assert PairSum(w, w, 0) == -32768 && PairSum(w, w, 1) == -32768;
  }

  // ---------------------------------------------------------------- the rows

  lemma OneMoreBlock(half: nat -> real, weights: seq<int8>, quantized: seq<int8>, scales: seq<real>, first: nat, n: nat)
    requires HasBlocks(|weights|, first, n + 1) && HasBlocks(|quantized|, 0, n + 1) && n < |scales|
    ensures RowDot(half, weights, quantized, scales, first, n + 1)
      == RowDot(half, weights, quantized, scales, first, n) + BlockTerm(half, weights, quantized, scales, first, n)
  {
  }

  /** `q8_dot_scalar` */
  method DotScalar(half: nat -> real, weights: array<int8>, quantized: array<int8>, scales: array<real>, row: nat, blockCount: nat)
    returns (result: real)
    requires HasBlocks(weights.Length, row * blockCount, blockCount)
    requires HasBlocks(quantized.Length, 0, blockCount) && blockCount <= scales.Length
    ensures result == RowDot(half, weights[..], quantized[..], scales[..], row * blockCount, blockCount)
  {
    hide BlockTerm;
    result := 0.0;
    var first := row * blockCount;
    for block := 0 to blockCount
      invariant result == RowDot(half, weights[..], quantized[..], scales[..], first, block)
    {
      var offset := (first + block) * 34;
      var activationOffset := block * 34;
      var dot := BlockDot(weights, quantized, offset, activationOffset);
      var scaleBits := Unsigned8(weights[offset]) + 0x100 * Unsigned8(weights[offset + 1]);
      TermOf(half, weights[..], quantized[..], scales[..], first, block, scaleBits, dot);
      OneMoreBlock(half, weights[..], quantized[..], scales[..], first, block);
      result := result + half(scaleBits) * scales[block] * (dot as real);
    }
  }

  lemma TermOf(half: nat -> real, weights: seq<int8>, quantized: seq<int8>, scales: seq<real>, first: nat, b: nat, bits: nat, dot: int)
    requires (first + b) * 34 + 34 <= |weights| && b * 34 + 34 <= |quantized| && b < |scales|
    requires bits == ScaleBits(weights, (first + b) * 34)
    requires dot == SumProducts(Values(weights, first + b), Values(quantized, b), 32)
    ensures BlockTerm(half, weights, quantized, scales, first, b) == half(bits) * scales[b] * (dot as real)
  {
  }

  /** The inner loop over the 32 values of a block. */
  method BlockDot(weights: array<int8>, quantized: array<int8>, offset: nat, activationOffset: nat) returns (dot: int)
    requires offset + 34 <= weights.Length && activationOffset + 34 <= quantized.Length
    ensures dot == SumProducts(weights[..][offset + 2..offset + 34], quantized[..][activationOffset + 2..activationOffset + 34], 32)
  {
    hide Product;
    dot := 0;
    ghost var w, a := weights[..][offset + 2..offset + 34], quantized[..][activationOffset + 2..activationOffset + 34];
    for i := 0 to 32
      invariant dot == SumProducts(w, a, i)
    {
      assert w[i] == weights[offset + 2 + i] && a[i] == quantized[activationOffset + 2 + i];
      dot := dot + Product(weights[offset + 2 + i], quantized[activationOffset + 2 + i]);
    }
  }

  /** The cast of the block count to a 32-bit integer. */
  function Int32(x: nat): int {
    var low := x % 0x1_0000_0000;
    if low < 0x8000_0000 then low else low - 0x1_0000_0000
  }

  /** How many blocks the AVX2 loop visits. */
  function Visited(blockCount: nat): (n: nat)
    ensures n <= blockCount
    ensures n == blockCount <==> blockCount < 0x8000_0000
  {
    if Int32(blockCount) < 0 then 0 else Int32(blockCount)
  }

  /** The counter is what the low 32 bits are as a signed number. */
  lemma CounterWraps()
    ensures Visited(0x7FFF_FFFF) == 0x7FFF_FFFF && Visited(0x8000_0000) == 0 && Visited(0x1_0000_0001) == 1
  {
  }

  function Splat(x: real): Lanes {
    [x, x, x, x, x, x, x, x]
  }

  lemma SplatSum(x: real, d: Lanes, c: Lanes)
    ensures LaneSum(Fmadd(Splat(x), d, c)) == LaneSum(c) + x * LaneSum(d)
  {
    assert x * LaneSum(d) == x * d[0] + x * d[1] + x * d[2] + x * d[3] + x * d[4] + x * d[5] + x * d[6] + x * d[7];
  }

  /** The contribution of block `b` as the lanes make it. */
  function LaneTerm(half: nat -> real, weights: seq<int8>, quantized: seq<int8>, scales: seq<real>, first: nat, b: nat): real
    requires (first + b) * 34 + 34 <= |weights| && b * 34 + 34 <= |quantized| && b < |scales|
  {
    BlockScale(half, weights, scales, (first + b) * 34, b)
      * (SumSignProducts(Values(weights, first + b), Values(quantized, b), 32) as real)
  }

  /** The inner product over the first `n` blocks as the lanes make it. */
  function LaneRowDot(half: nat -> real, weights: seq<int8>, quantized: seq<int8>, scales: seq<real>, first: nat, n: nat): real
    requires HasBlocks(|weights|, first, n) && HasBlocks(|quantized|, 0, n) && n <= |scales|
  {
    if n == 0 then 0.0
    else LaneRowDot(half, weights, quantized, scales, first, n - 1) + LaneTerm(half, weights, quantized, scales, first, n - 1)
  }

  /** The accumulator takes the term of a block, spread over its lanes. */
  lemma LanesTakeTerm(half: nat -> real, weights: seq<int8>, quantized: seq<int8>, scales: seq<real>, first: nat, b: nat, accumulator: Lanes)
    requires (first + b) * 34 + 34 <= |weights| && b * 34 + 34 <= |quantized| && b < |scales|
    ensures
      var scale := BlockScale(half, weights, scales, (first + b) * 34, b);
      LaneSum(Fmadd(Splat(scale), LaneDots(Values(weights, first + b), Values(quantized, b)), accumulator))
        == LaneSum(accumulator) + LaneTerm(half, weights, quantized, scales, first, b)
  {
    hide LaneDots, LaneSum, SumSignProducts, Values, Fmadd;
    LanesAddUp(Values(weights, first + b), Values(quantized, b));
    SplatSum(BlockScale(half, weights, scales, (first + b) * 34, b), LaneDots(Values(weights, first + b), Values(quantized, b)), accumulator);
  }

  /** No product of the row wraps. */
  predicate RowIsExact(weights: seq<int8>, quantized: seq<int8>, first: nat, n: nat)
    requires HasBlocks(|weights|, first, n) && HasBlocks(|quantized|, 0, n)
  {
    forall b | 0 <= b < n :: NothingWraps(Values(weights, first + b), Values(quantized, b), 32)
  }

  lemma {:induction false} LaneRowIsRow(half: nat -> real, weights: seq<int8>, quantized: seq<int8>, scales: seq<real>, first: nat, n: nat)
    requires HasBlocks(|weights|, first, n) && HasBlocks(|quantized|, 0, n) && n <= |scales|
    requires RowIsExact(weights, quantized, first, n)
    ensures LaneRowDot(half, weights, quantized, scales, first, n) == RowDot(half, weights, quantized, scales, first, n)
    decreases n
  {
    hide NothingWraps, Values, BlockTerm, LaneTerm;
    if n > 0 {
      LaneRowIsRow(half, weights, quantized, scales, first, n - 1);
      TermsAgree(half, weights, quantized, scales, first, n - 1);
    }
  }

  lemma TermsAgree(half: nat -> real, weights: seq<int8>, quantized: seq<int8>, scales: seq<real>, first: nat, b: nat)
    requires (first + b) * 34 + 34 <= |weights| && b * 34 + 34 <= |quantized| && b < |scales|
    requires NothingWraps(Values(weights, first + b), Values(quantized, b), 32)
    ensures LaneTerm(half, weights, quantized, scales, first, b) == BlockTerm(half, weights, quantized, scales, first, b)
  {
    hide SumProducts, SumSignProducts, NothingWraps, Values, BlockScale;
    SumsAgreeExactly(Values(weights, first + b), Values(quantized, b), 32);
  }

  predicate IsPositive(half: nat -> real, weights: seq<int8>, scales: seq<real>, first: nat, b: nat)
    requires (first + b) * 34 + 34 <= |weights| && b < |scales|
  {
    0.0 < BlockScale(half, weights, scales, (first + b) * 34, b)
  }

  /** The two scales of every block of the row have a positive product. */
  predicate PositiveScales(half: nat -> real, weights: seq<int8>, scales: seq<real>, first: nat, n: nat)
    requires HasBlocks(|weights|, first, n) && n <= |scales|
  {
    forall b | 0 <= b < n :: IsPositive(half, weights, scales, first, b)
  }

  lemma ScaledCompare(scale: real, a: int, b: int)
    requires 0.0 < scale && a <= b
    ensures scale * (a as real) <= scale * (b as real)
    ensures scale * (a as real) == scale * (b as real) <==> a == b
  {
    if a < b { Grows(scale, a as real, b as real); }
  }

  lemma Grows(scale: real, x: real, y: real)
    requires 0.0 < scale && x < y
    ensures scale * x < scale * y
  {
  }

  /** A block that wraps is too small. */
  lemma TermsCompare(half: nat -> real, weights: seq<int8>, quantized: seq<int8>, scales: seq<real>, first: nat, b: nat)
    requires (first + b) * 34 + 34 <= |weights| && b * 34 + 34 <= |quantized| && b < |scales|
    requires IsPositive(half, weights, scales, first, b)
    ensures LaneTerm(half, weights, quantized, scales, first, b) <= BlockTerm(half, weights, quantized, scales, first, b)
    ensures LaneTerm(half, weights, quantized, scales, first, b) == BlockTerm(half, weights, quantized, scales, first, b)
      <==> NothingWraps(Values(weights, first + b), Values(quantized, b), 32)
  {
    hide SumProducts, SumSignProducts, NothingWraps, Values, BlockScale;
    var w, q := Values(weights, first + b), Values(quantized, b);
    SumsAgreeExactly(w, q, 32);
    ScaledCompare(BlockScale(half, weights, scales, (first + b) * 34, b), SumSignProducts(w, q, 32), SumProducts(w, q, 32));
  }

  /** With positive scales the lanes never give too much, and give the row product exactly if nothing wraps. */
  lemma {:induction false} LaneRowIsExactly(half: nat -> real, weights: seq<int8>, quantized: seq<int8>, scales: seq<real>, first: nat, n: nat)
    requires HasBlocks(|weights|, first, n) && HasBlocks(|quantized|, 0, n) && n <= |scales|
    requires PositiveScales(half, weights, scales, first, n)
    ensures LaneRowDot(half, weights, quantized, scales, first, n) <= RowDot(half, weights, quantized, scales, first, n)
    ensures LaneRowDot(half, weights, quantized, scales, first, n) == RowDot(half, weights, quantized, scales, first, n)
      <==> RowIsExact(weights, quantized, first, n)
    decreases n
  {
    hide NothingWraps, Values, BlockTerm, LaneTerm, IsPositive;
    if n > 0 {
      LaneRowIsExactly(half, weights, quantized, scales, first, n - 1);
      TermsCompare(half, weights, quantized, scales, first, n - 1);
      assert RowIsExact(weights, quantized, first, n)
        <==> RowIsExact(weights, quantized, first, n - 1) && NothingWraps(Values(weights, first + (n - 1)), Values(quantized, n - 1), 32);
    }
  }

  /** No activation byte among the values of the blocks is -128. */
  predicate AllSymmetric(quantized: seq<int8>, n: nat)
    requires HasBlocks(|quantized|, 0, n)
  {
    forall b | 0 <= b < n :: Symmetric(Values(quantized, b))
  }

  /** What the quantizer leaves makes every row exact. */
  lemma SymmetricIsExact(weights: seq<int8>, quantized: seq<int8>, first: nat, n: nat)
    requires HasBlocks(|weights|, first, n) && HasBlocks(|quantized|, 0, n) && AllSymmetric(quantized, n)
    ensures RowIsExact(weights, quantized, first, n)
  {
    forall b | 0 <= b < n ensures NothingWraps(Values(weights, first + b), Values(quantized, b), 32) {
      hide Values;
      assert Symmetric(Values(quantized, b));
    }
  }

  lemma AvxStep(half: nat -> real, weights: seq<int8>, quantized: seq<int8>, scales: seq<real>, first: nat, b: nat, accumulator: Lanes)
    requires HasBlocks(|weights|, first, b + 1) && HasBlocks(|quantized|, 0, b + 1) && b < |scales|
    requires LaneSum(accumulator) == LaneRowDot(half, weights, quantized, scales, first, b)
    ensures
      var scale := BlockScale(half, weights, scales, (first + b) * 34, b);
      LaneSum(Fmadd(Splat(scale), LaneDots(Values(weights, first + b), Values(quantized, b)), accumulator))
        == LaneRowDot(half, weights, quantized, scales, first, b + 1)
  {
    hide LaneDots, LaneSum, Fmadd, LaneTerm, Splat, BlockScale;
    LanesTakeTerm(half, weights, quantized, scales, first, b, accumulator);
  }

  lemma NoBlocks(half: nat -> real, weights: seq<int8>, quantized: seq<int8>, scales: seq<real>, first: nat)
    requires HasBlocks(|weights|, first, 0)
    ensures LaneSum(ZEROS) == LaneRowDot(half, weights, quantized, scales, first, 0)
  {
  }

  /** The reduction at the end: halves, then pairs, then the last two. */
  function ReduceLanes(a: Lanes): (r: real)
    ensures r == LaneSum(a)
  {
    var sums := [a[0] + a[4], a[1] + a[5], a[2] + a[6], a[3] + a[7]];
    var pairs := [sums[0] + sums[2], sums[1] + sums[3]];
    pairs[0] + pairs[1]
  }

  /**
   `q8_dot_avx2`, for any bytes: the row product of the sign instructions over the blocks that
   its 32-bit counter reaches, which is the row product if none of them wraps.
   */
  method DotAvx2(half: nat -> real, weights: array<int8>, quantized: array<int8>, scales: array<real>, row: nat, blockCount: nat)
    returns (result: real)
    requires HasBlocks(weights.Length, row * blockCount, blockCount)
    requires HasBlocks(quantized.Length, 0, blockCount) && blockCount <= scales.Length
    ensures result == LaneRowDot(half, weights[..], quantized[..], scales[..], row * blockCount, Visited(blockCount))
    ensures RowIsExact(weights[..], quantized[..], row * blockCount, Visited(blockCount)) ==>
      result == RowDot(half, weights[..], quantized[..], scales[..], row * blockCount, Visited(blockCount))
    ensures PositiveScales(half, weights[..], scales[..], row * blockCount, Visited(blockCount)) ==> (
      var exact := RowDot(half, weights[..], quantized[..], scales[..], row * blockCount, Visited(blockCount));
      result <= exact && (result == exact <==> RowIsExact(weights[..], quantized[..], row * blockCount, Visited(blockCount))))
  {
    hide LaneRowDot, RowDot, RowIsExact, PositiveScales;
    var first := row * blockCount;
    result := LaneLoop(half, weights, quantized, scales, first, blockCount);
    if RowIsExact(weights[..], quantized[..], first, Visited(blockCount)) {
      LaneRowIsRow(half, weights[..], quantized[..], scales[..], first, Visited(blockCount));
    }
    if PositiveScales(half, weights[..], scales[..], first, Visited(blockCount)) {
      LaneRowIsExactly(half, weights[..], quantized[..], scales[..], first, Visited(blockCount));
    }
  }

  /** The loop over the blocks. */
  method LaneLoop(half: nat -> real, weights: array<int8>, quantized: array<int8>, scales: array<real>, first: nat, blockCount: nat)
    returns (result: real)
    requires HasBlocks(weights.Length, first, blockCount)
    requires HasBlocks(quantized.Length, 0, blockCount) && blockCount <= scales.Length
    ensures result == LaneRowDot(half, weights[..], quantized[..], scales[..], first, Visited(blockCount))
  {
    hide LaneDots, LaneSum, LaneRowDot, Fmadd, Splat, BlockScale, Values, ReduceLanes;
    var accumulator := ZEROS;
    var blocks := Int32(blockCount);
    var block, offset := 0, 0;
    NoBlocks(half, weights[..], quantized[..], scales[..], first);
    while block < blocks
      invariant 0 <= block <= Visited(blockCount) && offset == 34 * block
      invariant LaneSum(accumulator) == LaneRowDot(half, weights[..], quantized[..], scales[..], first, block)
    {
      AvxStep(half, weights[..], quantized[..], scales[..], first, block, accumulator);
      var at := first * 34 + offset;
      assert at == (first + block) * 34;
      var scale := BlockScale(half, weights[..], scales[..], at, block);
      var weight, activation := Values(weights[..], first + block), Values(quantized[..], block);
      accumulator := Fmadd(Splat(scale), LaneDots(weight, activation), accumulator);
      offset := offset + 34;
      block := block + 1;
    }
    result := ReduceLanes(accumulator);
  }

  /** `fortai_q8_dot`: the scalar form always gives the row product, the AVX2 form if nothing wraps and the counter fits. */
  method Dot8(half: nat -> real, weights: array<int8>, quantized: array<int8>, scales: array<real>, row: nat, blockCount: nat, avx2: bool)
    returns (result: real)
    requires HasBlocks(weights.Length, row * blockCount, blockCount)
    requires HasBlocks(quantized.Length, 0, blockCount) && blockCount <= scales.Length
    ensures !avx2 || (blockCount < 0x8000_0000 && RowIsExact(weights[..], quantized[..], row * blockCount, blockCount)) ==>
      result == RowDot(half, weights[..], quantized[..], scales[..], row * blockCount, blockCount)
    ensures avx2 ==> result == LaneRowDot(half, weights[..], quantized[..], scales[..], row * blockCount, Visited(blockCount))
  {
    hide RowDot, LaneRowDot, RowIsExact;
    if avx2 {
      result := DotAvx2(half, weights, quantized, scales, row, blockCount);
    } else {
      result := DotScalar(half, weights, quantized, scales, row, blockCount);
    }
  }
}
