/**
 The product of a Q8_0 row with a vector from end to end: quantize the vector, multiply the
 bytes with either form, and how far the result is from the product with the vector itself.
 */
module Q8Product {
  import opened RealVectors
  import opened Q8Dot
  import opened Q8Quantize
  import opened Q8Tensor

  // ---------------------------------------------------------------- errors of inner products

  function Magnitudes(row: seq<real>): (r: seq<real>)
    ensures |r| == |row|
  {
    seq(|row|, c requires 0 <= c < |row| => Abs(row[c]))
  }

  lemma Difference(x: real, a: real, b: real)
    ensures Times(x, a) - Times(x, b) == Times(x, a - b)
    ensures Times(-x, a - b) == -Times(x, a - b)
  {
  }

  lemma AbsOfTimes(x: real, d: real, e: real)
    requires 0.0 <= x && Abs(d) <= e
    ensures Abs(Times(x, d)) <= Times(x, e)
  {
    TimesMonotone(x, d, e);
    TimesMonotone(x, -e, d);
    assert x * -e == -(x * e);
  }

  lemma OneError(x: real, a: real, b: real, e: real)
    requires Abs(a - b) <= e
    ensures Abs(Times(x, a) - Times(x, b)) <= Times(Abs(x), e)
  {
    hide Times;
    Difference(x, a, b);
    AbsOfTimes(Abs(x), a - b, e);
  }

  lemma LastProduct(a: seq<real>, b: seq<real>)
    requires |a| == |b| > 0
    ensures var n := |a| - 1; Dot(a, b) == Dot(a[..n], b[..n]) + Times(a[n], b[n])
  {
    var n := |a| - 1;
    var p := Times(a[n], b[n]);
    DotStep(a, b, n);
    assert a[..n + 1] == a && b[..n + 1] == b;
    hide Dot;
    assert p == a[n] * b[n];
  }

  lemma AddErrors(a: real, b: real, c: real, d: real, e: real, f: real)
    requires Abs(a - b) <= e && Abs(c - d) <= f
    ensures Abs((a + c) - (b + d)) <= e + f
  {
  }

  /** Vectors that are near entry by entry have near products with any row. */
  lemma {:induction false} DotDistance(row: seq<real>, a: seq<real>, b: seq<real>, errors: seq<real>)
    requires |row| == |a| == |b| == |errors|
    requires forall c | 0 <= c < |row| :: Abs(a[c] - b[c]) <= errors[c]
    ensures Abs(Dot(row, a) - Dot(row, b)) <= Dot(Magnitudes(row), errors)
    decreases |row|
  {
    hide Abs, Times, Dot;
    if row == [] {
      NoDistance(row, a, b, errors);
    } else {
      var n := |row| - 1;
      DotDistance(row[..n], a[..n], b[..n], errors[..n]);
      OneError(row[n], a[n], b[n], errors[n]);
      assert Magnitudes(row)[..n] == Magnitudes(row[..n]);
      LastProduct(row, a);
      LastProduct(row, b);
      LastProduct(Magnitudes(row), errors);
      AddErrors(Dot(row[..n], a[..n]), Dot(row[..n], b[..n]), Times(row[n], a[n]), Times(row[n], b[n]),
        Dot(Magnitudes(row[..n]), errors[..n]), Times(Abs(row[n]), errors[n]));
    }
  }

  lemma NoDistance(row: seq<real>, a: seq<real>, b: seq<real>, errors: seq<real>)
    requires row == a == b == errors == []
    ensures Abs(Dot(row, a) - Dot(row, b)) <= Dot(Magnitudes(row), errors)
  {
  }

  // ---------------------------------------------------------------- the error of an entry

  /** Half a step of the block, and 127 times what the half conversion of the step is off. */
  function BlockError(toHalf: real -> bits16, half: nat -> real, block: seq<real>): real
    requires |block| == 32
  {
    var step := Step(MaxAbs(block, 32));
    step / 2.0 + 127.0 * Abs(half(toHalf(step)) - step)
  }

  function Errors(toHalf: real -> bits16, half: nat -> real, xs: seq<real>): (errors: seq<real>)
    requires |xs| % 32 == 0
    ensures |errors| == |xs|
  {
    seq(|xs|, c requires 0 <= c < |xs| => BlockError(toHalf, half, Inputs(xs, c / 32)))
  }

  lemma ScaledIsNear(scale: real, step: real, q: real, x: real)
    requires Abs(q) <= 127.0 && 2.0 * Abs(Times(q, step) - x) <= step
    ensures Abs(Times(scale, q) - x) <= step / 2.0 + 127.0 * Abs(scale - step)
  {
    hide Times, Abs;
    OneError(q, scale, step, Abs(scale - step));
    NotNegative(scale - step);
    TimesUpTo(Abs(q), Abs(scale - step));
    Commutes(scale, q);
    Chain(Times(q, scale), Times(q, step), x, Times(Abs(q), Abs(scale - step)));
  }

  lemma TimesUpTo(q: real, d: real)
    requires q <= 127.0 && 0.0 <= d
    ensures Times(q, d) <= 127.0 * d
  {
    TimesMonotone(d, q, 127.0);
  }

  lemma Commutes(a: real, b: real)
    ensures Times(a, b) == Times(b, a)
  {
  }

  lemma Chain(a: real, b: real, c: real, e: real)
    requires Abs(a - b) <= e
    ensures Abs(a - c) <= e + Abs(b - c)
  {
  }

  /** What an encoded block holds. */
  lemma EncodedEntry(toHalf: real -> bits16, half: nat -> real, xs: seq<real>, bytes: seq<int8>, scales: seq<real>, n: nat, even: bool, c: nat)
    requires 32 * n == |xs| && 34 * n <= |bytes| && n <= |scales| && c < |xs|
    requires Encoded(toHalf, half, xs, bytes, scales, n, even)
    ensures
      var block := Inputs(xs, c / 32);
      && scales[c / 32] == half(toHalf(Step(MaxAbs(block, 32))))
      && Abs(block[c % 32]) <= MaxAbs(block, 32) && block[c % 32] == xs[c]
      && bytes[c / 32 * 34 + 2 + c % 32] as int == Quantized(xs[c], MaxAbs(block, 32), even)
  {
    hide MaxAbs, Quantized, Step;
    var b, i := c / 32, c % 32;
    var block := Inputs(xs, b);
    MaxAbsBounds(block, 32, i);
    var stored := bytes[34 * b..34 * b + 34];
    assert stored == BlockBytes(toHalf, block, even);
    assert stored[2 + i] == BlockValues(block, even)[i];
  }

  lemma EntryInside(length: nat, n: nat, c: nat)
    requires 32 * n == length && c < length
    ensures length % 32 == 0 && c / 32 < n
  {
  }

  /** The error that is left in an entry. */
  predicate IsNear(toHalf: real -> bits16, half: nat -> real, block: seq<real>, x: real, a: real)
    requires |block| == 32
  {
    Abs(a - x) <= BlockError(toHalf, half, block)
  }

  /** Every entry of the activation is within the error of its block. */
  lemma EntryIsNear(toHalf: real -> bits16, half: nat -> real, xs: seq<real>, bytes: seq<int8>, scales: seq<real>, n: nat, even: bool, c: nat)
    requires 32 * n == |xs| && 34 * n <= |bytes| && n <= |scales| && c < |xs| && c / 32 < n
    requires Encoded(toHalf, half, xs, bytes, scales, n, even)
    ensures IsNear(toHalf, half, Inputs(xs, c / 32), xs[c], ActivationValue(bytes, scales, c))
  {
    hide Encoded, Abs, MaxAbs, Quantized, Step, Times, ActivationValue;
    EncodedEntry(toHalf, half, xs, bytes, scales, n, even, c);
    var maximum := MaxAbs(Inputs(xs, c / 32), 32);
    var q := Quantized(xs[c], maximum, even);
    QuantizedIsClose(xs[c], maximum, even);
    SmallByte(q);
    ScaledIsNear(scales[c / 32], Step(maximum), q as real, xs[c]);
    ActivationIs(bytes, scales, c);
  }

  lemma SmallByte(q: int)
    requires -127 <= q <= 127
    ensures Abs(q as real) <= 127.0
  {
  }

  lemma ActivationIs(bytes: seq<int8>, scales: seq<real>, c: nat)
    requires (c / 32 + 1) * 34 <= |bytes| && c / 32 < |scales|
    ensures ActivationValue(bytes, scales, c) == Times(scales[c / 32], bytes[c / 32 * 34 + 2 + c % 32] as real)
  {
  }

  lemma ErrorAt(toHalf: real -> bits16, half: nat -> real, xs: seq<real>, x: real, a: real, c: nat)
    requires |xs| % 32 == 0 && c < |xs| && IsNear(toHalf, half, Inputs(xs, c / 32), x, a)
    ensures Abs(a - x) <= Errors(toHalf, half, xs)[c]
  {
    hide Abs, BlockError;
  }

  lemma ActivationIsNear(toHalf: real -> bits16, half: nat -> real, xs: seq<real>, bytes: seq<int8>, scales: seq<real>, n: nat, even: bool)
    requires 32 * n == |xs| && |xs| % 32 == 0 && HasBlocks(|bytes|, 0, n) && n <= |scales|
    requires Encoded(toHalf, half, xs, bytes, scales, n, even)
    ensures forall c | 0 <= c < |xs| :: Abs(Activation(bytes, scales, n)[c] - xs[c]) <= Errors(toHalf, half, xs)[c]
  {
    hide Encoded, Abs, IsNear, Errors;
    forall c | 0 <= c < |xs| ensures Abs(Activation(bytes, scales, n)[c] - xs[c]) <= Errors(toHalf, half, xs)[c] {
      EntryInside(|xs|, n, c);
      EntryIsNear(toHalf, half, xs, bytes, scales, n, even, c);
      ErrorAt(toHalf, half, xs, xs[c], ActivationValue(bytes, scales, c), c);
    }
  }

  lemma RowFits(t: Tensor, row: nat)
    requires Loaded(t) && row < t.rows
    ensures HasBlocks(|t.bytes|, row * Blocks(t), Blocks(t))
  {
    Grid(row, t.rows, Blocks(t));
  }

  // ---------------------------------------------------------------- end to end

  /** A row product that is right for the quantized vector and near for the vector itself. */
  ghost predicate IsProduct(toHalf: real -> bits16, half: nat -> real, t: Tensor, row: nat, xs: seq<real>,
    quantized: seq<int8>, scales: seq<real>, r: real)
    requires Loaded(t) && row < t.rows && |xs| == t.width
    requires HasBlocks(|quantized|, 0, Blocks(t)) && Blocks(t) <= |scales|
  {
    && r == Dot(RowValues(half, t, row), Activation(quantized, scales, Blocks(t)))
    && Abs(r - Dot(RowValues(half, t, row), xs)) <= Dot(Magnitudes(RowValues(half, t, row)), Errors(toHalf, half, xs))
  }

  lemma ProductIsNear(toHalf: real -> bits16, half: nat -> real, t: Tensor, row: nat, xs: seq<real>,
    quantized: seq<int8>, scales: seq<real>, even: bool, r: real)
    requires Loaded(t) && row < t.rows && |xs| == t.width && 32 * Blocks(t) == |xs|
    requires HasBlocks(|quantized|, 0, Blocks(t)) && Blocks(t) <= |scales|
    requires Encoded(toHalf, half, xs, quantized, scales, Blocks(t), even)
    requires HasBlocks(|t.bytes|, row * Blocks(t), Blocks(t))
    requires r == RowDot(half, t.bytes, quantized, scales, row * Blocks(t), Blocks(t))
    ensures IsProduct(toHalf, half, t, row, xs, quantized, scales, r)
  {
    hide Encoded, RowDot, Dot, Errors, Magnitudes, Abs, RowValues, Activation, Loaded;
    QuantizedProductIsDot(half, t, row, quantized, scales);
    ActivationIsNear(toHalf, half, xs, quantized, scales, Blocks(t), even);
    DotDistance(RowValues(half, t, row), Activation(quantized, scales, Blocks(t)), xs, Errors(toHalf, half, xs));
  }

  /** The sizes that the matrix-vector product accepts. */
  predicate Agree(t: Tensor, vector: nat, values: nat, quantized: nat, scales: nat) {
    && vector == t.width && values == t.rows && vector % 32 == 0
    && quantized >= vector + 2 * ((vector + 31) / 32) && scales >= (vector + 31) / 32
  }

  /** One row, with either form. */
  method MultiplyRow(toHalf: real -> bits16, half: nat -> real, t: Tensor, weights: array<int8>, ghost xs: seq<real>, row: nat,
    quantized: array<int8>, scales: array<real>, avx2: bool) returns (r: real)
    requires Loaded(t) && weights[..] == t.bytes && row < t.rows && |xs| == t.width == 32 * Blocks(t)
    requires HasBlocks(quantized.Length, 0, Blocks(t)) && Blocks(t) <= scales.Length && AllSymmetric(quantized[..], Blocks(t))
    requires Encoded(toHalf, half, xs, quantized[..], scales[..], Blocks(t), avx2)
    requires avx2 ==> Blocks(t) < 0x8000_0000
    ensures IsProduct(toHalf, half, t, row, xs, quantized[..], scales[..], r)
  {
    hide Encoded, AllSymmetric, RowIsExact, RowDot, LaneRowDot, IsProduct, Loaded;
    RowFits(t, row);
    SymmetricIsExact(weights[..], quantized[..], row * Blocks(t), Blocks(t));
    r := Dot8(half, weights, quantized, scales, row, Blocks(t), avx2);
    ProductIsNear(toHalf, half, t, row, xs, quantized[..], scales[..], avx2, r);
  }

  /** The loop over the rows. */
  method MultiplyRows(toHalf: real -> bits16, half: nat -> real, t: Tensor, weights: array<int8>, ghost xs: seq<real>,
    values: array<real>, quantized: array<int8>, scales: array<real>, avx2: bool)
    requires Loaded(t) && weights[..] == t.bytes && |xs| == t.width == 32 * Blocks(t)
    requires HasBlocks(quantized.Length, 0, Blocks(t)) && Blocks(t) <= scales.Length && AllSymmetric(quantized[..], Blocks(t))
    requires Encoded(toHalf, half, xs, quantized[..], scales[..], Blocks(t), avx2)
    requires avx2 ==> Blocks(t) < 0x8000_0000
    requires values.Length == t.rows && values != scales
    modifies values
    ensures forall r | 0 <= r < t.rows :: IsProduct(toHalf, half, t, r, xs, quantized[..], scales[..], values[r])
  {
    hide Encoded, AllSymmetric, IsProduct, Loaded;
    ghost var bytes, steps := quantized[..], scales[..];
    for row := 0 to t.rows
      invariant quantized[..] == bytes && scales[..] == steps && weights[..] == t.bytes
      invariant forall r | 0 <= r < row :: IsProduct(toHalf, half, t, r, xs, bytes, steps, values[r])
    {
      values[row] := MultiplyRow(toHalf, half, t, weights, xs, row, quantized, scales, avx2);
    }
  }

  /**
   `gguf_tensor_matvec_q8`: quantizes the vector once and multiplies every row, with either
   form. Sizes that do not agree are refused, and nothing is written.
   */
  method MatVecQ8(toHalf: real -> bits16, half: nat -> real, t: Tensor, weights: array<int8>, vector: array<real>,
    values: array<real>, quantized: array<int8>, scales: array<real>, avx2: bool) returns (ok: bool)
    requires Loaded(t) && weights[..] == t.bytes && quantized != weights
    requires values != vector && scales != vector && values != scales
    requires avx2 ==> Blocks(t) < 0x8000_0000
    modifies values, quantized, scales
    ensures ok <==> Agree(t, vector.Length, values.Length, quantized.Length, scales.Length)
    ensures !ok ==> values[..] == old(values[..]) && quantized[..] == old(quantized[..]) && scales[..] == old(scales[..])
    ensures ok ==> (
      && HasBlocks(quantized.Length, 0, Blocks(t)) && Blocks(t) <= scales.Length
      && forall r | 0 <= r < t.rows :: IsProduct(toHalf, half, t, r, vector[..], quantized[..], scales[..], values[r]))
  {
    hide Encoded, AllSymmetric, IsProduct, Loaded;
    if !Agree(t, vector.Length, values.Length, quantized.Length, scales.Length) { return false; }
    WholeBlocks(t);
    Quantize(toHalf, half, vector, quantized, scales, avx2);
    MultiplyRows(toHalf, half, t, weights, vector[..], values, quantized, scales, avx2);
    ok := true;
  }
}
