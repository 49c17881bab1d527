/**
 Q8_0 matrices in a tensor file: the element, row and product routines all read the same
 34-byte blocks, the rows tile the tensor, and several products run together equal the
 products run apart. Sums are in exact arithmetic.
 */
module Q8Tensor {
  import opened Bytes
  import opened RealVectors
  import opened Q = Q8Dot

  /** A matrix of `rows` rows; `half` gives the value of a half precision pattern. */
  datatype Tensor = Tensor(bytes: seq<int8>, width: nat, rows: nat)

  /** The bytes of a tensor with this width and number of elements; none if the width is refused. */
  function TensorBytes(width: int, elements: nat): Option<int> {
    if width <= 0 || width % 32 != 0 then None else Some(elements / width * (width / 32) * 34)
  }

  predicate Loaded(t: Tensor) {
    t.width > 0 && t.width % 32 == 0 && |t.bytes| == t.rows * (t.width / 32) * 34
  }

  /** Exactly as many bytes as the loader computes. */
  lemma LoadedExactly(t: Tensor)
    ensures Loaded(t) <==> TensorBytes(t.width, t.rows * t.width) == Some(|t.bytes|)
  {
    if t.width > 0 {
      Cancel(t.rows, t.width);
    }
  }

  lemma Cancel(rows: nat, width: nat)
    requires 0 < width
    ensures rows * width / width == rows
  {
    var a := rows * width;
    var k, rest := a / width, a % width;
    assert a == k * width + rest;
    if k < rows { Grid(k, rows, width); }
    if rows < k { Grid(rows, k, width); }
  }

  function Blocks(t: Tensor): nat {
    t.width / 32
  }

  /** The block of row `r` and block column `b`, both from zero. */
  lemma BlockInside(t: Tensor, r: nat, b: nat)
    requires Loaded(t) && r < t.rows && b < Blocks(t)
    ensures (r * Blocks(t) + b) * 34 + 34 <= |t.bytes|
  {
    var n := Blocks(t);
    assert r * n + n <= t.rows * n by { Grid(r, t.rows, n); }
  }

  lemma Grid(r: nat, rows: nat, n: nat)
    requires r < rows
    ensures r * n + n <= rows * n
  {
    assert (r + 1) * n <= rows * n;
  }

  /** Value `i` of block `block`. */
  function BlockValue(half: nat -> real, bytes: seq<int8>, block: nat, i: nat): real
    requires block * 34 + 34 <= |bytes| && i < 32
  {
    half(ScaleBits(bytes, block * 34)) * (bytes[block * 34 + 2 + i] as real)
  }

  /** Element (r, c), both from zero. */
  function Element(half: nat -> real, t: Tensor, r: nat, c: nat): real
    requires Loaded(t) && r < t.rows && c < t.width
  {
    BlockInside(t, r, c / 32);
    BlockValue(half, t.bytes, r * Blocks(t) + c / 32, c % 32)
  }

  function RowValues(half: nat -> real, t: Tensor, r: nat): (row: seq<real>)
    requires Loaded(t) && r < t.rows
    ensures |row| == t.width
  {
    seq(t.width, c requires 0 <= c < t.width => Element(half, t, r, c))
  }

  // ---------------------------------------------------------------- by index

  lemma IndexInside(t: Tensor, index: nat)
    requires Loaded(t) && index < t.rows * t.width
    ensures index / 32 * 34 + 34 <= |t.bytes|
  {
    var n := Blocks(t);
    assert t.width == 32 * n;
    assert t.rows * t.width == 32 * (t.rows * n) by { Thirty(t.rows, n); }
    assert index / 32 < t.rows * n;
  }

  lemma Thirty(a: nat, n: nat)
    ensures a * (32 * n) == 32 * (a * n)
  {
  }

  /** `gguf_tensor_value`: the index counts from one; outside it is zero. */
  function Value(half: nat -> real, t: Tensor, index: int): real
    requires Loaded(t)
  {
    if index < 1 || index > t.rows * t.width then 0.0
    else
      IndexInside(t, index - 1);
      BlockValue(half, t.bytes, (index - 1) / 32, (index - 1) % 32)
  }

  /** The index of an element leads to the block of its row and column. */
  lemma ValueIsElement(half: nat -> real, t: Tensor, r: nat, c: nat)
    requires Loaded(t) && r < t.rows && c < t.width
    ensures Value(half, t, r * t.width + c + 1) == Element(half, t, r, c)
  {
    hide BlockValue;
    var n := Blocks(t);
    assert t.width == 32 * n;
    Thirty(r, n);
    var index := r * t.width + c;
    assert index == 32 * (r * n) + c;
    assert index / 32 == r * n + c / 32 && index % 32 == c % 32;
    Grid(r, t.rows, t.width);
  }

  /** The byte ranges of the rows follow one another and fill the tensor. */
  lemma RowsTile(t: Tensor, r: nat)
    requires Loaded(t) && r < t.rows
    ensures
      var size := Blocks(t) * 34;
      var start := r * Blocks(t) * 34;
      && start + size == (r + 1) * Blocks(t) * 34
      && start + size <= |t.bytes|
      && (r + 1 == t.rows ==> start + size == |t.bytes|)
  {
    var n := Blocks(t);
    assert (r + 1) * n == r * n + n;
    Grid(r, t.rows, n);
  }

  // ---------------------------------------------------------------- by row

  /** `q8_dequantize_row_scalar` */
  method DequantizeRow(half: nat -> real, weights: seq<int8>, first: nat, output: array<real>, blockCount: nat)
    requires (first + blockCount) * 34 <= |weights| && output.Length == 32 * blockCount
    modifies output
    ensures forall c | 0 <= c < output.Length ::
      (first + c / 32) * 34 + 34 <= |weights| && output[c] == BlockValue(half, weights, first + c / 32, c % 32)
  {
    hide ScaleBits;
    for block := 0 to blockCount
      invariant forall c | 0 <= c < 32 * block ::
        (first + c / 32) * 34 + 34 <= |weights| && output[c] == BlockValue(half, weights, first + c / 32, c % 32)
    {
      var offset := (first + block) * 34;
      var scale := half(ScaleBits(weights, offset));
      for i := 0 to 32
        invariant forall c | 0 <= c < 32 * block + i ::
          (first + c / 32) * 34 + 34 <= |weights| && output[c] == BlockValue(half, weights, first + c / 32, c % 32)
      {
        output[block * 32 + i] := scale * (weights[offset + 2 + i] as real);
        assert (block * 32 + i) / 32 == block && (block * 32 + i) % 32 == i;
      }
    }
  }

  /** `gguf_tensor_get_row`: rows count from one; a wrong row or size is an error and writes nothing. */
  method GetRow(half: nat -> real, t: Tensor, row: int, values: array<real>) returns (ok: bool)
    requires Loaded(t)
    modifies values
    ensures ok <==> 1 <= row <= t.rows && values.Length == t.width
    ensures ok ==> values[..] == RowValues(half, t, row - 1)
    ensures !ok ==> values[..] == old(values[..])
  {
    if row < 1 || row > t.rows || values.Length != t.width { return false; }
    Grid(row - 1, t.rows, Blocks(t));
    hide BlockValue;
    DequantizeRow(half, t.bytes, (row - 1) * Blocks(t), values, Blocks(t));
    forall c | 0 <= c < t.width ensures values[c] == RowValues(half, t, row - 1)[c] {
    }
    return true;
  }

  // ---------------------------------------------------------------- products

  /** `gguf_tensor_dot` for Q8_0: rows count from one; the wrong row or size gives zero. */
  method TensorDot(half: nat -> real, t: Tensor, row: int, vector: seq<real>) returns (r: real)
    requires Loaded(t)
    ensures r == if 1 <= row <= t.rows && |vector| == t.width then Dot(RowValues(half, t, row - 1), vector) else 0.0
  {
    hide Dot, RowValues, Loaded;
    if row < 1 || row > t.rows || |vector| != t.width { return 0.0; }
    r := TensorRowDot(half, t, row - 1, vector);
  }

  /** The loop over the blocks. */
  method TensorRowDot(half: nat -> real, t: Tensor, row: nat, vector: seq<real>) returns (r: real)
    requires Loaded(t) && row < t.rows && |vector| == t.width
    ensures r == Dot(RowValues(half, t, row), vector)
  {
    hide Dot, RowValues, Loaded;
    ghost var target := RowValues(half, t, row);
    var blockCount := t.width / 32;
    WholeBlocks(t);
    r := 0.0;
    EmptyDot(target, vector);
    for block := 0 to blockCount
      invariant r == Dot(target[..32 * block], vector[..32 * block])
    {
      r := TensorDotBlock(half, t, row, block, vector, r);
    }
    assert target[..t.width] == target && vector[..t.width] == vector;
  }

  lemma EntryOf(half: nat -> real, t: Tensor, row: nat, block: nat, i: nat)
    requires Loaded(t) && row < t.rows && block < Blocks(t) && i < 32
    ensures
      var offset := (row * Blocks(t) + block) * 34;
      offset + 34 <= |t.bytes| && 32 * block + i < t.width
      && RowValues(half, t, row)[32 * block + i] == Times(half(ScaleBits(t.bytes, offset)), t.bytes[offset + 2 + i] as real)
  {
    hide ScaleBits;
    BlockInside(t, row, block);
    var c := 32 * block + i;
    assert c / 32 == block && c % 32 == i;
  }

  /** The inner loop over one block. */
  method TensorDotBlock(half: nat -> real, t: Tensor, row: nat, block: nat, vector: seq<real>, before: real) returns (r: real)
    requires Loaded(t) && row < t.rows && block < Blocks(t) && |vector| == t.width
    requires before == Dot(RowValues(half, t, row)[..32 * block], vector[..32 * block])
    ensures r == Dot(RowValues(half, t, row)[..32 * (block + 1)], vector[..32 * (block + 1)])
  {
    hide Dot, ScaleBits, RowValues, Loaded, Times;
    ghost var target := RowValues(half, t, row);
    WholeBlocks(t);
    BlockInside(t, row, block);
    var offset := (row * Blocks(t) + block) * 34;
    var scale := half(ScaleBits(t.bytes, offset));
    r := before;
    for i := 0 to 32
      invariant r == Dot(target[..32 * block + i], vector[..32 * block + i])
    {
      EntryOf(half, t, row, block, i);
      DotStep(target, vector, 32 * block + i);
      var value := Times(scale, t.bytes[offset + 2 + i] as real);
      r := r + value * vector[32 * block + i];
    }
  }

  lemma WholeBlocks(t: Tensor)
    requires Loaded(t)
    ensures t.width == 32 * Blocks(t)
  {
  }

  lemma EmptyDot(a: seq<real>, b: seq<real>)
    requires |a| == |b|
    ensures Dot(a[..0], b[..0]) == 0.0
  {
  }

  /** What the quantized activation stands for. */
  function ActivationValue(quantized: seq<int8>, scales: seq<real>, c: nat): real
    requires (c / 32 + 1) * 34 <= |quantized| && c / 32 < |scales|
  {
    scales[c / 32] * (quantized[c / 32 * 34 + 2 + c % 32] as real)
  }

  function Activation(quantized: seq<int8>, scales: seq<real>, blocks: nat): (a: seq<real>)
    requires HasBlocks(|quantized|, 0, blocks) && blocks <= |scales|
    ensures |a| == 32 * blocks
  {
    seq(32 * blocks, c requires 0 <= c < 32 * blocks => ActivationValue(quantized, scales, c))
  }

  lemma Regroup(h: real, w: real, s: real, a: real)
    ensures (h * w) * (s * a) == (h * s) * (w * a)
  {
    assert (h * w) * (s * a) == h * (w * s) * a;
    assert (h * s) * (w * a) == h * (s * w) * a;
  }

  /** One block of both, from either side. */
  lemma {:induction false} BlockProducts(half: nat -> real, t: Tensor, r: nat, quantized: seq<int8>, scales: seq<real>, b: nat, i: nat)
    requires Loaded(t) && r < t.rows && b < Blocks(t) && i <= 32
    requires HasBlocks(|quantized|, 0, Blocks(t)) && Blocks(t) <= |scales|
    ensures (r * Blocks(t) + b) * 34 + 34 <= |t.bytes|
    ensures
      var row, a := RowValues(half, t, r), Activation(quantized, scales, Blocks(t));
      var w, q := Values(t.bytes, r * Blocks(t) + b), Values(quantized, b);
      Dot(row[32 * b..32 * b + i], a[32 * b..32 * b + i])
        == BlockScale(half, t.bytes, scales, (r * Blocks(t) + b) * 34, b) * (SumProducts(w, q, i) as real)
    decreases i
  {
    hide Product, Dot, RowValues, Activation, BlockScale, Values, SumProducts, Loaded;
    BlockInside(t, r, b);
    WholeBlocks(t);
    var row, a := RowValues(half, t, r), Activation(quantized, scales, Blocks(t));
    var w, q := Values(t.bytes, r * Blocks(t) + b), Values(quantized, b);
    SumStep(w, q, i);
    SliceDot(row, a, 32 * b, i);
    if i == 0 {
      NoScale(BlockScale(half, t.bytes, scales, (r * Blocks(t) + b) * 34, b));
    } else {
      BlockProducts(half, t, r, quantized, scales, b, i - 1);
      OneProduct(half, t, r, quantized, scales, b, i - 1);
      AddProducts(BlockScale(half, t.bytes, scales, (r * Blocks(t) + b) * 34, b), SumProducts(w, q, i - 1), Product(w[i - 1], q[i - 1]));
    }
  }

  lemma NoScale(scale: real)
    ensures scale * (0 as real) == 0.0
  {
  }

  lemma SumStep(w: seq<int8>, q: seq<int8>, i: nat)
    requires i <= |w| == |q|
    ensures SumProducts(w, q, i) == if i == 0 then 0 else SumProducts(w, q, i - 1) + Product(w[i - 1], q[i - 1])
  {
  }

  lemma SliceDot(x: seq<real>, y: seq<real>, at: nat, i: nat)
    requires |x| == |y| && at + i <= |x|
    ensures Dot(x[at..at + i], y[at..at + i])
      == if i == 0 then 0.0 else Dot(x[at..at + (i - 1)], y[at..at + (i - 1)]) + x[at + (i - 1)] * y[at + (i - 1)]
  {
    if i > 0 {
      var a, b := x[at..at + i], y[at..at + i];
      assert a[..i - 1] == x[at..at + (i - 1)] && b[..i - 1] == y[at..at + (i - 1)];
    }
  }

  lemma AddProducts(scale: real, a: int, b: int)
    ensures scale * (a as real) + scale * (b as real) == scale * ((a + b) as real)
  {
    assert (a + b) as real == a as real + b as real;
  }

  lemma OneProduct(half: nat -> real, t: Tensor, r: nat, quantized: seq<int8>, scales: seq<real>, b: nat, i: nat)
    requires Loaded(t) && r < t.rows && b < Blocks(t) && i < 32
    requires HasBlocks(|quantized|, 0, Blocks(t)) && Blocks(t) <= |scales|
    ensures (r * Blocks(t) + b) * 34 + 34 <= |t.bytes|
    ensures RowValues(half, t, r)[32 * b + i] * Activation(quantized, scales, Blocks(t))[32 * b + i]
      == BlockScale(half, t.bytes, scales, (r * Blocks(t) + b) * 34, b)
        * (Product(Values(t.bytes, r * Blocks(t) + b)[i], Values(quantized, b)[i]) as real)
  {
    hide ScaleBits;
    BlockInside(t, r, b);
    var c := 32 * b + i;
    assert c / 32 == b && c % 32 == i;
    var w, q := Values(t.bytes, r * Blocks(t) + b)[i], Values(quantized, b)[i];
    Regroup(half(ScaleBits(t.bytes, (r * Blocks(t) + b) * 34)), w as real, scales[b], q as real);
    assert (w as real) * (q as real) == Product(w, q) as real;
  }

  lemma {:induction false} QuantizedPrefix(half: nat -> real, t: Tensor, r: nat, quantized: seq<int8>, scales: seq<real>, n: nat)
    requires Loaded(t) && r < t.rows && n <= Blocks(t)
    requires HasBlocks(|quantized|, 0, Blocks(t)) && Blocks(t) <= |scales|
    ensures HasBlocks(|t.bytes|, r * Blocks(t), n)
    ensures RowDot(half, t.bytes, quantized, scales, r * Blocks(t), n)
      == Dot(RowValues(half, t, r)[..32 * n], Activation(quantized, scales, Blocks(t))[..32 * n])
    decreases n
  {
    hide RowValues, Activation, SumProducts, Values, BlockScale;
    Grid(r, t.rows, Blocks(t));
    var row, a := RowValues(half, t, r), Activation(quantized, scales, Blocks(t));
    if n > 0 {
      hide Dot;
      QuantizedPrefix(half, t, r, quantized, scales, n - 1);
      DotBlock(row, a, 32 * (n - 1));
      BlockProducts(half, t, r, quantized, scales, n - 1, 32);
    }
  }

  /** The product on quantized bytes is the inner product of the values that row and activation stand for. */
  lemma QuantizedProductIsDot(half: nat -> real, t: Tensor, r: nat, quantized: seq<int8>, scales: seq<real>)
    requires Loaded(t) && r < t.rows
    requires HasBlocks(|quantized|, 0, Blocks(t)) && Blocks(t) <= |scales|
    ensures HasBlocks(|t.bytes|, r * Blocks(t), Blocks(t))
    ensures RowDot(half, t.bytes, quantized, scales, r * Blocks(t), Blocks(t))
      == Dot(RowValues(half, t, r), Activation(quantized, scales, Blocks(t)))
  {
    hide RowValues, Activation, Dot;
    QuantizedPrefix(half, t, r, quantized, scales, Blocks(t));
    var row, a := RowValues(half, t, r), Activation(quantized, scales, Blocks(t));
    assert row[..32 * Blocks(t)] == row && a[..32 * Blocks(t)] == a;
  }

  // ---------------------------------------------------------------- several products together

  /** One output per row. */
  function MatVec(half: nat -> real, t: Tensor, quantized: seq<int8>, scales: seq<real>): (values: seq<real>)
    requires Loaded(t) && HasBlocks(|quantized|, 0, Blocks(t)) && Blocks(t) <= |scales|
    ensures |values| == t.rows
  {
    seq(t.rows, r requires 0 <= r < t.rows => RowProduct(half, t, quantized, scales, r))
  }

  /** Every index from 1 to `n`, once each, in any order. */
  predicate IsSchedule(order: seq<nat>, n: nat) {
    && (forall i | 0 <= i < |order| :: 1 <= order[i] <= n)
    && (forall i, j | 0 <= i < j < |order| :: order[i] != order[j])
    && (forall k | 1 <= k <= n :: k in order)
  }

  predicate Compatible(t: Tensor, width: nat) {
    Loaded(t) && t.width == width
  }

  /** The loop of `gguf_tensor_matvec_triplet_q8`, with its indices in any order, as threads take them. */
  method MatVecTriplet(half: nat -> real, first: Tensor, second: Tensor, third: Tensor, quantized: seq<int8>, scales: seq<real>,
    order: seq<nat>, values: array<real>, secondValues: array<real>, thirdValues: array<real>)
    requires Compatible(first, first.width) && Compatible(second, first.width) && Compatible(third, first.width)
    requires HasBlocks(|quantized|, 0, Blocks(first)) && Blocks(first) <= |scales|
    requires values.Length == first.rows && secondValues.Length == second.rows && thirdValues.Length == third.rows
    requires values != secondValues && secondValues != thirdValues && values != thirdValues
    requires IsSchedule(order, first.rows + second.rows + third.rows)
    modifies values, secondValues, thirdValues
    ensures values[..] == MatVec(half, first, quantized, scales)
    ensures secondValues[..] == MatVec(half, second, quantized, scales)
    ensures thirdValues[..] == MatVec(half, third, quantized, scales)
  {
    hide RowProduct, Loaded, IsSchedule;
    ghost var a, b, c := MatVec(half, first, quantized, scales), MatVec(half, second, quantized, scales), MatVec(half, third, quantized, scales);
    for i := 0 to |order|
      invariant forall r | 0 <= r < first.rows && r + 1 in order[..i] :: values[r] == a[r]
      invariant forall r | 0 <= r < second.rows && first.rows + r + 1 in order[..i] :: secondValues[r] == b[r]
      invariant forall r | 0 <= r < third.rows && first.rows + second.rows + r + 1 in order[..i] :: thirdValues[r] == c[r]
    {
      var index := order[i];
      InSchedule(order, first.rows + second.rows + third.rows, i);
      assert order[..i + 1] == order[..i] + [index];
      if index <= first.rows {
        values[index - 1] := RowProduct(half, first, quantized, scales, index - 1);
      } else if index <= first.rows + second.rows {
        var row := index - first.rows;
        secondValues[row - 1] := RowProduct(half, second, quantized, scales, row - 1);
      } else {
        var row := index - first.rows - second.rows;
        thirdValues[row - 1] := RowProduct(half, third, quantized, scales, row - 1);
      }
    }
    Covered(order, first.rows + second.rows + third.rows);
  }

  lemma InSchedule(order: seq<nat>, n: nat, i: nat)
    requires IsSchedule(order, n) && i < |order|
    ensures 1 <= order[i] <= n
  {
  }

  lemma Covered(order: seq<nat>, n: nat)
    requires IsSchedule(order, n)
    ensures order[..|order|] == order && forall k | 1 <= k <= n :: k in order
  {
  }

  /** `fortai_q8_dot` for one row. */
  function RowProduct(half: nat -> real, t: Tensor, quantized: seq<int8>, scales: seq<real>, r: nat): real
    requires Loaded(t) && r < t.rows && HasBlocks(|quantized|, 0, Blocks(t)) && Blocks(t) <= |scales|
  {
    Grid(r, t.rows, Blocks(t));
    RowDot(half, t.bytes, quantized, scales, r * Blocks(t), Blocks(t))
  }
}
