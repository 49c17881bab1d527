/**
 Q8_0 data as it is written: a half precision pattern, low byte first, and 32 values. What
 the row and product routines read from such blocks is what was written.
 */
module Q8Blocks {
  import opened RealVectors
  import opened Q8Dot
  import opened Q8Tensor
  import Half
  import Z = Q8Quantize

  datatype Block = Block(pattern: nat, values: seq<int8>)

  predicate IsBlock(block: Block) {
    block.pattern < 0x1_0000 && |block.values| == 32
  }

  predicate AreBlocks(blocks: seq<Block>) {
    forall k | 0 <= k < |blocks| :: IsBlock(blocks[k])
  }

  /** An octet as a signed byte. */
  function Signed8(octet: nat): int8
    requires octet < 256
  {
    if octet < 128 then octet else octet - 256
  }

  function BlockBytes(block: Block): (bytes: seq<int8>)
    requires IsBlock(block)
    ensures |bytes| == 34
  {
    [Signed8(block.pattern % 256), Signed8(block.pattern / 256)] + block.values
  }

  /** The blocks, one after the other. */
  function Written(blocks: seq<Block>): (bytes: seq<int8>)
    requires AreBlocks(blocks)
    ensures |bytes| == 34 * |blocks|
  {
    seq(34 * |blocks|, i requires 0 <= i < 34 * |blocks| => BlockBytes(blocks[i / 34])[i % 34])
  }

  lemma WrittenAt(blocks: seq<Block>, k: nat, i: nat)
    requires AreBlocks(blocks) && k < |blocks| && i < 34
    ensures Written(blocks)[k * 34 + i] == BlockBytes(blocks[k])[i]
  {
    assert (k * 34 + i) / 34 == k && (k * 34 + i) % 34 == i;
  }

  /** Scale and values are read back from the place of the block. */
  lemma BlockReadBack(blocks: seq<Block>, k: nat)
    requires AreBlocks(blocks) && k < |blocks|
    ensures ScaleBits(Written(blocks), k * 34) == blocks[k].pattern
    ensures Values(Written(blocks), k) == blocks[k].values
  {
    hide Written;
    WrittenAt(blocks, k, 0);
    WrittenAt(blocks, k, 1);
    assert Written(blocks)[k * 34] == Written(blocks)[k * 34 + 0];
    forall i | 0 <= i < 32
      ensures Written(blocks)[k * 34 + 2 + i] == blocks[k].values[i]
    {
      WrittenAt(blocks, k, 2 + i);
    }
  }

  /** A matrix of written blocks. */
  predicate IsMatrix(blocks: seq<Block>, width: nat, rows: nat) {
    AreBlocks(blocks) && width > 0 && width % 32 == 0 && |blocks| == rows * (width / 32)
  }

  function Matrix(blocks: seq<Block>, width: nat, rows: nat): (t: Tensor)
    requires IsMatrix(blocks, width, rows)
    ensures Loaded(t)
  {
    Tensor(Written(blocks), width, rows)
  }

  lemma InMatrix(blocks: seq<Block>, width: nat, rows: nat, r: nat, c: nat)
    requires IsMatrix(blocks, width, rows) && r < rows && c < width
    ensures r * (width / 32) + c / 32 < |blocks|
  {
    Grid(r, rows, width / 32);
  }

  /** The number in row `r` and column `c`: the half of its block times its value. */
  function Entry(half: nat -> real, blocks: seq<Block>, width: nat, rows: nat, r: nat, c: nat): real
    requires IsMatrix(blocks, width, rows) && r < rows && c < width
  {
    InMatrix(blocks, width, rows, r, c);
    var block := blocks[r * (width / 32) + c / 32];
    half(block.pattern) * (block.values[c % 32] as real)
  }

  /** A row as it was written. */
  function WrittenRow(half: nat -> real, blocks: seq<Block>, width: nat, rows: nat, r: nat): (row: seq<real>)
    requires IsMatrix(blocks, width, rows) && r < rows
    ensures |row| == width
  {
    seq(width, c requires 0 <= c < width => Entry(half, blocks, width, rows, r, c))
  }

  lemma ElementIsEntry(half: nat -> real, blocks: seq<Block>, width: nat, rows: nat, r: nat, c: nat)
    requires IsMatrix(blocks, width, rows) && r < rows && c < width
    ensures Element(half, Matrix(blocks, width, rows), r, c) == Entry(half, blocks, width, rows, r, c)
  {
    hide Written, ScaleBits;
    InMatrix(blocks, width, rows, r, c);
    var k, i := r * (width / 32) + c / 32, c % 32;
    BlockReadBack(blocks, k);
    assert Values(Written(blocks), k)[i] == Written(blocks)[k * 34 + 2 + i];
  }

  /** Reading a row of written blocks gives the row that was written. */
  lemma RowReadBack(half: nat -> real, blocks: seq<Block>, width: nat, rows: nat, r: nat)
    requires IsMatrix(blocks, width, rows) && r < rows
    ensures RowValues(half, Matrix(blocks, width, rows), r) == WrittenRow(half, blocks, width, rows, r)
  {
    hide Element, Entry, Written;
    forall c | 0 <= c < width
      ensures Element(half, Matrix(blocks, width, rows), r, c) == Entry(half, blocks, width, rows, r, c)
    {
      ElementIsEntry(half, blocks, width, rows, r, c);
    }
  }

  /** What written activations stand for; their scales are kept apart. */
  function WrittenActivation(scales: seq<real>, blocks: seq<Block>): (a: seq<real>)
    requires AreBlocks(blocks) && |blocks| <= |scales|
    ensures |a| == 32 * |blocks|
  {
    seq(32 * |blocks|, c requires 0 <= c < 32 * |blocks| => scales[c / 32] * (blocks[c / 32].values[c % 32] as real))
  }

  lemma ActivationIsWritten(scales: seq<real>, blocks: seq<Block>, c: nat)
    requires AreBlocks(blocks) && |blocks| <= |scales| && c < 32 * |blocks|
    ensures ActivationValue(Written(blocks), scales, c) == scales[c / 32] * (blocks[c / 32].values[c % 32] as real)
  {
    hide Written, ScaleBits;
    BlockReadBack(blocks, c / 32);
    assert Values(Written(blocks), c / 32)[c % 32] == Written(blocks)[c / 32 * 34 + 2 + c % 32];
  }

  lemma ActivationReadBack(scales: seq<real>, blocks: seq<Block>)
    requires AreBlocks(blocks) && |blocks| <= |scales|
    ensures Activation(Written(blocks), scales, |blocks|) == WrittenActivation(scales, blocks)
  {
    var bytes, n := Written(blocks), 32 * |blocks|;
    forall c | 0 <= c < n
      ensures Activation(bytes, scales, |blocks|)[c] == WrittenActivation(scales, blocks)[c]
    {
      hide Written, ActivationValue;
      ActivationIsWritten(scales, blocks, c);
    }
  }

  /** The product on written bytes is the inner product of what was written. */
  lemma ProductOfWritten(half: nat -> real, blocks: seq<Block>, width: nat, rows: nat, r: nat, scales: seq<real>, activation: seq<Block>)
    requires IsMatrix(blocks, width, rows) && r < rows
    requires AreBlocks(activation) && |activation| == width / 32 <= |scales|
    ensures HasBlocks(|Written(blocks)|, r * (width / 32), width / 32)
    ensures RowDot(half, Written(blocks), Written(activation), scales, r * (width / 32), width / 32)
      == Dot(WrittenRow(half, blocks, width, rows, r), WrittenActivation(scales, activation))
  {
    hide Written, RowValues, WrittenRow, Activation, WrittenActivation, RowDot, Dot;
    QuantizedProductIsDot(half, Matrix(blocks, width, rows), r, Written(activation), scales);
    RowReadBack(half, blocks, width, rows, r);
    ActivationReadBack(scales, activation);
  }

  /** A block of the scalar and of the lane-wise product. */
  lemma TermsOfWritten(half: nat -> real, blocks: seq<Block>, activation: seq<Block>, scales: seq<real>, first: nat, b: nat)
    requires AreBlocks(blocks) && AreBlocks(activation) && first + b < |blocks| && b < |activation| && b < |scales|
    ensures
      var weight, scale := blocks[first + b], half(blocks[first + b].pattern) * scales[b];
      && BlockTerm(half, Written(blocks), Written(activation), scales, first, b)
        == scale * (SumProducts(weight.values, activation[b].values, 32) as real)
      && LaneTerm(half, Written(blocks), Written(activation), scales, first, b)
        == scale * (SumSignProducts(weight.values, activation[b].values, 32) as real)
  {
    hide Written, ScaleBits, Values, SumProducts, SumSignProducts;
    BlockReadBack(blocks, first + b);
    BlockReadBack(activation, b);
  }

  // ---------------------------------------------------------------- what the quantizer writes

  /** Block `b` of quantized inputs: the half of its step, and every input in steps, rounded. */
  ghost predicate IsQuantized(toHalf: real -> Z.bits16, xs: seq<real>, b: nat, even: bool, block: Block)
    requires 32 * b + 32 <= |xs|
  {
    && IsBlock(block)
    && (var maximum := Z.MaxAbs(xs[32 * b..32 * b + 32], 32);
        && block.pattern == toHalf(maximum / 127.0)
        && forall i | 0 <= i < 32 :: block.values[i] as int == Z.Quantized(xs[32 * b + i], maximum, even))
  }

  lemma QuantizedBlock(toHalf: real -> Z.bits16, xs: seq<real>, b: nat, even: bool) returns (block: Block)
    requires 32 * b + 32 <= |xs|
    ensures IsQuantized(toHalf, xs, b, even, block)
    ensures Z.BlockBytes(toHalf, Z.Inputs(xs, b), even) == BlockBytes(block)
  {
    hide Z.MaxAbs, Z.Quantized;
    var inputs := Z.Inputs(xs, b);
    block := Block(Z.Scale(toHalf, inputs), Z.BlockValues(inputs, even));
    forall i | 0 <= i < 32
      ensures block.values[i] as int == Z.Quantized(xs[32 * b + i], Z.MaxAbs(inputs, 32), even)
    {
      assert inputs[i] == xs[32 * b + i];
    }
  }

  /** The quantizer writes such blocks, one for every 32 inputs, in order, and the value of each half beside. */
  lemma {:induction false} EncodedIsWritten(toHalf: real -> Z.bits16, half: nat -> real, xs: seq<real>, bytes: seq<int8>,
    scales: seq<real>, n: nat, even: bool) returns (blocks: seq<Block>)
    requires 32 * n <= |xs| && 34 * n <= |bytes| && n <= |scales| && Z.Encoded(toHalf, half, xs, bytes, scales, n, even)
    ensures |blocks| == n && AreBlocks(blocks) && bytes[..34 * n] == Written(blocks)
    ensures forall b | 0 <= b < n :: IsQuantized(toHalf, xs, b, even, blocks[b]) && scales[b] == half(blocks[b].pattern)
    decreases n
  {
    hide Z.BlockBytes, Z.Scale, Z.MaxAbs, IsQuantized, BlockBytes;
    blocks := [];
    if n > 0 {
      blocks := EncodedIsWritten(toHalf, half, xs, bytes, scales, n - 1, even);
      var last := QuantizedBlock(toHalf, xs, n - 1, even);
      PatternOf(toHalf, xs, n - 1, even, last);
      var at := 34 * (n - 1);
      WrittenOneMore(blocks, last);
      assert bytes[..34 * n] == bytes[..at] + bytes[at..at + 34];
      blocks := blocks + [last];
    }
  }

  lemma PatternOf(toHalf: real -> Z.bits16, xs: seq<real>, b: nat, even: bool, block: Block)
    requires 32 * b + 32 <= |xs| && IsQuantized(toHalf, xs, b, even, block)
    ensures IsBlock(block) && block.pattern == Z.Scale(toHalf, Z.Inputs(xs, b))
  {
  }

  lemma WrittenOneMore(blocks: seq<Block>, last: Block)
    requires AreBlocks(blocks) && IsBlock(last)
    ensures AreBlocks(blocks + [last]) && Written(blocks + [last]) == Written(blocks) + BlockBytes(last)
  {
    hide BlockBytes;
    var all, n := blocks + [last], |blocks|;
    forall i | 0 <= i < 34 * n + 34
      ensures Written(all)[i] == (Written(blocks) + BlockBytes(last))[i]
    {
      WrittenAt(all, i / 34, i % 34);
      if i < 34 * n {
        assert all[i / 34] == blocks[i / 34];
        WrittenAt(blocks, i / 34, i % 34);
      } else {
        assert i / 34 == n && i - 34 * n == i % 34;
      }
    }
  }

  // ---------------------------------------------------------------- concrete bytes

  /** The number that a half precision pattern stands for; infinities and what is not a number aside. */
  function HalfNumber(pattern: nat): real {
    if pattern < 0x1_0000 then (Half.HalfValue(pattern) as real) / (Half.Pow2(149) as real) else 0.0
  }

  lemma OneIsOne()
    ensures HalfNumber(0x3C00) == 1.0
  {
    hide Half.Pow2;
    Half.Pow2Add(139, 10);
    Half.KnownPowers();
    Ratio(Half.Pow2(149) as real);
  }

  lemma Ratio(x: real)
    requires x > 0.0
    ensures x / x == 1.0
  {
  }

  /** Bytes 0x00, 0x3C, then 1 and 31 zeros: the first number is 1, the others are 0. */
  lemma FirstIsOne(bytes: seq<int8>)
    requires |bytes| == 34 && bytes[0] == 0x00 && bytes[1] == 0x3C && bytes[2] == 1
    requires forall i | 3 <= i < 34 :: bytes[i] == 0
    ensures Loaded(Tensor(bytes, 32, 1))
    ensures RowValues(HalfNumber, Tensor(bytes, 32, 1), 0) == [1.0] + seq(31, i => 0.0)
  {
    hide HalfNumber;
    OneIsOne();
  }
}
