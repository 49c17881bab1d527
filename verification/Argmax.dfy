/**
 The greedy choice: the plain scan for the first maximum, and the scan over eight lanes
 with its tie-breaking reduction. Values are floating-point numbers without rounding:
 reals, the two infinities and NaN, with the comparisons of IEEE 754.
 */
module Argmax {
  import V = RealVectors

  datatype Float = NaN | NegInf | Finite(value: real) | PosInf

  /** `a > b`; false as soon as one side is NaN. */
  predicate Greater(a: Float, b: Float) {
    match a
    case NaN => false
    case NegInf => false
    case Finite(x) => b.NegInf? || (b.Finite? && x > b.value)
    case PosInf => b.NegInf? || b.Finite?
  }

  // ---------------------------------------------------------------- what the scans look for

  /**
   `index` and `value` lead the entries selected by `scope`: `value` is the greatest of
   them and `index` the least place where it occurs; with nothing above minus infinity
   they are still the initial 0 and minus infinity.
   */
  ghost predicate Leads(values: seq<Float>, scope: nat -> bool, index: nat, value: Float) {
    && (forall j: nat | j < |values| && scope(j) :: !Greater(values[j], value))
    && if value.NegInf? then index == 0
       else
         && !value.NaN? && index < |values| && scope(index) && values[index] == value
         && (forall j: nat | j < index && scope(j) :: values[j] != value)
  }

  predicate Anywhere(j: nat) { true }

  /** The least place of the greatest entry, with minus infinity and NaN never chosen; 0 if nothing is left. */
  ghost predicate IsFirstMaximum(values: seq<Float>, index: nat) {
    exists value :: Leads(values, Anywhere, index, value)
  }

  lemma FirstMaximumIsUnique(values: seq<Float>, a: nat, b: nat)
    requires IsFirstMaximum(values, a) && IsFirstMaximum(values, b)
    ensures a == b
  {
    var v: Float :| Leads(values, Anywhere, a, v);
    var w: Float :| Leads(values, Anywhere, b, w);
    assert v == w by {
      if !v.NegInf? {
        assert !Greater(values[a], w);
      }
      if !w.NegInf? {
        assert !Greater(values[b], v);
      }
    }
  }

  // ---------------------------------------------------------------- exact sums

  function Add(a: Float, b: Float): Float {
    match (a, b)
    case (NaN, _) => NaN
    case (_, NaN) => NaN
    case (PosInf, NegInf) => NaN
    case (NegInf, PosInf) => NaN
    case (PosInf, _) => PosInf
    case (_, PosInf) => PosInf
    case (NegInf, _) => NegInf
    case (_, NegInf) => NegInf
    case (Finite(x), Finite(y)) => Finite(x + y)
  }

  const ZERO: Float := Finite(0.0)

  function Sum(values: seq<Float>): Float {
    if values == [] then ZERO else Add(Sum(values[..|values| - 1]), values[|values| - 1])
  }

  lemma AddIsCommutativeMonoid(a: Float, b: Float, c: Float)
    ensures Add(a, b) == Add(b, a) && Add(Add(a, b), c) == Add(a, Add(b, c)) && Add(ZERO, a) == a
  {
  }

  lemma {:induction false} SumAppend(left: seq<Float>, right: seq<Float>)
    ensures Sum(left + right) == Add(Sum(left), Sum(right))
    decreases |right|
  {
    if right == [] {
      assert left + right == left;
      AddIsCommutativeMonoid(Sum(left), ZERO, ZERO);
    } else {
      var init, last := right[..|right| - 1], right[|right| - 1];
      assert (left + right)[..|left + right| - 1] == left + init;
      SumAppend(left, init);
      AddIsCommutativeMonoid(Sum(left), Sum(init), last);
    }
  }

  /** Adding two rows entry by entry and summing is summing both rows. */
  lemma {:induction false} SumOfLaneSums(a: seq<Float>, b: seq<Float>)
    requires |a| == |b|
    ensures Sum(AddLanes(a, b)) == Add(Sum(a), Sum(b))
    decreases |a|
  {
    if a != [] {
      var n := |a| - 1;
      SumOfLaneSums(a[..n], b[..n]);
      assert AddLanes(a, b)[..n] == AddLanes(a[..n], b[..n]);
      var x, y, u, v := Sum(a[..n]), Sum(b[..n]), a[n], b[n];
      AddIsCommutativeMonoid(x, y, Add(u, v));
      AddIsCommutativeMonoid(y, u, v);
      AddIsCommutativeMonoid(u, y, v);
      AddIsCommutativeMonoid(x, u, Add(y, v));
      assert Add(Add(x, y), Add(u, v)) == Add(Add(x, u), Add(y, v));
    }
  }

  function AddLanes(a: seq<Float>, b: seq<Float>): seq<Float>
    requires |a| == |b|
  {
    seq(|a|, k requires 0 <= k < |a| => Add(a[k], b[k]))
  }

  // ---------------------------------------------------------------- the plain scan

  ghost function Before(end: nat): nat -> bool {
    (j: nat) => j < end
  }

  /** The scan without vector instructions. */
  method ScalarArgmax(values: seq<Float>) returns (best: nat, total: Float)
    requires values != []
    ensures best < |values|
    ensures values[0].NaN? ==> best == 0
    ensures !values[0].NaN? ==> IsFirstMaximum(values, best)
    ensures total == Sum(values)
  {
    hide Leads, Sum, Add, Greater, IsFirstMaximum;
    best := 0;
    var bestValue := values[0];
    total := values[0];
    FirstOfScan(values);
    for i := 1 to |values|
      invariant best < i && bestValue == values[best]
      invariant values[0].NaN? ==> best == 0
      invariant !values[0].NaN? ==> Leads(values, Before(i), best, bestValue)
      invariant total == Sum(values[..i])
    {
      SumStep(values, i);
      if !values[0].NaN? {
        LeadsStep(values, i, best, bestValue);
      } else {
        NothingAboveNaN(values[i]);
      }
      total := Add(total, values[i]);
      if Greater(values[i], bestValue) {
        bestValue := values[i];
        best := i;
      }
    }
    assert values[..|values|] == values;
    if !values[0].NaN? {
      LeadsAtEnd(values, best, bestValue);
    }
  }

  lemma NothingAboveNaN(a: Float)
    ensures !Greater(a, NaN)
  {
  }

  /** The scan begins with the first entry. */
  lemma FirstOfScan(values: seq<Float>)
    requires values != []
    ensures Sum(values[..1]) == values[0]
    ensures !values[0].NaN? ==> Leads(values, Before(1), 0, values[0])
  {
    assert values[..1] == [values[0]] && [values[0]][..0] == [];
    assert Sum([values[0]]) == Add(Sum([]), values[0]);
    AddIsCommutativeMonoid(values[0], ZERO, ZERO);
  }

  // ---------------------------------------------------------------- the scan over eight lanes

  const LANES: nat := 8

  ghost function Lane(offset: nat, k: nat): nat -> bool {
    (j: nat) => j < offset && j % LANES == k
  }

  ghost function LanesBelow(offset: nat, k: nat): nat -> bool {
    (j: nat) => j < offset && j % LANES < k
  }

  /** The three registers of the loop: maxima, their places, and the places of the next block. */
  datatype Registers = Registers(maximum: seq<Float>, indices: seq<nat>, nextIndices: seq<nat>)

  predicate WellSized(r: Registers) {
    |r.maximum| == |r.indices| == |r.nextIndices| == LANES
  }

  /** One block: compare, blend the maxima, blend their places, advance the places. */
  function StepRegisters(r: Registers, current: seq<Float>): (next: Registers)
    requires WellSized(r) && |current| == LANES
    ensures WellSized(next)
  {
    Registers(
      seq(LANES, k requires 0 <= k < LANES => if Greater(current[k], r.maximum[k]) then current[k] else r.maximum[k]),
      seq(LANES, k requires 0 <= k < LANES => if Greater(current[k], r.maximum[k]) then r.nextIndices[k] else r.indices[k]),
      seq(LANES, k requires 0 <= k < LANES => r.nextIndices[k] + LANES))
  }

  /** After `offset` entries every lane holds the leader of its own entries. */
  ghost predicate LanesLead(values: seq<Float>, offset: nat, r: Registers) {
    && WellSized(r) && offset <= |values| && offset % LANES == 0
    && (forall k | 0 <= k < LANES :: r.nextIndices[k] == offset + k)
    && (forall k | 0 <= k < LANES :: Leads(values, Lane(offset, k), r.indices[k], r.maximum[k]))
  }

  lemma LaneOfPlace(offset: nat, j: nat)
    requires offset % LANES == 0 && offset <= j < offset + LANES
    ensures j % LANES == j - offset
  {
  }

  lemma StepLane(values: seq<Float>, offset: nat, k: nat, index: nat, value: Float)
    requires offset % LANES == 0 && offset + LANES <= |values| && k < LANES
    requires Leads(values, Lane(offset, k), index, value)
    ensures if Greater(values[offset + k], value) then Leads(values, Lane(offset + LANES, k), offset + k, values[offset + k])
            else Leads(values, Lane(offset + LANES, k), index, value)
  {
    forall j: nat | j < offset + LANES && j % LANES == k
      ensures j < offset || j == offset + k
    {
      if j >= offset {
        LaneOfPlace(offset, j);
      }
    }
    LaneOfPlace(offset, offset + k);
  }

  lemma StepKeepsLanes(values: seq<Float>, offset: nat, r: Registers)
    requires LanesLead(values, offset, r) && offset + LANES <= |values|
    ensures LanesLead(values, offset + LANES, StepRegisters(r, values[offset..offset + LANES]))
  {
    var current := values[offset..offset + LANES];
    var next := StepRegisters(r, current);
    forall k: nat | k < LANES
      ensures Leads(values, Lane(offset + LANES, k), next.indices[k], next.maximum[k])
    {
      assert current[k] == values[offset + k];
      StepLane(values, offset, k, r.indices[k], r.maximum[k]);
    }
  }

  /** One turn of the reduction: the leader of the lanes below k against the leader of lane k. */
  lemma ReduceLane(values: seq<Float>, offset: nat, k: nat, best: nat, bestValue: Float, index: nat, value: Float)
    requires Leads(values, LanesBelow(offset, k), best, bestValue) && Leads(values, Lane(offset, k), index, value)
    ensures if Greater(value, bestValue) || (value == bestValue && index < best)
            then Leads(values, LanesBelow(offset, k + 1), index, value)
            else Leads(values, LanesBelow(offset, k + 1), best, bestValue)
  {
  }

  method ReduceLanes(values: seq<Float>, offset: nat, r: Registers) returns (best: nat, bestValue: Float)
    requires LanesLead(values, offset, r)
    ensures Leads(values, Before(offset), best, bestValue)
  {
    best := r.indices[0];
    bestValue := r.maximum[0];
    assert Leads(values, Lane(offset, 0), best, bestValue);
    assert Leads(values, LanesBelow(offset, 1), best, bestValue);
    for lane := 1 to LANES
      invariant Leads(values, LanesBelow(offset, lane), best, bestValue)
    {
      ReduceLane(values, offset, lane, best, bestValue, r.indices[lane], r.maximum[lane]);
      if Greater(r.maximum[lane], bestValue) || (r.maximum[lane] == bestValue && r.indices[lane] < best) {
        bestValue := r.maximum[lane];
        best := r.indices[lane];
      }
    }
    assert forall j: nat :: LanesBelow(offset, LANES)(j) == Before(offset)(j);
  }

  lemma SumBlock(values: seq<Float>, offset: nat, sum: seq<Float>)
    requires offset + LANES <= |values| && |sum| == LANES && Sum(sum) == Sum(values[..offset])
    ensures Sum(AddLanes(sum, values[offset..offset + LANES])) == Sum(values[..offset + LANES])
  {
    hide Sum, AddLanes;
    var current := values[offset..offset + LANES];
    SumOfLaneSums(sum, current);
    SumAppend(values[..offset], current);
    assert values[..offset + LANES] == values[..offset] + current;
  }

  /** The loop over whole blocks of eight. */
  method ScanBlocks(values: seq<Float>) returns (offset: nat, r: Registers, sum: seq<Float>)
    ensures LanesLead(values, offset, r) && |values| < offset + LANES
    ensures |sum| == LANES && Sum(sum) == Sum(values[..offset])
  {
    hide LanesLead, StepRegisters, Sum;
    r := Registers(seq(LANES, k => NegInf), seq(LANES, k => 0), seq(LANES, k requires 0 <= k => k));
    sum := seq(LANES, k => ZERO);
    offset := 0;
    LanesStart(values, r);
    SumOfZeros(LANES);
    assert Sum(values[..0]) == ZERO by { SumOfZeros(0); assert values[..0] == seq(0, k => ZERO); }
    while offset + LANES <= |values|
      invariant LanesLead(values, offset, r) && offset <= |values|
      invariant |sum| == LANES && Sum(sum) == Sum(values[..offset])
    {
      LanesSize(values, offset, r);
      var current := values[offset..offset + LANES];
      StepKeepsLanes(values, offset, r);
      SumBlock(values, offset, sum);
      sum := AddLanes(sum, current);
      r := StepRegisters(r, current);
      offset := offset + LANES;
    }
    LanesSize(values, offset, r);
  }

  lemma LanesStart(values: seq<Float>, r: Registers)
    requires WellSized(r)
    requires forall k | 0 <= k < LANES :: r.maximum[k] == NegInf && r.indices[k] == 0 && r.nextIndices[k] == k
    ensures LanesLead(values, 0, r)
  {
  }

  lemma LanesSize(values: seq<Float>, offset: nat, r: Registers)
    requires LanesLead(values, offset, r)
    ensures WellSized(r) && offset <= |values|
  {
  }

  /** The loop over what the blocks leave. */
  method ScanRest(values: seq<Float>, start: nat, index: nat, value: Float, sum: Float) returns (best: nat, total: Float)
    requires start <= |values| && Leads(values, Before(start), index, value) && sum == Sum(values[..start])
    ensures IsFirstMaximum(values, best)
    ensures total == Sum(values)
  {
    hide Leads, Sum, Add, Greater, IsFirstMaximum;
    var offset, bestValue := start, value;
    best, total := index, sum;
    while offset < |values|
      invariant offset <= |values|
      invariant Leads(values, Before(offset), best, bestValue)
      invariant total == Sum(values[..offset])
    {
      SumStep(values, offset);
      LeadsStep(values, offset, best, bestValue);
      total := Add(total, values[offset]);
      if Greater(values[offset], bestValue) {
        bestValue := values[offset];
        best := offset;
      }
      offset := offset + 1;
    }
    assert values[..offset] == values;
    LeadsAtEnd(values, best, bestValue);
  }

  lemma SumStep(values: seq<Float>, n: nat)
    requires n < |values|
    ensures Sum(values[..n + 1]) == Add(Sum(values[..n]), values[n])
  {
    assert values[..n + 1][..n] == values[..n];
  }

  /** A greater entry takes the lead, any other leaves it. */
  lemma LeadsStep(values: seq<Float>, n: nat, best: nat, value: Float)
    requires n < |values| && Leads(values, Before(n), best, value)
    ensures if Greater(values[n], value) then Leads(values, Before(n + 1), n, values[n]) else Leads(values, Before(n + 1), best, value)
  {
  }

  lemma LeadsAtEnd(values: seq<Float>, best: nat, value: Float)
    requires Leads(values, Before(|values|), best, value)
    ensures IsFirstMaximum(values, best)
  {
    assert Leads(values, Anywhere, best, value);
  }

  /** The vector scan: whole blocks lane by lane, the reduction, then the rest one by one. */
  method Avx2Argmax(values: seq<Float>) returns (best: nat, total: Float)
    ensures IsFirstMaximum(values, best)
    ensures total == Sum(values)
  {
    hide Leads, IsFirstMaximum;
    var offset, r, sum := ScanBlocks(values);
    LanesSize(values, offset, r);
    var bestValue: Float;
    best, bestValue := ReduceLanes(values, offset, r);
    total := ZERO;
    for lane := 0 to LANES
      invariant total == Sum(sum[..lane])
    {
      assert sum[..lane + 1][..lane] == sum[..lane];
      total := Add(total, sum[lane]);
    }
    assert sum[..LANES] == sum;
    best, total := ScanRest(values, offset, best, bestValue, total);
  }

  /**
   The two scans return the same place exactly when the first entry is a number, or
   nothing in the vector lies above minus infinity.
   */
  lemma ScansAgree(values: seq<Float>, scalar: nat, vector: nat)
    requires values != [] && IsFirstMaximum(values, vector)
    requires if values[0].NaN? then scalar == 0 else IsFirstMaximum(values, scalar)
    ensures scalar == vector <==> !values[0].NaN? || forall v <- values :: v.NaN? || v.NegInf?
  {
    if !values[0].NaN? {
      FirstMaximumIsUnique(values, scalar, vector);
    } else {
      var value: Float :| Leads(values, Anywhere, vector, value);
      if !value.NegInf? {
        assert values[vector] == value;
      } else {
        forall j: nat | j < |values|
          ensures values[j].NaN? || values[j].NegInf?
        {
          assert Anywhere(j) && !Greater(values[j], value);
        }
      }
    }
  }

  /** For a vector without NaN, infinities included, both scans are the same function. */
  lemma ScansAgreeOnNumbers(values: seq<Float>, scalar: nat, vector: nat)
    requires values != [] && forall v <- values :: !v.NaN?
    requires IsFirstMaximum(values, scalar) && IsFirstMaximum(values, vector)
    ensures scalar == vector < |values|
    ensures forall j: nat | j < |values| :: !Greater(values[j], values[scalar])
    ensures forall j: nat | j < scalar :: Greater(values[scalar], values[j])
  {
    FirstMaximumIsUnique(values, scalar, vector);
    var value: Float :| Leads(values, Anywhere, scalar, value);
    assert Anywhere(scalar);
    forall j: nat | j < |values|
      ensures !Greater(values[j], values[scalar]) && (j < scalar ==> Greater(values[scalar], values[j]))
    {
      assert Anywhere(j) && !Greater(values[j], value);
      assert values[j] in values && values[0] in values;
    }
  }

  // ---------------------------------------------------------------- the choice of a process

  function Leader(values: seq<Float>, n: nat): (r: (nat, Float))
    requires n <= |values|
    ensures Leads(values, Before(n), r.0, r.1)
  {
    if n == 0 then (0, NegInf)
    else
      var r := Leader(values, n - 1);
      if Greater(values[n - 1], r.1) then (n - 1, values[n - 1]) else r
  }

  function FirstMaximum(values: seq<Float>): (index: nat)
    ensures IsFirstMaximum(values, index)
  {
    var r := Leader(values, |values|);
    assert Leads(values, Anywhere, r.0, r.1);
    r.0
  }

  /** What the greedy choice is on a processor with or without AVX2. */
  function Choice(avx2: bool, values: seq<Float>): (index: nat)
    requires values != []
  {
    if !avx2 && values[0].NaN? then 0 else FirstMaximum(values)
  }

  /** The input on which the choice depends on the processor: a NaN in front of a number. */
  lemma NanInFrontDepends()
    ensures Choice(false, [NaN, Finite(1.0)]) == 0 && Choice(true, [NaN, Finite(1.0)]) == 1
  {
    var values := [NaN, Finite(1.0)];
    assert Leads(values, Anywhere, 1, Finite(1.0));
    FirstMaximumIsUnique(values, 1, FirstMaximum(values));
  }

  /** `fortai_argmax_f32`. */
  method ArgmaxF32(avx2: bool, values: seq<Float>) returns (best: nat, total: Float)
    requires values != []
    ensures best == Choice(avx2, values)
    ensures total == Sum(values)
  {
    if avx2 {
      best, total := Avx2Argmax(values);
    } else {
      best, total := ScalarArgmax(values);
    }
    if IsFirstMaximum(values, best) {
      FirstMaximumIsUnique(values, best, FirstMaximum(values));
    }
  }

  lemma SumOfZeros(n: nat)
    ensures Sum(seq(n, k => ZERO)) == ZERO
  {
    if n > 0 {
      assert seq(n, k => ZERO)[..n - 1] == seq(n - 1, k => ZERO);
      SumOfZeros(n - 1);
    }
  }

  /** Of numbers alone, the sum is the sum of their values. */
  lemma {:induction false} SumOfNumbers(values: seq<Float>, numbers: seq<real>)
    requires |values| == |numbers| && forall i | 0 <= i < |values| :: values[i] == Finite(numbers[i])
    ensures Sum(values) == Finite(V.Dot(numbers, seq(|numbers|, _ => 1.0)))
    decreases |values|
  {
    var n := |values|;
    var ones := seq(n, _ => 1.0);
    if n > 0 {
      assert ones[..n - 1] == seq(n - 1, _ => 1.0);
      SumOfNumbers(values[..n - 1], numbers[..n - 1]);
    }
  }
}
