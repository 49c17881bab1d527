/**
 Flash attention in one pass over the cache, in exact arithmetic. The exponential function is
 a parameter with the four laws that the argument needs.
 */
module OnlineSoftmax {
  import V = RealVectors

  /** `-INFINITY` or a number. */
  datatype Extended = MinusInfinity | Finite(value: real)

  ghost predicate TurnsSumsIntoProducts(exp: real -> real) {
    forall x: real, y: real :: exp(x + y) == exp(x) * exp(y)
  }

  ghost predicate IsMonotone(exp: real -> real) {
    forall x: real, y: real | x <= y :: exp(x) <= exp(y)
  }

  ghost predicate IsExponential(exp: real -> real) {
    && exp(0.0) == 1.0 && (forall x: real :: 0.0 < exp(x))
    && TurnsSumsIntoProducts(exp) && IsMonotone(exp)
  }

  lemma ExpIsPositive(exp: real -> real, x: real)
    requires IsExponential(exp)
    ensures 0.0 < exp(x)
  {
  }

  lemma SumLaw(exp: real -> real, x: real, y: real)
    requires IsExponential(exp)
    ensures exp(x + y) == exp(x) * exp(y)
  {
    assert TurnsSumsIntoProducts(exp);
  }

  lemma NotAboveOne(exp: real -> real, x: real)
    requires IsExponential(exp) && x <= 0.0
    ensures exp(x) <= 1.0
  {
    assert IsMonotone(exp);
  }

  /** `expf(old - maximum)`, where the first old maximum is minus infinity. */
  function ExpOfDifference(exp: real -> real, before: Extended, maximum: real): real {
    match before
    case MinusInfinity => 0.0
    case Finite(x) => exp(x - maximum)
  }

  // ---------------------------------------------------------------- the textbook form

  /** The sum of `exp(s)` over the scores. */
  function Mass(exp: real -> real, scores: seq<real>): real {
    if scores == [] then 0.0 else Mass(exp, scores[..|scores| - 1]) + exp(scores[|scores| - 1])
  }

  /** The sum of `exp(s) * v` over the rows, for one column. */
  function Moment(exp: real -> real, scores: seq<real>, column: seq<real>): real
    requires |scores| == |column|
  {
    if scores == [] then 0.0
    else
      var n := |scores| - 1;
      Moment(exp, scores[..n], column[..n]) + exp(scores[n]) * column[n]
  }

  lemma {:induction false} MassIsPositive(exp: real -> real, scores: seq<real>)
    requires IsExponential(exp)
    ensures 0.0 <= Mass(exp, scores) && (scores != [] ==> 0.0 < Mass(exp, scores))
  {
    hide IsExponential;
    if scores != [] {
      ExpIsPositive(exp, scores[|scores| - 1]);
      MassIsPositive(exp, scores[..|scores| - 1]);
    }
  }

  lemma Scale(a: real, x: real, y: real)
    requires 0.0 < a && x <= y
    ensures a * x <= a * y
  {
  }

  /** One more weight `e` on a value `v` between the extremes. */
  lemma WeighOneMore(low: real, high: real, mass: real, moment: real, e: real, v: real)
    requires low * mass <= moment <= high * mass && low <= v <= high && 0.0 < e
    ensures low * (mass + e) <= moment + e * v <= high * (mass + e)
  {
    Scale(e, low, v);
    Scale(e, v, high);
    Spread(low, mass, e);
    Spread(high, mass, e);
  }

  lemma Spread(x: real, mass: real, e: real)
    ensures x * (mass + e) == x * mass + e * x
  {
  }

  /** A weighted sum lies between the extremes times the mass. */
  lemma {:induction false} MomentIsBetween(exp: real -> real, scores: seq<real>, column: seq<real>, low: real, high: real)
    requires IsExponential(exp) && |scores| == |column|
    requires forall i | 0 <= i < |column| :: low <= column[i] <= high
    ensures low * Mass(exp, scores) <= Moment(exp, scores, column) <= high * Mass(exp, scores)
    decreases |scores|
  {
    hide IsExponential, Mass, Moment;
    if scores == [] {
      NoMass(exp, low);
      NoMass(exp, high);
      assert column == [];
    } else {
      var n := |scores| - 1;
      ExpIsPositive(exp, scores[n]);
      MomentIsBetween(exp, scores[..n], column[..n], low, high);
      WeighOneMore(low, high, Mass(exp, scores[..n]), Moment(exp, scores[..n], column[..n]), exp(scores[n]), column[n]);
      LastWeight(exp, scores, column);
    }
  }

  lemma NoMass(exp: real -> real, x: real)
    ensures x * Mass(exp, []) == 0.0 && Moment(exp, [], []) == 0.0
  {
  }

  lemma LastWeight(exp: real -> real, scores: seq<real>, column: seq<real>)
    requires |scores| == |column| > 0
    ensures var n := |scores| - 1;
      && Mass(exp, scores) == Mass(exp, scores[..n]) + exp(scores[n])
      && Moment(exp, scores, column) == Moment(exp, scores[..n], column[..n]) + exp(scores[n]) * column[n]
  {
  }

  /** The softmax average of a column lies between its least and its greatest entry. */
  lemma AverageIsBetween(exp: real -> real, scores: seq<real>, column: seq<real>, low: real, high: real)
    requires IsExponential(exp) && |scores| == |column| && scores != []
    requires forall i | 0 <= i < |column| :: low <= column[i] <= high
    ensures Mass(exp, scores) > 0.0 && low <= Moment(exp, scores, column) / Mass(exp, scores) <= high
  {
    hide IsExponential, Mass, Moment;
    MassIsPositive(exp, scores);
    MomentIsBetween(exp, scores, column, low, high);
    Between(low, high, Mass(exp, scores), Moment(exp, scores, column));
  }

  lemma Between(low: real, high: real, t: real, m: real)
    requires 0.0 < t && low * t <= m <= high * t
    ensures low <= m / t <= high
  {
    var q := m / t;
    assert q * t == m;
    if q < low { Strictly(t, q, low); }
    if q > high { Strictly(t, high, q); }
  }

  lemma Strictly(a: real, x: real, y: real)
    requires 0.0 < a && x < y
    ensures a * x < a * y
  {
  }

  // ---------------------------------------------------------------- one row

  /** The laws of `exp` at the two places where a row uses it. */
  lemma Rebase(exp: real -> real, s: real, maximum: real)
    requires IsExponential(exp)
    ensures exp(s - maximum) * exp(maximum) == exp(s)
    ensures s <= maximum ==> exp(s - maximum) <= 1.0
  {
    hide IsExponential;
    assert (s - maximum) + maximum == s;
    SumLaw(exp, s - maximum, maximum);
    if s <= maximum {
      NotAboveOne(exp, s - maximum);
    }
  }

  /** The new running sum, by `fmaf`. */
  function Fma(a: real, b: real, c: real): real {
    a * b + c
  }

  /** The new entry of the accumulator: rescaled, plus the scaled value. */
  function Blend(entry: real, r: real, v: real, q: real): real {
    entry * r + v * q
  }

  function BlendAll(entries: seq<real>, r: real, values: seq<real>, q: real): (after: seq<real>)
    requires |entries| == |values|
    ensures |after| == |entries|
  {
    seq(|entries|, c requires 0 <= c < |entries| => Blend(entries[c], r, values[c], q))
  }

  lemma Rescale(a: real, r: real, v: real, q: real, before: real, after: real, total: real, e: real)
    requires a * before == total && r * after == before && q * after == e
    ensures (a * r + v * q) * after == total + e * v
  {
    assert (a * r + v * q) * after == a * (r * after) + v * (q * after);
  }

  /** What the loop keeps: the mass and the moments, both divided by `exp(maximum)`. */
  ghost predicate Summarises(exp: real -> real, scores: seq<real>, maximum: Extended, sum: real) {
    match maximum
    case MinusInfinity => scores == [] && sum == 0.0
    case Finite(m) =>
      && m in scores && (forall i | 0 <= i < |scores| :: scores[i] <= m)
      && sum * exp(m) == Mass(exp, scores) && 1.0 <= sum
  }

  ghost predicate Accumulates(exp: real -> real, scores: seq<real>, column: seq<real>, maximum: Extended, entry: real) {
    && |scores| == |column|
    && match maximum
       case MinusInfinity => scores == [] && entry == 0.0
       case Finite(m) => entry * exp(m) == Moment(exp, scores, column)
  }

  /** The greater of the running maximum and a score, and the two factors. */
  function NewMaximum(maximum: Extended, score: real): real {
    if maximum.MinusInfinity? || score > maximum.value then score else maximum.value
  }

  function MaximumScale(exp: real -> real, maximum: Extended, score: real): real {
    if maximum.MinusInfinity? || score > maximum.value then ExpOfDifference(exp, maximum, score) else 1.0
  }

  function ValueScale(exp: real -> real, maximum: Extended, score: real): real {
    if maximum.MinusInfinity? || score > maximum.value then 1.0 else exp(score - maximum.value)
  }

  /** Both factors are between 0 and 1, whatever the scores: `exp` is never taken of a positive number. */
  lemma FactorsAreSmall(exp: real -> real, maximum: Extended, score: real)
    requires IsExponential(exp)
    ensures 0.0 <= MaximumScale(exp, maximum, score) <= 1.0
    ensures 0.0 < ValueScale(exp, maximum, score) <= 1.0
  {
    hide IsExponential;
    if maximum.Finite? {
      var m := NewMaximum(maximum, score);
      Rebase(exp, maximum.value, m);
      Rebase(exp, score, m);
      ExpIsPositive(exp, maximum.value - m);
      ExpIsPositive(exp, score - m);
    }
  }

  /** The factors move the old summary and the new score to the new maximum. */
  lemma FactorLaws(exp: real -> real, maximum: Extended, score: real)
    requires IsExponential(exp)
    ensures maximum.Finite? ==> MaximumScale(exp, maximum, score) * exp(NewMaximum(maximum, score)) == exp(maximum.value)
    ensures ValueScale(exp, maximum, score) * exp(NewMaximum(maximum, score)) == exp(score)
  {
    hide IsExponential;
    if maximum.Finite? {
      Rebase(exp, maximum.value, score);
      Rebase(exp, score, maximum.value);
    }
  }

  lemma MassAppend(exp: real -> real, scores: seq<real>, score: real)
    ensures Mass(exp, scores + [score]) == Mass(exp, scores) + exp(score)
  {
    assert (scores + [score])[..|scores|] == scores;
  }

  lemma MomentAppend(exp: real -> real, scores: seq<real>, column: seq<real>, score: real, v: real)
    requires |scores| == |column|
    ensures Moment(exp, scores + [score], column + [v]) == Moment(exp, scores, column) + exp(score) * v
  {
    assert (scores + [score])[..|scores|] == scores && (column + [v])[..|column|] == column;
  }

  lemma MassAfterRow(exp: real -> real, scores: seq<real>, maximum: Extended, sum: real, score: real)
    requires IsExponential(exp) && Summarises(exp, scores, maximum, sum)
    ensures Fma(sum, MaximumScale(exp, maximum, score), ValueScale(exp, maximum, score)) * exp(NewMaximum(maximum, score))
      == Mass(exp, scores) + exp(score)
  {
    hide IsExponential;
    FactorLaws(exp, maximum, score);
    match maximum
    case MinusInfinity => FirstEntry(0.0, 1.0, exp(score));
    case Finite(m) =>
      hide MaximumScale, ValueScale, NewMaximum, Mass;
      RescaleSum(sum, MaximumScale(exp, maximum, score), ValueScale(exp, maximum, score), exp(m),
        exp(NewMaximum(maximum, score)), Mass(exp, scores), exp(score));
  }

  lemma MomentAfterRow(exp: real -> real, scores: seq<real>, column: seq<real>, maximum: Extended, entry: real, score: real, v: real)
    requires IsExponential(exp) && Accumulates(exp, scores, column, maximum, entry)
    ensures Blend(entry, MaximumScale(exp, maximum, score), v, ValueScale(exp, maximum, score)) * exp(NewMaximum(maximum, score))
      == Moment(exp, scores, column) + exp(score) * v
  {
    hide IsExponential;
    FactorLaws(exp, maximum, score);
    match maximum
    case MinusInfinity => FirstEntry(MaximumScale(exp, maximum, score), v, exp(score));
    case Finite(m) =>
      hide MaximumScale, ValueScale, NewMaximum, Moment;
      Rescale(entry, MaximumScale(exp, maximum, score), v, ValueScale(exp, maximum, score), exp(m),
        exp(NewMaximum(maximum, score)), Moment(exp, scores, column), exp(score));
  }

  lemma RescaleSum(a: real, r: real, q: real, before: real, after: real, total: real, e: real)
    requires a * before == total && r * after == before && q * after == e
    ensures (a * r + q) * after == total + e
  {
    assert (a * r + q) * after == a * (r * after) + q * after;
  }

  lemma SumIsAtLeastOne(exp: real -> real, scores: seq<real>, maximum: Extended, sum: real, score: real)
    requires IsExponential(exp) && Summarises(exp, scores, maximum, sum)
    ensures 1.0 <= Fma(sum, MaximumScale(exp, maximum, score), ValueScale(exp, maximum, score))
  {
    hide IsExponential;
    FactorsAreSmall(exp, maximum, score);
    hide Mass;
    if maximum.Finite? {
      NotLess(sum, MaximumScale(exp, maximum, score), ValueScale(exp, maximum, score));
    }
  }

  lemma NotLess(sum: real, r: real, q: real)
    requires 1.0 <= sum && 0.0 <= r && 0.0 < q && (r == 1.0 || q == 1.0)
    ensures 1.0 <= sum * r + q
  {
  }

  lemma FirstEntry(r: real, v: real, e: real)
    ensures (0.0 * r + v * 1.0) * e == 0.0 + e * v
  {
  }

  /** One row keeps the summary of the scores. */
  lemma SumStep(exp: real -> real, scores: seq<real>, maximum: Extended, sum: real, score: real)
    requires IsExponential(exp) && Summarises(exp, scores, maximum, sum)
    ensures Summarises(exp, scores + [score], Finite(NewMaximum(maximum, score)),
      Fma(sum, MaximumScale(exp, maximum, score), ValueScale(exp, maximum, score)))
  {
    hide IsExponential;
    MassAfterRow(exp, scores, maximum, sum, score);
    SumIsAtLeastOne(exp, scores, maximum, sum, score);
    MassAppend(exp, scores, score);
    hide Mass, MaximumScale, ValueScale;
    assert NewMaximum(maximum, score) in scores + [score];
  }

  /** One row keeps every entry of the accumulator. */
  lemma EntryStep(exp: real -> real, scores: seq<real>, column: seq<real>, maximum: Extended, entry: real, score: real, v: real)
    requires IsExponential(exp) && Accumulates(exp, scores, column, maximum, entry)
    ensures Accumulates(exp, scores + [score], column + [v], Finite(NewMaximum(maximum, score)),
      Blend(entry, MaximumScale(exp, maximum, score), v, ValueScale(exp, maximum, score)))
  {
    hide IsExponential;
    MomentAfterRow(exp, scores, column, maximum, entry, score, v);
    MomentAppend(exp, scores, column, score, v);
  }

  /** At the end the quotient is the softmax average. */
  lemma Quotient(exp: real -> real, scores: seq<real>, column: seq<real>, maximum: Extended, sum: real, entry: real)
    requires IsExponential(exp) && scores != []
    requires Summarises(exp, scores, maximum, sum) && Accumulates(exp, scores, column, maximum, entry)
    ensures 1.0 <= sum && Mass(exp, scores) > 0.0 && entry * (1.0 / sum) == Moment(exp, scores, column) / Mass(exp, scores)
  {
    hide IsExponential;
    MassIsPositive(exp, scores);
    Cancel(entry, sum, exp(maximum.value), Moment(exp, scores, column), Mass(exp, scores));
  }

  lemma Cancel(entry: real, sum: real, e: real, w: real, t: real)
    requires 1.0 <= sum && 0.0 < t && entry * e == w && sum * e == t
    ensures entry * (1.0 / sum) == w / t
  {
    var x := entry * (1.0 / sum);
    assert x * sum == entry * ((1.0 / sum) * sum) == entry;
    assert x * t == x * sum * e == w;
  }

  // ---------------------------------------------------------------- the caches

  /** Row `i` of a cache whose rows are `stride` entries apart. */
  function Row(cache: seq<real>, stride: nat, size: nat, i: nat): (row: seq<real>)
    requires i * stride + size <= |cache|
    ensures |row| == size
  {
    cache[i * stride..i * stride + size]
  }

  /** A cache holds `count` rows. */
  predicate Holds(length: nat, count: nat, stride: nat, size: nat) {
    forall i | 0 <= i < count :: i * stride + size <= length
  }

  /** The score of row `i`. */
  function Score(query: seq<real>, keys: seq<real>, stride: nat, scale: real, i: nat): real
    requires i * stride + |query| <= |keys|
  {
    V.Dot(Row(keys, stride, |query|, i), query) * scale
  }

  function Scores(query: seq<real>, keys: seq<real>, stride: nat, scale: real, count: nat): (scores: seq<real>)
    requires Holds(|keys|, count, stride, |query|)
    ensures |scores| == count
  {
    seq(count, i requires 0 <= i < count => Score(query, keys, stride, scale, i))
  }

  /** Column `c` of the value cache. */
  function Column(values: seq<real>, stride: nat, c: nat, count: nat): (column: seq<real>)
    requires Holds(|values|, count, stride, c + 1)
    ensures |column| == count
  {
    seq(count, i requires 0 <= i < count => (assert i * stride + (c + 1) <= |values|; values[i * stride + c]))
  }

  // ---------------------------------------------------------------- the loops

  /** `floats_to_half`, which on exact numbers only copies. */
  method Convert(input: array<real>, at: nat, count: nat) returns (output: array<real>)
    requires at + count <= input.Length
    ensures fresh(output) && output.Length == count && output[..] == input[..][at..at + count]
  {
    output := new real[count];
    var i := 0;
    while i < count
      invariant i <= count && output[..i] == input[at..at + i]
    {
      output[i] := input[at + i];
      i := i + 1;
    }
  }

  /** `scale_f16` */
  method ScaleValues(values: array<real>, factor: real)
    modifies values
    ensures forall c | 0 <= c < values.Length :: values[c] == old(values[c]) * factor
  {
    var i := 0;
    while i < values.Length
      invariant i <= values.Length
      invariant forall c | 0 <= c < values.Length :: values[c] == if c < i then old(values[c]) * factor else old(values[c])
    {
      values[i] := values[i] * factor;
      i := i + 1;
    }
  }

  /** `mad_f16` */
  method AddScaled(output: array<real>, input: array<real>, factor: real)
    requires input.Length == output.Length && input != output
    modifies output
    ensures forall c | 0 <= c < output.Length :: output[c] == old(output[c]) + input[c] * factor
  {
    var i := 0;
    while i < output.Length
      invariant i <= output.Length
      invariant forall c | 0 <= c < output.Length ::
        output[c] == if c < i then old(output[c]) + input[c] * factor else old(output[c])
    {
      output[i] := output[i] + input[i] * factor;
      i := i + 1;
    }
  }

  /** One cache row: the body of the loop. */
  method FoldRow(exp: real -> real, accumulator: array<real>, value: array<real>, maximum: Extended, sum: real, score: real)
    returns (maximum': Extended, sum': real)
    requires accumulator.Length == value.Length && accumulator != value
    modifies accumulator
    ensures maximum' == Finite(NewMaximum(maximum, score))
    ensures sum' == Fma(sum, MaximumScale(exp, maximum, score), ValueScale(exp, maximum, score))
    ensures accumulator[..]
      == BlendAll(old(accumulator[..]), MaximumScale(exp, maximum, score), value[..], ValueScale(exp, maximum, score))
  {
    var maximumScale, valueScale := 1.0, 1.0;
    maximum' := maximum;
    if maximum.MinusInfinity? || score > maximum.value {
      maximum' := Finite(score);
      maximumScale := ExpOfDifference(exp, maximum, score);
      ScaleValues(accumulator, maximumScale);
    } else {
      valueScale := exp(score - maximum.value);
    }
    ghost var scaled := accumulator[..];
    AddScaled(accumulator, value, valueScale);
    forall c | 0 <= c < accumulator.Length
      ensures accumulator[c] == Blend(old(accumulator[c]), maximumScale, value[c], valueScale)
    {
      assert scaled[c] == old(accumulator[c]) * maximumScale;
    }
    sum' := sum * maximumScale + valueScale;
  }

  /** The arguments that the kernel refuses, leaving its output alone. */
  predicate Refused(count: int, keyStride: int, valueStride: int, keySize: int, valueSize: int) {
    count <= 0 || keyStride < keySize || valueStride < valueSize || keySize <= 0 || valueSize <= 0
  }

  /** The softmax average of every column, by definition. */
  ghost predicate IsAttention(exp: real -> real, scores: seq<real>, values: seq<real>, stride: nat, output: seq<real>)
    requires Holds(|values|, |scores|, stride, |output|)
  {
    Mass(exp, scores) != 0.0 && forall c | 0 <= c < |output| ::
      output[c] == Moment(exp, scores, Column(values, stride, c, |scores|)) / Mass(exp, scores)
  }

  // ---------------------------------------------------------------- the loop over the rows

  datatype Caches = Caches(query: seq<real>, keys: seq<real>, values: seq<real>, keyStride: nat, valueStride: nat, valueSize: nat, scale: real)

  ghost predicate Fit(k: Caches, count: nat) {
    Holds(|k.keys|, count, k.keyStride, |k.query|) && Holds(|k.values|, count, k.valueStride, k.valueSize)
  }

  /** What the loop has after `row` rows. */
  ghost predicate Folded(exp: real -> real, k: Caches, row: nat, maximum: Extended, sum: real, entries: seq<real>)
    requires Fit(k, row)
  {
    && |entries| == k.valueSize
    && Summarises(exp, Scores(k.query, k.keys, k.keyStride, k.scale, row), maximum, sum)
    && forall c | 0 <= c < k.valueSize ::
      Accumulates(exp, Scores(k.query, k.keys, k.keyStride, k.scale, row), Column(k.values, k.valueStride, c, row), maximum, entries[c])
  }

  lemma ScoresGrow(k: Caches, row: nat)
    requires Fit(k, row + 1)
    ensures Scores(k.query, k.keys, k.keyStride, k.scale, row + 1)
      == Scores(k.query, k.keys, k.keyStride, k.scale, row) + [Score(k.query, k.keys, k.keyStride, k.scale, row)]
  {
  }

  lemma ColumnGrows(k: Caches, row: nat, c: nat)
    requires Fit(k, row + 1) && c < k.valueSize
    ensures row * k.valueStride + k.valueSize <= |k.values|
    ensures Column(k.values, k.valueStride, c, row + 1)
      == Column(k.values, k.valueStride, c, row) + [Row(k.values, k.valueStride, k.valueSize, row)[c]]
  {
  }

  /** Folding a row in keeps what the loop has. */
  lemma FoldedStep(exp: real -> real, k: Caches, row: nat, maximum: Extended, sum: real, entries: seq<real>, after: seq<real>)
    requires IsExponential(exp) && Fit(k, row + 1) && Folded(exp, k, row, maximum, sum, entries) && |entries| == k.valueSize
    requires row * k.valueStride + k.valueSize <= |k.values|
    requires
      var score := Score(k.query, k.keys, k.keyStride, k.scale, row);
      after == BlendAll(entries, MaximumScale(exp, maximum, score),
        Row(k.values, k.valueStride, k.valueSize, row), ValueScale(exp, maximum, score))
    ensures
      var score := Score(k.query, k.keys, k.keyStride, k.scale, row);
      Folded(exp, k, row + 1, Finite(NewMaximum(maximum, score)),
        Fma(sum, MaximumScale(exp, maximum, score), ValueScale(exp, maximum, score)), after)
  {
    hide IsExponential, Summarises, Accumulates, Fma, Blend, MaximumScale, ValueScale, NewMaximum, Score, Scores, Row, Column;
    var score := Score(k.query, k.keys, k.keyStride, k.scale, row);
    var scores := Scores(k.query, k.keys, k.keyStride, k.scale, row);
    ScoresGrow(k, row);
    SumStep(exp, scores, maximum, sum, score);
    forall c | 0 <= c < k.valueSize
      ensures Accumulates(exp, scores + [score], Column(k.values, k.valueStride, c, row + 1), Finite(NewMaximum(maximum, score)), after[c])
    {
      ColumnGrows(k, row, c);
      EntryStep(exp, scores, Column(k.values, k.valueStride, c, row), maximum, entries[c], score,
        Row(k.values, k.valueStride, k.valueSize, row)[c]);
    }
  }

  /** One cache row: the scores, the factors and the accumulator. */
  method AttendRow(exp: real -> real, keyCache: array<real>, valueCache: array<real>, queryF16: array<real>,
    accumulator: array<real>, ghost k: Caches, row: nat, keyStride: nat, valueStride: nat, scale: real,
    maximum: Extended, sum: real, avx2: bool) returns (maximum': Extended, sum': real)
    requires IsExponential(exp) && Fit(k, row + 1) && Folded(exp, k, row, maximum, sum, accumulator[..])
    requires k == Caches(queryF16[..], keyCache[..], valueCache[..], keyStride, valueStride, accumulator.Length, scale)
    requires accumulator != queryF16 && accumulator != keyCache && accumulator != valueCache
    modifies accumulator
    ensures Folded(exp, k, row + 1, maximum', sum', accumulator[..])
  {
    hide IsExponential, Folded, Fma, BlendAll, Score, Row, MaximumScale, ValueScale, NewMaximum, V.Dot;
    ghost var entries := accumulator[..];
    assert row * keyStride + queryF16.Length <= keyCache.Length;
    assert row * valueStride + accumulator.Length <= valueCache.Length;
    var keyF16 := Convert(keyCache, row * keyStride, queryF16.Length);
    var dot := V.DotF16(keyF16, queryF16, avx2);
    var valueF16 := Convert(valueCache, row * valueStride, accumulator.Length);
    ScoreOf(k, row, keyF16[..]);
    RowOf(k, row, valueF16[..]);
    ghost var value := valueF16[..];
    var score := dot * scale;
    assert score == Score(k.query, k.keys, k.keyStride, k.scale, row);
    maximum', sum' := FoldRow(exp, accumulator, valueF16, maximum, sum, score);
    assert valueF16[..] == value;
    FoldedStep(exp, k, row, maximum, sum, entries, accumulator[..]);
  }

  lemma ScoreOf(k: Caches, row: nat, key: seq<real>)
    requires Fit(k, row + 1) && row * k.keyStride + |k.query| <= |k.keys|
    requires key == k.keys[row * k.keyStride..row * k.keyStride + |k.query|]
    ensures Score(k.query, k.keys, k.keyStride, k.scale, row) == V.Dot(key, k.query) * k.scale
  {
  }

  lemma RowOf(k: Caches, row: nat, value: seq<real>)
    requires Fit(k, row + 1) && row * k.valueStride + k.valueSize <= |k.values|
    requires value == k.values[row * k.valueStride..row * k.valueStride + k.valueSize]
    ensures Row(k.values, k.valueStride, k.valueSize, row) == value
  {
  }

  /** After all the rows, the entries over the sum are the softmax averages. */
  lemma FoldedIsAttention(exp: real -> real, k: Caches, count: nat, maximum: Extended, sum: real, entries: seq<real>, output: seq<real>)
    requires IsExponential(exp) && 0 < count && Fit(k, count) && Folded(exp, k, count, maximum, sum, entries)
    requires |output| == k.valueSize
    requires forall c | 0 <= c < |output| :: output[c] == entries[c] * (if sum == 0.0 then 0.0 else 1.0 / sum)
    ensures IsAttention(exp, Scores(k.query, k.keys, k.keyStride, k.scale, count), k.values, k.valueStride, output)
  {
    hide IsExponential, Accumulates, Score, Column, Mass, Moment;
    var scores := Scores(k.query, k.keys, k.keyStride, k.scale, count);
    MassIsPositive(exp, scores);
    forall c | 0 <= c < |output|
      ensures output[c] == Moment(exp, scores, Column(k.values, k.valueStride, c, count)) / Mass(exp, scores)
    {
      Quotient(exp, scores, Column(k.values, k.valueStride, c, count), maximum, sum, entries[c]);
    }
  }

  method Cleared(size: nat) returns (accumulator: array<real>)
    ensures fresh(accumulator) && accumulator.Length == size && forall c | 0 <= c < size :: accumulator[c] == 0.0
  {
    accumulator := new real[size];
    for i := 0 to size
      invariant forall c | 0 <= c < i :: accumulator[c] == 0.0
    {
      accumulator[i] := 0.0;
    }
  }

  method WriteOutput(accumulator: array<real>, inverseSum: real, output: array<real>)
    requires accumulator.Length <= output.Length && output != accumulator
    modifies output
    ensures forall c | 0 <= c < output.Length ::
      output[c] == if c < accumulator.Length then accumulator[c] * inverseSum else old(output[c])
  {
    for i := 0 to accumulator.Length
      invariant forall c | 0 <= c < output.Length :: output[c] == if c < i then accumulator[c] * inverseSum else old(output[c])
    {
      output[i] := accumulator[i] * inverseSum;
    }
  }

  lemma FitPrefix(k: Caches, count: nat, row: nat)
    requires Fit(k, count) && row <= count
    ensures Fit(k, row)
  {
  }

  /** `fortai_flash_attention_f16`: every output is the softmax average of its column of the value cache. */
  method FlashAttention(exp: real -> real, query: array<real>, keyCache: array<real>, valueCache: array<real>,
    count: int, keyStride: int, valueStride: int, keySize: int, valueSize: int, scale: real, output: array<real>, avx2: bool)
    requires IsExponential(exp) && output != query && output != keyCache && output != valueCache
    requires !Refused(count, keyStride, valueStride, keySize, valueSize) ==> (
      && keySize <= query.Length && valueSize <= output.Length
      && Holds(keyCache.Length, count, keyStride, keySize) && Holds(valueCache.Length, count, valueStride, valueSize))
    modifies output
    ensures Refused(count, keyStride, valueStride, keySize, valueSize) ==> output[..] == old(output[..])
    ensures !Refused(count, keyStride, valueStride, keySize, valueSize) ==>
      && output[valueSize..] == old(output[valueSize..])
      && IsAttention(exp, Scores(query[..keySize], keyCache[..], keyStride, scale, count), valueCache[..], valueStride, output[..valueSize])
  {
    hide IsExponential, Folded, Score, Scores, Mass, Moment, Column, IsAttention, Holds;
    if Refused(count, keyStride, valueStride, keySize, valueSize) { return; }
    ghost var k := Caches(query[..keySize], keyCache[..], valueCache[..], keyStride, valueStride, valueSize, scale);
    var maximum, sum := MinusInfinity, 0.0;
    var queryF16 := Convert(query, 0, keySize);
    var accumulator := Cleared(valueSize);
    assert query[..][0..keySize] == query[..keySize];
    NothingFolded(exp, k, accumulator[..]);
    for row := 0 to count
      invariant output[..] == old(output[..])
      invariant queryF16[..] == k.query && keyCache[..] == k.keys && valueCache[..] == k.values
      invariant Fit(k, row) && Folded(exp, k, row, maximum, sum, accumulator[..])
    {
      FitPrefix(k, count, row + 1);
      maximum, sum := AttendRow(exp, keyCache, valueCache, queryF16, accumulator, k, row, keyStride, valueStride, scale, maximum, sum, avx2);
    }
    var inverseSum := if sum == 0.0 then 0.0 else 1.0 / sum;
    WriteOutput(accumulator, inverseSum, output);
    assert output[valueSize..] == old(output[..])[valueSize..];
    FoldedIsAttention(exp, k, count, maximum, sum, accumulator[..], output[..valueSize]);
  }

  lemma NothingFolded(exp: real -> real, k: Caches, entries: seq<real>)
    requires |entries| == k.valueSize && forall c | 0 <= c < |entries| :: entries[c] == 0.0
    ensures Fit(k, 0) && Folded(exp, k, 0, MinusInfinity, 0.0, entries)
  {
  }

  /** So no output leaves the range of its column. */
  lemma AttentionIsBetween(exp: real -> real, scores: seq<real>, values: seq<real>, stride: nat, output: seq<real>, c: nat, low: real, high: real)
    requires IsExponential(exp) && scores != [] && Holds(|values|, |scores|, stride, |output|)
    requires IsAttention(exp, scores, values, stride, output) && c < |output|
    requires forall i | 0 <= i < |scores| :: low <= Column(values, stride, c, |scores|)[i] <= high
    ensures low <= output[c] <= high
  {
    AverageIsBetween(exp, scores, Column(values, stride, c, |scores|), low, high);
  }

  lemma DotOfOne(a: seq<real>, b: seq<real>)
    requires |a| == |b| == 1
    ensures V.Dot(a, b) == a[0] * b[0]
  {
    assert a[..0] == [] && b[..0] == [];
  }

  lemma TwoWeights(exp: real -> real, scores: seq<real>, column: seq<real>)
    requires |scores| == |column| == 2
    ensures Mass(exp, scores) == exp(scores[0]) + exp(scores[1])
    ensures Moment(exp, scores, column) == exp(scores[0]) * column[0] + exp(scores[1]) * column[1]
  {
    LastWeight(exp, scores, column);
    LastWeight(exp, scores[..1], column[..1]);
    assert scores[..1][..0] == [] && column[..1][..0] == [];
  }

  /** Two rows of one number each, with keys two places apart and values three. */
  lemma AttentionOfTwo(exp: real -> real, query: real, keys: seq<real>, values: seq<real>, scale: real, output: real)
    requires |keys| == 3 && |values| == 4
    requires Holds(|keys|, 2, 2, 1) && Holds(|values|, 2, 3, 1)
    requires IsAttention(exp, Scores([query], keys, 2, scale, 2), values, 3, [output])
    ensures
      var first, second := exp(query * keys[0] * scale), exp(query * keys[2] * scale);
      first + second != 0.0 && output == (first * values[0] + second * values[3]) / (first + second)
  {
    hide Mass, Moment;
    var scores, column := Scores([query], keys, 2, scale, 2), Column(values, 3, 0, 2);
    DotOfOne(Row(keys, 2, 1, 0), [query]);
    DotOfOne(Row(keys, 2, 1, 1), [query]);
    assert scores[0] == query * keys[0] * scale && scores[1] == query * keys[2] * scale;
    assert column[0] == values[0] && column[1] == values[3];
    TwoWeights(exp, scores, column);
  }
}
