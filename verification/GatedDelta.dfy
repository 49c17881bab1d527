/**
 The gated delta step in exact arithmetic: each row of the state is decayed, compared with the
 value at the key, and corrected along the key; in place over the flat array, by the scalar
 loops or by the blocks of 32 of the AVX2 form.
 */
module GatedDelta {
  import opened RealVectors

  // ---------------------------------------------------------------- one row

  /** An entry after the correction: `state + delta * key`. */
  function Correct(a: real, delta: real, k: real): real {
    a + delta * k
  }

  function Decayed(row: seq<real>, decay: real): (r: seq<real>)
    ensures |r| == |row|
  {
    seq(|row|, c requires 0 <= c < |row| => Times(row[c], decay))
  }

  function Corrected(row: seq<real>, key: seq<real>, delta: real): (r: seq<real>)
    requires |row| == |key|
    ensures |r| == |row|
  {
    seq(|row|, c requires 0 <= c < |row| => Correct(row[c], delta, key[c]))
  }

  /** The row after a step: `d S + beta (v - d S k) k`. */
  function NextRow(row: seq<real>, key: seq<real>, value: real, decay: real, beta: real): (r: seq<real>)
    requires |row| == |key|
    ensures |r| == |row|
  {
    var decayed := Decayed(row, decay);
    Corrected(decayed, key, Times(value - Dot(decayed, key), beta))
  }

  lemma Combined(a: real, x: real, b: real, y: real)
    ensures Times(a, x) == x * a + 0.0 * a
    ensures Correct(a, y, b) == 1.0 * a + y * b
  {
  }

  lemma DecayedDot(row: seq<real>, decay: real, other: seq<real>)
    requires |row| == |other|
    ensures Dot(Decayed(row, decay), other) == Times(decay, Dot(row, other))
  {
    hide Dot, Times;
    var r := Decayed(row, decay);
    forall i | 0 <= i < |row| ensures r[i] == decay * row[i] + 0.0 * row[i] {
      Combined(row[i], decay, 0.0, 0.0);
    }
    DotCombination(row, decay, row, 0.0, r, other);
    FirstOnly(decay, Dot(row, other));
  }

  lemma FirstOnly(x: real, p: real)
    ensures x * p + 0.0 * p == Times(x, p)
  {
  }

  lemma CorrectedEntries(row: seq<real>, key: seq<real>, delta: real)
    requires |row| == |key|
    ensures forall i | 0 <= i < |row| :: Corrected(row, key, delta)[i] == 1.0 * row[i] + delta * key[i]
  {
    hide Correct;
    forall i | 0 <= i < |row| ensures Corrected(row, key, delta)[i] == 1.0 * row[i] + delta * key[i] {
      Combined(row[i], 0.0, key[i], delta);
    }
  }

  lemma CorrectedDot(row: seq<real>, key: seq<real>, delta: real, other: seq<real>)
    requires |row| == |key| == |other|
    ensures Dot(Corrected(row, key, delta), other) == Correct(Dot(row, other), delta, Dot(key, other))
  {
    hide Dot, Correct, Corrected;
    CorrectedEntries(row, key, delta);
    DotCombination(row, 1.0, key, delta, Corrected(row, key, delta), other);
    Combined(Dot(row, other), 0.0, Dot(key, other), delta);
  }

  /** What the next row answers to any other vector. */
  lemma NextRowDot(row: seq<real>, key: seq<real>, value: real, decay: real, beta: real, other: seq<real>)
    requires |row| == |key| == |other|
    ensures Dot(NextRow(row, key, value, decay, beta), other)
      == Correct(Times(decay, Dot(row, other)), Times(value - Times(decay, Dot(row, key)), beta), Dot(key, other))
  {
    hide Dot, Decayed, Corrected, Times, Correct;
    DecayedDot(row, decay, key);
    DecayedDot(row, decay, other);
    var decayed := Decayed(row, decay);
    CorrectedDot(decayed, key, Times(value - Dot(decayed, key), beta), other);
  }

  /** A key of length one reads back a mixture of what it read before and the new value. */
  lemma UnitKeyReadsBack(row: seq<real>, key: seq<real>, value: real, decay: real, beta: real)
    requires |row| == |key| && Dot(key, key) == 1.0
    ensures Dot(NextRow(row, key, value, decay, beta), key) == (1.0 - beta) * (decay * Dot(row, key)) + beta * value
  {
    hide Dot, NextRow;
    NextRowDot(row, key, value, decay, beta, key);
    Mixture(decay * Dot(row, key), value, beta);
  }

  lemma Mixture(x: real, v: real, beta: real)
    ensures x + (v - x) * beta * 1.0 == (1.0 - beta) * x + beta * v
  {
    assert (v - x) * beta == v * beta - x * beta;
  }

  /** A step along a key does not touch what an orthogonal key reads, except by the decay. */
  lemma OrthogonalKeyKeeps(row: seq<real>, key: seq<real>, value: real, decay: real, beta: real, other: seq<real>)
    requires |row| == |key| == |other| && Dot(key, other) == 0.0
    ensures Dot(NextRow(row, key, value, decay, beta), other) == decay * Dot(row, other)
  {
    hide Dot, NextRow;
    NextRowDot(row, key, value, decay, beta, other);
  }

  // ---------------------------------------------------------------- whole runs

  datatype Step = Step(key: seq<real>, value: real, decay: real, beta: real)

  function After(row: seq<real>, steps: seq<Step>): (r: seq<real>)
    requires forall i | 0 <= i < |steps| :: |steps[i].key| == |row|
    ensures |r| == |row|
  {
    if steps == [] then row
    else
      var n := |steps| - 1;
      NextRow(After(row, steps[..n]), steps[n].key, steps[n].value, steps[n].decay, steps[n].beta)
  }

  function TotalDecay(steps: seq<Step>): real {
    if steps == [] then 1.0 else steps[|steps| - 1].decay * TotalDecay(steps[..|steps| - 1])
  }

  /** Over any run of steps along orthogonal keys, what a key reads only decays. */
  lemma {:induction false} OrthogonalRunKeeps(row: seq<real>, steps: seq<Step>, other: seq<real>)
    requires |other| == |row|
    requires forall i | 0 <= i < |steps| :: |steps[i].key| == |row| && Dot(steps[i].key, other) == 0.0
    ensures Dot(After(row, steps), other) == TotalDecay(steps) * Dot(row, other)
    decreases |steps|
  {
    hide Dot, NextRow;
    if steps != [] {
      var n := |steps| - 1;
      var s := steps[n];
      OrthogonalRunKeeps(row, steps[..n], other);
      OrthogonalKeyKeeps(After(row, steps[..n]), s.key, s.value, s.decay, s.beta, other);
      Reassociate(s.decay, TotalDecay(steps[..n]), Dot(row, other));
    }
  }

  lemma Reassociate(a: real, b: real, c: real)
    ensures a * (b * c) == (a * b) * c
  {
  }

  /** What a unit key reads after a write is read back after any run along orthogonal keys, decayed. */
  lemma WrittenValueIsRemembered(row: seq<real>, write: Step, steps: seq<Step>)
    requires |write.key| == |row| && Dot(write.key, write.key) == 1.0
    requires forall i | 0 <= i < |steps| :: |steps[i].key| == |row| && Dot(steps[i].key, write.key) == 0.0
    ensures
      var written := NextRow(row, write.key, write.value, write.decay, write.beta);
      Dot(After(written, steps), write.key)
        == TotalDecay(steps) * ((1.0 - write.beta) * (write.decay * Dot(row, write.key)) + write.beta * write.value)
  {
    hide Dot, NextRow, TotalDecay, After;
    var written := NextRow(row, write.key, write.value, write.decay, write.beta);
    UnitKeyReadsBack(row, write.key, write.value, write.decay, write.beta);
    OrthogonalRunKeeps(written, steps, write.key);
  }

  // ---------------------------------------------------------------- the flat array

  /** `before` with `part` in place of what is at `base`. */
  function Splice(before: seq<real>, base: nat, part: seq<real>): (r: seq<real>)
    requires base + |part| <= |before|
    ensures |r| == |before|
  {
    before[..base] + part + before[base + |part|..]
  }

  lemma SpliceEntry(before: seq<real>, base: nat, target: seq<real>, c: nat)
    requires base + |target| <= |before| && c < |target|
    ensures Splice(before, base, target[..c])[base + c] == before[base + c]
    ensures Splice(before, base, target[..c])[base + c := target[c]] == Splice(before, base, target[..c + 1])
  {
  }

  lemma SpliceBlock(before: seq<real>, base: nat, target: seq<real>, c: nat)
    requires base + |target| <= |before| && c + 32 <= |target|
    ensures Splice(before, base, target[..c])[base + c..base + c + 32] == before[base + c..base + c + 32]
    ensures
      var now := Splice(before, base, target[..c]);
      now[..base + c] + target[c..c + 32] + now[base + c + 32..] == Splice(before, base, target[..c + 32])
  {
  }

  /** Four `_mm256_storeu_ps`. */
  method StoreBlock(state: array<real>, at: nat, values: seq<real>)
    requires at + 32 <= state.Length && |values| == 32
    modifies state
    ensures state[..] == old(state[..])[..at] + values + old(state[..])[at + 32..]
  {
    forall k | 0 <= k < 32 {
      state[at + k] := values[k];
    }
  }

  lemma NoProducts()
    ensures Total([ZEROS, ZEROS, ZEROS, ZEROS]) == 0.0 && Dot([], []) == 0.0
  {
  }

  /** The blocks of the first pass: decays 32 entries at a time and multiplies them with the key. */
  method DecayBlocks(state: array<real>, base: nat, key: array<real>, decay: real) returns (dot: real, column: nat)
    requires base + key.Length <= state.Length && key != state
    modifies state
    ensures column <= key.Length
    ensures
      var target := Decayed(old(state[..])[base..base + key.Length], decay);
      state[..] == Splice(old(state[..]), base, target[..column]) && dot == Dot(target[..column], key[..column])
  {
    hide Dot, FmaddBlock, Total, Splice, Decayed, LaneSum, ReduceDotSums;
    ghost var before, k := state[..], key[..];
    ghost var target := Decayed(before[base..base + |k|], decay);
    var sums := [ZEROS, ZEROS, ZEROS, ZEROS];
    NoProducts();
    column := 0;
    NothingSpliced(before, base, target);
    assert target[..0] == [] && k[..0] == [];
    while column + 32 <= key.Length
      invariant column <= key.Length && |sums| == 4 && key[..] == k
      invariant state[..] == Splice(before, base, target[..column]) && Total(sums) == Dot(target[..column], k[..column])
    {
      DecayedSlice(before, base, |k|, decay, column);
      BlockStep(sums, target, k, column);
      sums := DecayBlock(state, base, key, decay, column, sums, before, target);
      column := column + 32;
    }
    TotalIsReduced(sums);
    dot := ReduceDotSums(sums);
  }

  /** One block: load, decay, store, and add the products to the four sums. */
  method DecayBlock(state: array<real>, base: nat, key: array<real>, decay: real, column: nat, sums: seq<Lanes>,
    ghost before: seq<real>, ghost target: seq<real>) returns (later: seq<Lanes>)
    requires base + key.Length <= state.Length == |before| && key != state && |sums| == 4
    requires |target| == key.Length && column + 32 <= key.Length && state[..] == Splice(before, base, target[..column])
    requires target[column..column + 32] == Decayed(before[base + column..base + column + 32], decay)
    modifies state
    ensures state[..] == Splice(before, base, target[..column + 32])
    ensures |later| == 4 && later == FmaddBlock(sums, target[column..column + 32], key[..][column..column + 32])
  {
    hide FmaddBlock, Splice, Decayed;
    var at := base + column;
    SpliceBlock(before, base, target, column);
    var decayed := Decayed(state[..][at..at + 32], decay);
    later := FmaddBlock(sums, decayed, key[..][column..column + 32]);
    StoreBlock(state, at, decayed);
  }

  lemma NothingSpliced(before: seq<real>, base: nat, target: seq<real>)
    requires base + |target| <= |before|
    ensures Splice(before, base, target[..0]) == before
  {
  }

  lemma DecayedSlice(before: seq<real>, base: nat, size: nat, decay: real, c: nat)
    requires base + size <= |before| && c + 32 <= size
    ensures Decayed(before[base + c..base + c + 32], decay) == Decayed(before[base..base + size], decay)[c..c + 32]
  {
    hide Times;
    var x, y := before[base + c..base + c + 32], before[base..base + size][c..c + 32];
    forall i | 0 <= i < 32 ensures x[i] == y[i] {
      assert x[i] == before[base + c + i];
    }
    assert x == y;
  }

  /** One more product of equal entries. */
  lemma NextDot(target: seq<real>, other: seq<real>, column: nat, dot: real, a: real, b: real)
    requires |target| == |other| && column < |target| && a == target[column] && b == other[column]
    requires dot == Dot(target[..column], other[..column])
    ensures dot + Times(a, b) == Dot(target[..column + 1], other[..column + 1])
  {
    hide Dot;
    DotStep(target, other, column);
  }

  /** The first pass over a row: the row is decayed, and the result is its product with the key. */
  method DecayRow(state: array<real>, base: nat, key: array<real>, decay: real, avx2: bool) returns (dot: real)
    requires base + key.Length <= state.Length && key != state
    modifies state
    ensures
      var target := Decayed(old(state[..])[base..base + key.Length], decay);
      state[..] == Splice(old(state[..]), base, target) && dot == Dot(target, key[..])
  {
    hide Dot, Splice, Times;
    ghost var before, k := state[..], key[..];
    ghost var target := Decayed(before[base..base + |k|], decay);
    var column: nat := 0;
    dot := 0.0;
    NothingSpliced(before, base, target);
    NoProducts();
    assert target[..0] == [] && key[..0] == [];
    if avx2 {
      dot, column := DecayBlocks(state, base, key, decay);
    }
    while column < key.Length
      invariant column <= key.Length && key[..] == k
      invariant state[..] == Splice(before, base, target[..column]) && dot == Dot(target[..column], k[..column])
    {
      SpliceEntry(before, base, target, column);
      assert state[base + column] == before[base + column];
      state[base + column] := Times(state[base + column], decay);
      assert state[..] == Splice(before, base, target[..column])[base + column := target[column]];
      assert state[base + column] == target[column] && key[column] == k[column];
      NextDot(target, k, column, dot, state[base + column], key[column]);
      dot := dot + Times(state[base + column], key[column]);
      column := column + 1;
    }
    assert target[..column] == target && k[..column] == k;
  }

  lemma CorrectedSlice(row: seq<real>, key: seq<real>, delta: real, c: nat)
    requires |row| == |key| && c + 32 <= |row|
    ensures Corrected(row[c..c + 32], key[c..c + 32], delta) == Corrected(row, key, delta)[c..c + 32]
  {
    hide Correct;
  }

  lemma RowSlice(before: seq<real>, base: nat, size: nat, c: nat)
    requires base + size <= |before| && c + 32 <= size
    ensures before[base + c..base + c + 32] == before[base..base + size][c..c + 32]
  {
    var x, y := before[base + c..base + c + 32], before[base..base + size][c..c + 32];
    forall i | 0 <= i < 32 ensures x[i] == y[i] {
      assert x[i] == before[base + c + i];
    }
  }

  /** One block of the second pass: load, correct along the key, store, and add the products with the query. */
  method CorrectBlock(state: array<real>, base: nat, key: array<real>, query: array<real>, delta: real, column: nat, sums: seq<Lanes>,
    ghost before: seq<real>, ghost target: seq<real>) returns (later: seq<Lanes>)
    requires base + key.Length <= state.Length == |before| && key != state && query != state && |sums| == 4
    requires |target| == key.Length == query.Length && column + 32 <= key.Length
    requires state[..] == Splice(before, base, target[..column])
    requires target[column..column + 32] == Corrected(before[base + column..base + column + 32], key[..][column..column + 32], delta)
    modifies state
    ensures state[..] == Splice(before, base, target[..column + 32])
    ensures |later| == 4 && later == FmaddBlock(sums, target[column..column + 32], query[..][column..column + 32])
  {
    hide FmaddBlock, Splice, Corrected;
    var at := base + column;
    SpliceBlock(before, base, target, column);
    var corrected := Corrected(state[..][at..at + 32], key[..][column..column + 32], delta);
    later := FmaddBlock(sums, corrected, query[..][column..column + 32]);
    StoreBlock(state, at, corrected);
  }

  method CorrectBlocks(state: array<real>, base: nat, key: array<real>, query: array<real>, delta: real) returns (dot: real, column: nat)
    requires base + key.Length <= state.Length && key != state && query != state && query.Length == key.Length
    modifies state
    ensures column <= key.Length
    ensures
      var target := Corrected(old(state[..])[base..base + key.Length], key[..], delta);
      state[..] == Splice(old(state[..]), base, target[..column]) && dot == Dot(target[..column], query[..column])
  {
    hide Dot, FmaddBlock, Total, Splice, Corrected, LaneSum, ReduceDotSums;
    ghost var before, k, q := state[..], key[..], query[..];
    ghost var row := before[base..base + |k|];
    ghost var target := Corrected(row, k, delta);
    var sums := [ZEROS, ZEROS, ZEROS, ZEROS];
    NoProducts();
    column := 0;
    NothingSpliced(before, base, target);
    assert target[..0] == [] && q[..0] == [];
    while column + 32 <= key.Length
      invariant column <= key.Length && |sums| == 4 && key[..] == k && query[..] == q
      invariant state[..] == Splice(before, base, target[..column]) && Total(sums) == Dot(target[..column], q[..column])
    {
      RowSlice(before, base, |k|, column);
      CorrectedSlice(row, k, delta, column);
      BlockStep(sums, target, q, column);
      sums := CorrectBlock(state, base, key, query, delta, column, sums, before, target);
      column := column + 32;
    }
    TotalIsReduced(sums);
    dot := ReduceDotSums(sums);
  }

  /** The second pass over a row: the row is corrected, and the result is its product with the query. */
  method CorrectRow(state: array<real>, base: nat, key: array<real>, query: array<real>, delta: real, avx2: bool) returns (dot: real)
    requires base + key.Length <= state.Length && key != state && query != state && query.Length == key.Length
    modifies state
    ensures
      var target := Corrected(old(state[..])[base..base + key.Length], key[..], delta);
      state[..] == Splice(old(state[..]), base, target) && dot == Dot(target, query[..])
  {
    hide Dot, Splice, Times;
    ghost var before, k, q := state[..], key[..], query[..];
    ghost var target := Corrected(before[base..base + |k|], k, delta);
    var column: nat := 0;
    dot := 0.0;
    NothingSpliced(before, base, target);
    NoProducts();
    assert target[..0] == [] && query[..0] == [];
    if avx2 {
      dot, column := CorrectBlocks(state, base, key, query, delta);
    }
    while column < key.Length
      invariant column <= key.Length && key[..] == k && query[..] == q
      invariant state[..] == Splice(before, base, target[..column]) && dot == Dot(target[..column], q[..column])
    {
      SpliceEntry(before, base, target, column);
      assert state[base + column] == before[base + column];
      state[base + column] := Correct(state[base + column], delta, key[column]);
      assert state[..] == Splice(before, base, target[..column])[base + column := target[column]];
      assert state[base + column] == target[column] && query[column] == q[column];
      NextDot(target, q, column, dot, state[base + column], query[column]);
      dot := dot + Times(state[base + column], query[column]);
      column := column + 1;
    }
    assert target[..column] == target && q[..column] == q;
  }

  // ---------------------------------------------------------------- the whole state

  lemma RowsAreApart(r: nat, s: nat, size: nat)
    requires r < s
    ensures r * size + size <= s * size
  {
    assert (r + 1) * size <= s * size;
  }

  lemma RowInside(size: nat, r: nat)
    requires r < size
    ensures r * size + size <= size * size
  {
    RowsAreApart(r, size, size);
  }

  predicate IsSquare(state: seq<real>, size: nat) {
    |state| == size * size
  }

  /** Row `r` of the flat array. */
  function RowOf(state: seq<real>, size: nat, r: nat): (row: seq<real>)
    requires IsSquare(state, size) && r < size
    ensures |row| == size
  {
    RowInside(size, r);
    state[r * size..r * size + size]
  }

  /** The inputs of a step. */
  datatype Input = Input(key: seq<real>, value: seq<real>, query: seq<real>, decay: real, beta: real, scale: real)

  predicate IsInput(x: Input, size: nat) {
    |x.key| == |x.value| == |x.query| == size
  }

  /** Row `r` of a state and its output after a step from `before`. */
  ghost predicate Stepped(before: seq<real>, after: seq<real>, x: Input, size: nat, r: nat, output: real)
    requires IsInput(x, size) && IsSquare(before, size) && IsSquare(after, size) && r < size
  {
    var next := NextRow(RowOf(before, size, r), x.key, x.value[r], x.decay, x.beta);
    RowOf(after, size, r) == next && output == Times(Dot(next, x.query), x.scale)
  }

  /** The first `n` rows are stepped, the others are as before. */
  ghost predicate SteppedRows(before: seq<real>, now: seq<real>, x: Input, size: nat, outputs: seq<real>, n: nat)
    requires IsInput(x, size) && IsSquare(before, size) && IsSquare(now, size) && |outputs| == size
  {
    && (forall r | 0 <= r < size && r < n :: Stepped(before, now, x, size, r, outputs[r]))
    && (forall r | n <= r < size :: RowOf(now, size, r) == RowOf(before, size, r))
  }

  lemma SplicedSlice(before: seq<real>, base: nat, part: seq<real>, at: nat, size: nat)
    requires base + |part| <= |before| && at + size <= |before| && |part| == size
    requires at == base || at + size <= base || base + size <= at
    ensures Splice(before, base, part)[at..at + size] == if at == base then part else before[at..at + size]
  {
  }

  /** Replacing one row replaces that row and no other. */
  lemma SplicedRows(before: seq<real>, size: nat, row: nat, next: seq<real>, r: nat)
    requires IsSquare(before, size) && row < size && r < size && |next| == size
    ensures row * size + size <= |before| && IsSquare(Splice(before, row * size, next), size)
    ensures RowOf(Splice(before, row * size, next), size, r) == if r == row then next else RowOf(before, size, r)
  {
    hide Splice, RowOf;
    RowInside(size, row);
    RowInside(size, r);
    RowPlace(before, size, r);
    RowPlace(Splice(before, row * size, next), size, r);
    if r < row { RowsAreApart(r, row, size); }
    if row < r { RowsAreApart(row, r, size); }
    SplicedPlaces(before, row * size, next, r * size, size, r == row);
  }

  lemma SplicedPlaces(before: seq<real>, base: nat, part: seq<real>, at: nat, size: nat, same: bool)
    requires base + |part| <= |before| && at + size <= |before| && |part| == size
    requires if same then at == base else at + size <= base || base + size <= at
    ensures Splice(before, base, part)[at..at + size] == if same then part else before[at..at + size]
  {
    SplicedSlice(before, base, part, at, size);
    if !same && at == base { assert part == [] && before[at..at + size] == []; }
  }

  lemma SteppedRowsStep(before: seq<real>, now: seq<real>, x: Input, size: nat, outputs: seq<real>, row: nat, output: real)
    requires IsInput(x, size) && IsSquare(before, size) && IsSquare(now, size) && |outputs| == size && row < size
    requires SteppedRows(before, now, x, size, outputs, row)
    requires output == Times(Dot(NextRow(RowOf(now, size, row), x.key, x.value[row], x.decay, x.beta), x.query), x.scale)
    ensures
      var next := NextRow(RowOf(now, size, row), x.key, x.value[row], x.decay, x.beta);
      && row * size + size <= |now| && IsSquare(Splice(now, row * size, next), size)
      && SteppedRows(before, Splice(now, row * size, next), x, size, outputs[row := output], row + 1)
  {
    hide NextRow, Dot, Splice, RowOf, IsSquare;
    var next := NextRow(RowOf(now, size, row), x.key, x.value[row], x.decay, x.beta);
    SplicedRows(now, size, row, next, row);
    var later := Splice(now, row * size, next);
    forall r | 0 <= r < size ensures RowOf(later, size, r) == if r == row then next else RowOf(now, size, r) {
      SplicedRows(now, size, row, next, r);
    }
  }

  lemma SpliceTwice(before: seq<real>, base: nat, first: seq<real>, second: seq<real>)
    requires base + |first| <= |before| && |first| == |second|
    ensures Splice(before, base, first)[base..base + |first|] == first
    ensures Splice(Splice(before, base, first), base, second) == Splice(before, base, second)
  {
  }

  /** One row: both passes and the output. */
  method StepRow(state: array<real>, key: array<real>, query: array<real>, value: real,
    decay: real, beta: real, scale: real, base: nat, blocked: bool) returns (output: real)
    requires base + key.Length <= state.Length && state != key && state != query && query.Length == key.Length
    modifies state
    ensures
      var next := NextRow(old(state[..])[base..base + key.Length], key[..], value, decay, beta);
      state[..] == Splice(old(state[..]), base, next) && output == Times(Dot(next, query[..]), scale)
  {
    hide Dot, Splice, Decayed, Corrected, Times;
    ghost var before, k := state[..], key[..];
    ghost var decayed := Decayed(before[base..base + |k|], decay);
    var dot := DecayRow(state, base, key, decay, blocked);
    assert key[..] == k;
    var delta := Times(value - dot, beta);
    SpliceTwice(before, base, decayed, Corrected(decayed, k, delta));
    var queryDot := CorrectRow(state, base, key, query, delta, blocked);
    output := Times(queryDot, scale);
  }

  /** `fortai_gdn_step`: every row of the flat array, and every output. */
  method GatedDeltaStep(state: array<real>, key: array<real>, value: array<real>, query: array<real>,
    decay: real, beta: real, scale: real, output: array<real>, avx2: bool)
    requires IsSquare(state[..], key.Length)
    requires value.Length == key.Length && query.Length == key.Length && output.Length == key.Length
    requires state != key && state != value && state != query && state != output
    requires output != key && output != value && output != query
    modifies state, output
    ensures IsSquare(state[..], key.Length)
    ensures SteppedRows(old(state[..]), state[..], Input(key[..], value[..], query[..], decay, beta, scale), key.Length, output[..], key.Length)
  {
    hide NextRow, Splice, Dot, Times, SteppedRows, IsSquare;
    var size := key.Length;
    ghost var x := Input(key[..], value[..], query[..], decay, beta, scale);
    ghost var before := state[..];
    NoRowStepped(before, x, size, output[..]);
    var blocked := avx2 && size >= 8 && size % 8 == 0;
    for row := 0 to size
      invariant key[..] == x.key && value[..] == x.value && query[..] == x.query
      invariant IsSquare(state[..], size) && SteppedRows(before, state[..], x, size, output[..], row)
    {
      ghost var now, outputs := state[..], output[..];
      RowPlace(now, size, row);
      var out := StepRow(state, key, query, value[row], decay, beta, scale, row * size, blocked);
      SteppedRowsStep(before, now, x, size, outputs, row, out);
      output[row] := out;
      assert output[..] == outputs[row := out];
    }
  }

  lemma RowPlace(state: seq<real>, size: nat, row: nat)
    requires IsSquare(state, size) && row < size
    ensures row * size + size <= |state| && RowOf(state, size, row) == state[row * size..row * size + size]
  {
    RowInside(size, row);
  }

  lemma NoRowStepped(before: seq<real>, x: Input, size: nat, outputs: seq<real>)
    requires IsInput(x, size) && IsSquare(before, size) && |outputs| == size
    ensures SteppedRows(before, before, x, size, outputs, 0)
  {
  }

  /** So after a step with a unit key, every row reads back the mixture at that key. */
  lemma StepReadsBack(before: seq<real>, after: seq<real>, x: Input, size: nat, outputs: seq<real>, r: nat)
    requires IsInput(x, size) && IsSquare(before, size) && IsSquare(after, size) && |outputs| == size && r < size
    requires SteppedRows(before, after, x, size, outputs, size) && Dot(x.key, x.key) == 1.0
    ensures Dot(RowOf(after, size, r), x.key) == (1.0 - x.beta) * (x.decay * Dot(RowOf(before, size, r), x.key)) + x.beta * x.value[r]
  {
    hide NextRow, Dot, RowOf;
    assert Stepped(before, after, x, size, r, outputs[r]);
    UnitKeyReadsBack(RowOf(before, size, r), x.key, x.value[r], x.decay, x.beta);
  }

  // ---------------------------------------------------------------- runs of the whole state

  /** The states and outputs of consecutive calls, beginning with the state before the first. */
  ghost predicate IsRun(size: nat, inputs: seq<Input>, states: seq<seq<real>>, outputs: seq<seq<real>>) {
    && |states| == |inputs| + 1 && |outputs| == |inputs|
    && (forall i | 0 <= i < |states| :: IsSquare(states[i], size))
    && (forall i | 0 <= i < |inputs| :: IsInput(inputs[i], size))
    && (forall i | 0 <= i < |inputs| ::
          |outputs[i]| == size && SteppedRows(states[i], states[i + 1], inputs[i], size, outputs[i], size))
  }

  /** What an input does to row `r`. */
  function RowStep(x: Input, size: nat, r: nat): Step
    requires r < size && IsInput(x, size)
  {
    Step(x.key, x.value[r], x.decay, x.beta)
  }

  function RowSteps(inputs: seq<Input>, size: nat, r: nat): (steps: seq<Step>)
    requires r < size && forall i | 0 <= i < |inputs| :: IsInput(inputs[i], size)
    ensures |steps| == |inputs|
    ensures forall i | 0 <= i < |steps| :: steps[i] == RowStep(inputs[i], size, r)
  {
    seq(|inputs|, i requires 0 <= i < |inputs| => RowStep(inputs[i], size, r))
  }

  lemma RowStepsPrefix(inputs: seq<Input>, size: nat, r: nat, n: nat)
    requires r < size && n <= |inputs| && forall i | 0 <= i < |inputs| :: IsInput(inputs[i], size)
    ensures RowSteps(inputs, size, r)[..n] == RowSteps(inputs[..n], size, r)
  {
  }

  /** Over any run every row of the flat state goes its own way, step by step. */
  lemma {:induction false} RunOfRows(size: nat, inputs: seq<Input>, states: seq<seq<real>>, outputs: seq<seq<real>>, r: nat)
    requires IsRun(size, inputs, states, outputs) && r < size
    ensures RowOf(states[|inputs|], size, r) == After(RowOf(states[0], size, r), RowSteps(inputs, size, r))
    decreases |inputs|
  {
    if inputs != [] {
      hide NextRow, RowOf, IsSquare;
      var n := |inputs| - 1;
      RunPrefix(size, inputs, states, outputs, n);
      RunOfRows(size, inputs[..n], states[..n + 1], outputs[..n], r);
      RowStepsPrefix(inputs, size, r, n);
      assert Stepped(states[n], states[n + 1], inputs[n], size, r, outputs[n][r]);
      var steps := RowSteps(inputs, size, r);
      assert steps[n] == RowStep(inputs[n], size, r);
    }
  }

  lemma RunPrefix(size: nat, inputs: seq<Input>, states: seq<seq<real>>, outputs: seq<seq<real>>, n: nat)
    requires IsRun(size, inputs, states, outputs) && n <= |inputs|
    ensures IsRun(size, inputs[..n], states[..n + 1], outputs[..n])
  {
    hide SteppedRows, IsSquare;
  }

  lemma RunSuffix(size: nat, inputs: seq<Input>, states: seq<seq<real>>, outputs: seq<seq<real>>)
    requires IsRun(size, inputs, states, outputs) && inputs != []
    ensures IsRun(size, inputs[1..], states[1..], outputs[1..])
  {
    hide SteppedRows, IsSquare;
  }

  /**
   A run that begins with a unit key and goes on along orthogonal ones: at the end every row
   of the state still reads, at the first key, what the first step left there, decayed.
   */
  lemma RunRemembers(size: nat, inputs: seq<Input>, states: seq<seq<real>>, outputs: seq<seq<real>>, r: nat)
    requires IsRun(size, inputs, states, outputs) && inputs != [] && r < size
    requires Dot(inputs[0].key, inputs[0].key) == 1.0
    requires forall i | 1 <= i < |inputs| :: Dot(inputs[i].key, inputs[0].key) == 0.0
    ensures
      var x := inputs[0];
      Dot(RowOf(states[|inputs|], size, r), x.key) == TotalDecay(RowSteps(inputs[1..], size, r))
        * ((1.0 - x.beta) * (x.decay * Dot(RowOf(states[0], size, r), x.key)) + x.beta * x.value[r])
  {
    hide NextRow, RowOf, IsSquare, Dot, After, TotalDecay;
    var x := inputs[0];
    RunSuffix(size, inputs, states, outputs);
    RunOfRows(size, inputs[1..], states[1..], outputs[1..], r);
    assert Stepped(states[0], states[1], x, size, r, outputs[0][r]);
    var steps := RowSteps(inputs[1..], size, r);
    forall i | 0 <= i < |steps| ensures |steps[i].key| == size && Dot(steps[i].key, x.key) == 0.0 {
      assert steps[i].key == inputs[i + 1].key;
    }
    WrittenValueIsRemembered(RowOf(states[0], size, r), Step(x.key, x.value[r], x.decay, x.beta), steps);
  }

  /** Repeated calls of `fortai_gdn_step` on one state are such a run. */
  method Steps(state: array<real>, inputs: seq<Input>, size: nat, avx2: bool)
    returns (ghost states: seq<seq<real>>, outputs: seq<seq<real>>)
    requires IsSquare(state[..], size) && forall i | 0 <= i < |inputs| :: IsInput(inputs[i], size)
    modifies state
    ensures IsRun(size, inputs, states, outputs)
    ensures states[0] == old(state[..]) && states[|inputs|] == state[..]
  {
    hide SteppedRows, IsSquare;
    states, outputs := [state[..]], [];
    for i := 0 to |inputs|
      invariant IsRun(size, inputs[..i], states, outputs)
      invariant states[0] == old(state[..]) && states[i] == state[..]
    {
      var output := StepWith(state, inputs[i], size, avx2);
      RunExtends(size, inputs, states, outputs, i, state[..], output);
      states, outputs := states + [state[..]], outputs + [output];
    }
    assert inputs[..|inputs|] == inputs;
  }

  lemma RunExtends(size: nat, inputs: seq<Input>, states: seq<seq<real>>, outputs: seq<seq<real>>, i: nat, state: seq<real>, output: seq<real>)
    requires i < |inputs| && IsInput(inputs[i], size) && IsRun(size, inputs[..i], states, outputs)
    requires IsSquare(state, size) && |output| == size && SteppedRows(states[i], state, inputs[i], size, output, size)
    ensures IsRun(size, inputs[..i + 1], states + [state], outputs + [output])
  {
    hide SteppedRows, IsSquare;
    assert inputs[..i + 1] == inputs[..i] + [inputs[i]];
  }

  method ArrayOf(s: seq<real>) returns (a: array<real>)
    ensures fresh(a) && a[..] == s
  {
    a := new real[|s|](i requires 0 <= i < |s| => s[i]);
  }

  method StepWith(state: array<real>, x: Input, size: nat, avx2: bool) returns (output: seq<real>)
    requires IsSquare(state[..], size) && IsInput(x, size)
    modifies state
    ensures IsSquare(state[..], size) && |output| == size
    ensures SteppedRows(old(state[..]), state[..], x, size, output, size)
  {
    hide SteppedRows, IsSquare;
    var key := ArrayOf(x.key);
    var value := ArrayOf(x.value);
    var query := ArrayOf(x.query);
    var out := new real[size];
    GatedDeltaStep(state, key, value, query, x.decay, x.beta, x.scale, out, avx2);
    output := out[..];
  }

  // ---------------------------------------------------------------- a concrete step

  lemma DotOfTwo(a: real, b: real, c: real, d: real)
    ensures Dot([a, b], [c, d]) == a * c + b * d
  {
    assert [a, b][..1] == [a] && [c, d][..1] == [c] && [a][..0] == [] && [c][..0] == [];
    assert Dot([a], [c]) == Dot([], []) + a * c;
  }

  lemma AlongUnit(x: real, delta: real)
    ensures Correct(x, delta, 1.0) == x + delta && Correct(x, delta, 0.0) == x
    ensures x * 1.0 + delta * 0.0 == x && Times(delta, 1.0) == delta
  {
  }

  lemma RowOfTwo(a: real, b: real, value: real, decay: real)
    ensures NextRow([a, b], [1.0, 0.0], value, decay, 1.0) == [value, Times(b, decay)]
  {
    hide Dot, Times, Correct;
    var x, y := Times(a, decay), Times(b, decay);
    assert Decayed([a, b], decay) == [x, y];
    DotOfTwo(x, y, 1.0, 0.0);
    AlongUnit(x, y);
    AlongUnit(x, value - x);
    AlongUnit(y, value - x);
    assert Corrected([x, y], [1.0, 0.0], value - x) == [value, y];
    assert Dot(Decayed([a, b], decay), [1.0, 0.0]) == x;
    assert Times(value - Dot(Decayed([a, b], decay), [1.0, 0.0]), 1.0) == value - x;
  }

  /** One row with the first unit vector as key and beta 1: its first entry takes the value. */
  lemma StepOfRow(before: seq<real>, after: seq<real>, x: Input, r: nat, output: real,
    a: real, b: real, v: real, p: real, q: real, decay: real, scale: real)
    requires IsInput(x, 2) && IsSquare(before, 2) && IsSquare(after, 2) && r < 2
    requires Stepped(before, after, x, 2, r, output)
    requires RowOf(before, 2, r) == [a, b] && x.key == [1.0, 0.0] && x.value[r] == v && x.query == [p, q]
    requires x.decay == decay && x.beta == 1.0 && x.scale == scale
    ensures RowOf(after, 2, r) == [v, decay * b]
    ensures output == (v * p + decay * b * q) * scale
  {
    hide Dot, NextRow, RowOf;
    RowOfTwo(a, b, v, decay);
    DotOfTwo(v, decay * b, p, q);
    assert Times(b, decay) == decay * b;
  }

  /** A step of two such rows, one behind the other in the flat state. */
  lemma StepOfTwo(a: real, b: real, c: real, d: real, v: real, w: real, p: real, q: real, decay: real, scale: real,
    after: seq<real>, outputs: seq<real>)
    requires |after| == 4 && |outputs| == 2
    requires SteppedRows([a, b, c, d], after, Input([1.0, 0.0], [v, w], [p, q], decay, 1.0, scale), 2, outputs, 2)
    ensures after == [v, decay * b, w, decay * d]
    ensures outputs == [(v * p + decay * b * q) * scale, (w * p + decay * d * q) * scale]
  {
    var before, x := [a, b, c, d], Input([1.0, 0.0], [v, w], [p, q], decay, 1.0, scale);
    assert Stepped(before, after, x, 2, 0, outputs[0]) && Stepped(before, after, x, 2, 1, outputs[1]);
    assert RowOf(before, 2, 0) == [a, b] && RowOf(before, 2, 1) == [c, d];
    assert after == RowOf(after, 2, 0) + RowOf(after, 2, 1);
    hide *;
    StepOfRow(before, after, x, 0, outputs[0], a, b, v, p, q, decay, scale);
    StepOfRow(before, after, x, 1, outputs[1], c, d, w, p, q, decay, scale);
  }
}
