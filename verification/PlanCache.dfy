/**
 The caches of prepared matrix products, one for single matrices and one for groups. What the
 foreign library computes is the parameter `product`; building a plan copies the weights.
 */
module PlanCache {
  import opened Bytes

  // ---------------------------------------------------------------- layouts

  /** A quantized matrix as the caller describes it; address 0 is no matrix. */
  datatype Key = Key(kind: int, weights: nat, bytes: nat, rows: int, width: int)

  datatype Layout = Layout(width: nat, bytes: nat)

  function DequantLayout(kind: int): Option<Layout> {
    match kind
    case 11 => Some(Layout(256, 110))
    case 12 => Some(Layout(256, 144))
    case 13 => Some(Layout(256, 176))
    case 14 => Some(Layout(256, 210))
    case 20 => Some(Layout(32, 18))
    case 21 => Some(Layout(256, 110))
    case 23 => Some(Layout(256, 136))
    case _ => None
  }

  function Wrap64(x: nat): nat { x % 0x1_0000_0000_0000_0000 }

  /** The checks before a product, with the size computed modulo 2^64. */
  predicate WellFormed(key: Key) {
    match DequantLayout(key.kind)
    case None => false
    case Some(layout) =>
      && key.weights != 0 && key.rows > 0 && key.width > 0 && key.width % layout.width == 0
      && Wrap64(key.width / layout.width * layout.bytes * key.rows) == key.bytes
  }

  function TotalBytes(keys: seq<Key>): nat {
    if keys == [] then 0 else TotalBytes(keys[..|keys| - 1]) + keys[|keys| - 1].bytes
  }

  // ---------------------------------------------------------------- one table

  /** A prepared product: what it was made for, and the weights as they were then. */
  datatype Plan<Data> = Plan(keys: seq<Key>, data: seq<Data>)

  const MAX_PLANS := 256
  const MAX_BYTES := 4 * 1024 * 1024 * 1024

  function SumBytes<Data>(plans: seq<Plan<Data>>): nat {
    if plans == [] then 0 else SumBytes(plans[..|plans| - 1]) + TotalBytes(plans[|plans| - 1].keys)
  }

  lemma NothingWraps()
    ensures Wrap64(0) == 0
  {
  }

  /** The plans whose sizes cannot make the 64-bit counter wrap; real buffers are among them. */
  predicate Small(keys: seq<Key>) {
    TotalBytes(keys) + MAX_BYTES < 0x1_0000_0000_0000_0000
  }

  ghost predicate AllSmall<Data>(plans: seq<Plan<Data>>) {
    forall i | 0 <= i < |plans| :: Small(plans[i].keys)
  }

  /** What a table may hold: distinct keys, and as many weights as its counter says, modulo 2^64 or exactly. */
  ghost predicate IsTable<Data>(plans: seq<Plan<Data>>, bytes: nat) {
    && |plans| <= MAX_PLANS && bytes <= MAX_BYTES
    && bytes == Wrap64(SumBytes(plans))
    && (AllSmall(plans) ==> bytes == SumBytes(plans))
    && (forall i | 0 <= i < |plans| :: |plans[i].keys| == |plans[i].data|)
    && (forall i, j | 0 <= i < j < |plans| :: plans[i].keys != plans[j].keys)
  }

  /** What happened to a request at a table. */
  datatype Lookup<Data> = Refused | Ready(data: seq<Data>)

  function FindPlan<Data>(plans: seq<Plan<Data>>, keys: seq<Key>): Option<nat> {
    FindPlanFrom(plans, keys, 0)
  }

  function FindPlanFrom<Data>(plans: seq<Plan<Data>>, keys: seq<Key>, i: nat): Option<nat>
    decreases |plans| - i
  {
    if i >= |plans| then None
    else if plans[i].keys == keys then Some(i)
    else FindPlanFrom(plans, keys, i + 1)
  }

  lemma {:induction false} FindPlanMeans<Data>(plans: seq<Plan<Data>>, keys: seq<Key>, i: nat)
    ensures match FindPlanFrom(plans, keys, i)
      case Some(p) => i <= p < |plans| && plans[p].keys == keys && forall q | i <= q < p :: plans[q].keys != keys
      case None => forall p | i <= p < |plans| :: plans[p].keys != keys
    decreases |plans| - i
  {
    if i < |plans| && plans[i].keys != keys {
      FindPlanMeans(plans, keys, i + 1);
    }
  }

  lemma NoPlanFound<Data>(plans: seq<Plan<Data>>, keys: seq<Key>)
    requires FindPlan(plans, keys).None?
    ensures forall p | 0 <= p < |plans| :: plans[p].keys != keys
  {
    FindPlanMeans(plans, keys, 0);
  }

  /** The counter after an insertion, in 64 bits. */
  function CounterWith(bytes: nat, keys: seq<Key>): nat {
    Wrap64(bytes + Wrap64(TotalBytes(keys)))
  }

  /** The table and its counter after a request, and the weights that the product uses. */
  function Admit<Data>(plans: seq<Plan<Data>>, bytes: nat, keys: seq<Key>, data: seq<Data>, made: bool): (seq<Plan<Data>>, nat, Lookup<Data>) {
    match FindPlan(plans, keys)
    case Some(p) =>
      FindPlanMeans(plans, keys, 0);
      (plans, bytes, Ready(plans[p].data))
    case None =>
      if |plans| >= MAX_PLANS || CounterWith(bytes, keys) > MAX_BYTES || !made then (plans, bytes, Refused)
      else (plans + [Plan(keys, data)], CounterWith(bytes, keys), Ready(data))
  }

  /** Within both limits, and without a wrap, a new request is served and its plan kept behind the others. */
  lemma AdmitKeepsNewPlan<Data>(plans: seq<Plan<Data>>, bytes: nat, keys: seq<Key>, data: seq<Data>)
    requires forall p | 0 <= p < |plans| :: plans[p].keys != keys
    requires |plans| < 256 && bytes + TotalBytes(keys) <= 0x1_0000_0000
    ensures Admit(plans, bytes, keys, data, true) == (plans + [Plan(keys, data)], bytes + TotalBytes(keys), Ready(data))
  {
    FindPlanMeans(plans, keys, 0);
  }

  /** A request is refused exactly if there is no plan for it and none can be kept or made. */
  lemma AdmitRefusesExactly<Data>(plans: seq<Plan<Data>>, bytes: nat, keys: seq<Key>, data: seq<Data>, made: bool)
    ensures Admit(plans, bytes, keys, data, made).2.Refused?
      <==> (forall p | 0 <= p < |plans| :: plans[p].keys != keys)
           && (|plans| >= 256 || (bytes + TotalBytes(keys) % 0x1_0000_0000_0000_0000) % 0x1_0000_0000_0000_0000 > 0x1_0000_0000 || !made)
  {
    FindPlanMeans(plans, keys, 0);
  }

  /** What was once served is served again with the same weights, whatever was asked in between, without making it anew. */
  lemma ServedAgain<Data>(plans: seq<Plan<Data>>, bytes: nat, keys: seq<Key>, data: seq<Data>, made: bool,
    others: seq<Key>, otherData: seq<Data>, otherMade: bool, again: seq<Data>)
    requires Admit(plans, bytes, keys, data, made).2.Ready?
    ensures
      var (first, counter, served) := Admit(plans, bytes, keys, data, made);
      var (second, later, _) := Admit(first, counter, others, otherData, otherMade);
      Admit(second, later, keys, again, false) == (second, later, served)
  {
    var (first, counter, served) := Admit(plans, bytes, keys, data, made);
    var (second, later, _) := Admit(first, counter, others, otherData, otherMade);
    FindPlanMeans(plans, keys, 0);
    FindPlanMeans(first, others, 0);
    var place := if FindPlan(plans, keys).Some? then FindPlan(plans, keys).value else |plans|;
    assert second[place].keys == keys && second[place].data == served.data;
    FirstPlan(second, keys, 0, place);
  }

  lemma {:induction false} FirstPlan<Data>(plans: seq<Plan<Data>>, keys: seq<Key>, from: nat, place: nat)
    requires from <= place < |plans| && plans[place].keys == keys
    requires forall p | from <= p < place :: plans[p].keys != keys
    ensures FindPlanFrom(plans, keys, from) == Some(place)
    decreases place - from
  {
    if from < place { FirstPlan(plans, keys, from + 1, place); }
  }

  /** The size of one row of the least width, for every kind that has a plan; no other kind is well formed. */
  lemma RowSizes(key: Key)
    requires key.weights != 0 && key.rows == 1
    ensures key.kind == 20 && key.width == 32 ==> (WellFormed(key) <==> key.bytes == 18)
    ensures key.kind in {11, 21} && key.width == 256 ==> (WellFormed(key) <==> key.bytes == 110)
    ensures key.kind == 12 && key.width == 256 ==> (WellFormed(key) <==> key.bytes == 144)
    ensures key.kind == 13 && key.width == 256 ==> (WellFormed(key) <==> key.bytes == 176)
    ensures key.kind == 14 && key.width == 256 ==> (WellFormed(key) <==> key.bytes == 210)
    ensures key.kind == 23 && key.width == 256 ==> (WellFormed(key) <==> key.bytes == 136)
    ensures key.kind !in {11, 12, 13, 14, 20, 21, 23} ==> !WellFormed(key)
  {
  }

  lemma Cycles(k: nat, x: nat)
    ensures Wrap64(k * 0x1_0000_0000_0000_0000 + x) == Wrap64(x)
  {
  }

  lemma WrapSum(a: nat, b: nat)
    ensures Wrap64(Wrap64(a) + Wrap64(b)) == Wrap64(a + b)
    ensures a + b < 0x1_0000_0000_0000_0000 ==> Wrap64(a + b) == a + b && Wrap64(a) == a && Wrap64(b) == b
  {
    var j, k := a / 0x1_0000_0000_0000_0000, b / 0x1_0000_0000_0000_0000;
    assert a == j * 0x1_0000_0000_0000_0000 + Wrap64(a) && b == k * 0x1_0000_0000_0000_0000 + Wrap64(b);
    WrapSmall(a, b);
    hide Wrap64;
    Cycles(j + k, Wrap64(a) + Wrap64(b));
  }

  /** Adding to a wrapped sum. */
  lemma WrapAdd(a: nat, b: nat)
    ensures Wrap64(Wrap64(a) + b) == Wrap64(a + b)
  {
    var j := a / 0x1_0000_0000_0000_0000;
    assert a == j * 0x1_0000_0000_0000_0000 + Wrap64(a);
    hide Wrap64;
    Cycles(j, Wrap64(a) + b);
  }

  lemma WrapSmall(a: nat, b: nat)
    ensures a + b < 0x1_0000_0000_0000_0000 ==> Wrap64(a + b) == a + b && Wrap64(a) == a && Wrap64(b) == b
  {
  }

  lemma InsertKeepsTable<Data>(plans: seq<Plan<Data>>, bytes: nat, keys: seq<Key>, data: seq<Data>)
    requires IsTable(plans, bytes) && |data| == |keys| && |plans| < MAX_PLANS && CounterWith(bytes, keys) <= MAX_BYTES
    requires forall p | 0 <= p < |plans| :: plans[p].keys != keys
    ensures IsTable(plans + [Plan(keys, data)], CounterWith(bytes, keys))
  {
    hide Wrap64;
    var later := plans + [Plan(keys, data)];
    assert later[..|plans|] == plans && later[|plans|] == Plan(keys, data);
    WrapSum(SumBytes(plans), TotalBytes(keys));
    if AllSmall(later) {
      assert AllSmall(plans) by {
        forall i | 0 <= i < |plans| ensures Small(plans[i].keys) { assert later[i] == plans[i]; }
      }
      assert Small(keys);
      WrapSum(bytes, TotalBytes(keys));
    }
  }

  lemma AdmitKeepsTable<Data>(plans: seq<Plan<Data>>, bytes: nat, keys: seq<Key>, data: seq<Data>, made: bool)
    requires IsTable(plans, bytes) && |data| == |keys|
    ensures var (later, counter, _) := Admit(plans, bytes, keys, data, made);
      IsTable(later, counter) && (AllSmall(plans) && Small(keys) ==> AllSmall(later))
  {
    hide IsTable;
    FindPlanMeans(plans, keys, 0);
    if FindPlan(plans, keys).None? && |plans| < MAX_PLANS && CounterWith(bytes, keys) <= MAX_BYTES {
      assert |plans| < MAX_PLANS;
      InsertKeepsTable(plans, bytes, keys, data);
    }
  }

  /** The counter stays exact through an insertion exactly if the sum of the sizes fits in 64 bits. */
  lemma CounterIsExactExactly<Data>(plans: seq<Plan<Data>>, bytes: nat, keys: seq<Key>, data: seq<Data>)
    requires bytes == SumBytes(plans)
    ensures CounterWith(bytes, keys) == SumBytes(plans + [Plan(keys, data)]) <==> bytes + TotalBytes(keys) < 0x1_0000_0000_0000_0000
  {
    var later := plans + [Plan(keys, data)];
    assert later[..|plans|] == plans;
    WrapSum(bytes, TotalBytes(keys));
    if bytes + TotalBytes(keys) >= 0x1_0000_0000_0000_0000 {
      assert CounterWith(bytes, keys) < 0x1_0000_0000_0000_0000;
    }
  }

  class PlanTable<Data> {
    const entries: array<Option<Plan<Data>>>
    var count: nat
    var bytes: nat

    ghost predicate Valid()
      reads this, entries
    {
      && entries.Length == MAX_PLANS && count <= MAX_PLANS
      && (forall i | 0 <= i < count :: entries[i].Some?)
      && IsTable(Plans(), bytes)
    }

    ghost function Plans(): (plans: seq<Plan<Data>>)
      requires count <= entries.Length && forall i | 0 <= i < count :: entries[i].Some?
      reads this, entries
      ensures |plans| == count
    {
      seq(count, i requires 0 <= i < count reads this, entries requires count <= entries.Length
        requires forall i | 0 <= i < count :: entries[i].Some? => entries[i].value)
    }

    constructor ()
      ensures Valid() && fresh(entries) && Plans() == []
    {
      entries := new Option<Plan<Data>>[MAX_PLANS](_ => None);
      count, bytes := 0, 0;
    }

    method Clear()
      requires Valid()
      modifies this, entries
      ensures Valid() && Plans() == []
    {
      forall i | 0 <= i < entries.Length {
        entries[i] := None;
      }
      count, bytes := 0, 0;
    }

    /** The lookup loop: the first plan with these keys. */
    method Find(keys: seq<Key>) returns (found: Option<nat>)
      requires Valid()
      ensures found == FindPlan(Plans(), keys)
      ensures found.Some? ==> found.value < count && Plans()[found.value].keys == keys
    {
      FindPlanMeans(Plans(), keys, 0);
      var i := 0;
      while i < count
        invariant i <= count && FindPlanFrom(Plans(), keys, i) == FindPlan(Plans(), keys)
      {
        assert entries[i].value == Plans()[i];
        var same := SameKeys(entries[i].value.keys, keys);
        if same {
          return Some(i);
        }
        i := i + 1;
      }
      found := None;
    }

    /** A new plan behind the others, and its bytes on the counter. */
    method Insert(keys: seq<Key>, data: seq<Data>, counter: nat)
      requires Valid() && count < MAX_PLANS && IsTable(Plans() + [Plan(keys, data)], counter)
      modifies this, entries
      ensures Valid() && Plans() == old(Plans()) + [Plan(keys, data)] && bytes == counter
    {
      hide IsTable;
      ghost var plans := Plans();
      entries[count] := Some(Plan(keys, data));
      count := count + 1;
      bytes := counter;
      assert Plans() == plans + [Plan(keys, data)];
    }

    /** Finds or makes the plan for `keys`: the lookup, the two limits, the insertion. */
    method Request(keys: seq<Key>, data: seq<Data>, made: bool) returns (r: Lookup<Data>)
      requires Valid() && |data| == |keys|
      modifies this, entries
      ensures Valid()
      ensures (Plans(), bytes, r) == Admit(old(Plans()), old(bytes), keys, data, made)
    {
      hide FindPlan, IsTable;
      FindPlanMeans(Plans(), keys, 0);
      var found := Find(keys);
      if found.Some? {
        assert entries[found.value].value == Plans()[found.value];
        return Ready(entries[found.value].value.data);
      }
      NoPlanFound(Plans(), keys);
      var size := SumOf(keys);
      if count >= MAX_PLANS || Wrap64(bytes + size) > MAX_BYTES { return Refused; }
      if !made { return Refused; }
      InsertKeepsTable(Plans(), bytes, keys, data);
      Insert(keys, data, Wrap64(bytes + size));
      return Ready(data);
    }

    /** The field by field comparison. */
    static method SameKeys(left: seq<Key>, right: seq<Key>) returns (same: bool)
      ensures same <==> left == right
    {
      if |left| != |right| { return false; }
      for i := 0 to |left|
        invariant left[..i] == right[..i]
      {
        if left[i] != right[i] { return false; }
      }
      assert left == left[..|left|] && right == right[..|right|];
      return true;
    }

    /** The sum of the sizes, in 64 bits. */
    static method SumOf(keys: seq<Key>) returns (size: nat)
      ensures size == Wrap64(TotalBytes(keys))
    {
      hide Wrap64;
      size := 0;
      NothingWraps();
      for i := 0 to |keys|
        invariant size == Wrap64(TotalBytes(keys[..i]))
      {
        assert keys[..i + 1][..i] == keys[..i];
        WrapAdd(TotalBytes(keys[..i]), keys[i].bytes);
        size := Wrap64(size + keys[i].bytes);
      }
      assert keys[..|keys|] == keys;
    }
  }

  // ---------------------------------------------------------------- both tables

  /** What the environment decides at one request. */
  datatype Environment = Environment(cacheEnabled: bool, groupEnabled: bool, made: bool, computed: bool, direct: bool)

  /** The whole group is admissible: two or three well formed matrices of one width. */
  predicate WellFormedGroup(keys: seq<Key>) {
    && 2 <= |keys| <= 3
    && forall i | 0 <= i < |keys| :: WellFormed(keys[i]) && keys[i].width == keys[0].width
  }

  function Weights<Data>(memory: nat -> Data, keys: seq<Key>): (data: seq<Data>)
    ensures |data| == |keys|
  {
    seq(|keys|, i requires 0 <= i < |keys| => memory(keys[i].weights))
  }

  /** The products of the matrices with the activation. */
  function Products<Data, Vector>(product: (Key, Data, Vector) -> Vector, keys: seq<Key>, data: seq<Data>, activation: Vector): (r: seq<Vector>)
    requires |data| == |keys|
    ensures |r| == |keys|
  {
    seq(|keys|, i requires 0 <= i < |keys| => product(keys[i], data[i], activation))
  }

  /** Every plan was made from the weights that are still there. */
  ghost predicate Current<Data>(plans: seq<Plan<Data>>, memory: nat -> Data) {
    forall i | 0 <= i < |plans| :: plans[i].data == Weights(memory, plans[i].keys)
  }

  /** With unchanged weights, a request is served from the right ones, found or new. */
  lemma AdmitIsCurrent<Data>(plans: seq<Plan<Data>>, bytes: nat, keys: seq<Key>, memory: nat -> Data, made: bool)
    requires Current(plans, memory)
    ensures var (later, _, r) := Admit(plans, bytes, keys, Weights(memory, keys), made);
      Current(later, memory) && (r.Ready? ==> r.data == Weights(memory, keys))
  {
    FindPlanMeans(plans, keys, 0);
  }

  class Cache<Data, Vector> {
    const product: (Key, Data, Vector) -> Vector
    const single: PlanTable<Data>
    const group: PlanTable<Data>

    ghost predicate Valid()
      reads this, single, single.entries, group, group.entries
    {
      single != group && single.entries != group.entries && single.Valid() && group.Valid()
    }

    ghost predicate Fresh(memory: nat -> Data)
      requires Valid()
      reads this, single, single.entries, group, group.entries
    {
      Current(single.Plans(), memory) && Current(group.Plans(), memory)
    }

    constructor (product: (Key, Data, Vector) -> Vector)
      ensures Valid() && fresh(single) && fresh(group) && fresh(single.entries) && fresh(group.entries)
      ensures this.product == product && single.Plans() == [] && group.Plans() == []
    {
      this.product := product;
      single := new PlanTable<Data>();
      group := new PlanTable<Data>();
    }

    /** `fortai_ggml_quant_matvec`: the cached product, or else the direct one. */
    method MatVec(key: Key, memory: nat -> Data, activation: Vector, env: Environment) returns (r: Option<Vector>)
      requires Valid() && Fresh(memory)
      modifies single, single.entries
      ensures Valid() && Fresh(memory)
      ensures r.Some? ==> WellFormed(key) && r.value == product(key, memory(key.weights), activation)
      ensures WellFormed(key) && env.direct ==> r.Some?
      ensures
        var (plans, bytes, found) := Admit(old(single.Plans()), old(single.bytes), [key], Weights(memory, [key]), env.made);
        if WellFormed(key) && env.cacheEnabled then
          single.Plans() == plans && single.bytes == bytes && (r.Some? <==> env.direct || (found.Ready? && env.computed))
        else
          single.Plans() == old(single.Plans()) && single.bytes == old(single.bytes) && (r.Some? <==> WellFormed(key) && env.direct)
      ensures AllSmall(old(single.Plans())) && Small([key]) ==> AllSmall(single.Plans())
    {
      hide IsTable, Current, Small, WellFormed;
      if !WellFormed(key) { return None; }
      if env.cacheEnabled {
        AdmitIsCurrent(single.Plans(), single.bytes, [key], memory, env.made);
        AdmitKeepsTable(single.Plans(), single.bytes, [key], Weights(memory, [key]), env.made);
        var found := single.Request([key], Weights(memory, [key]), env.made);
        if found.Ready? && env.computed {
          return Some(product(key, found.data[0], activation));
        }
      }
      if env.direct {
        r := Some(product(key, memory(key.weights), activation));
      } else {
        r := None;
      }
    }

    /** `fortai_ggml_quant_matvec_group`: one plan for all, and no fallback. */
    method MatVecGroup(keys: seq<Key>, memory: nat -> Data, activation: Vector, env: Environment) returns (r: Option<seq<Vector>>)
      requires Valid() && Fresh(memory)
      modifies group, group.entries
      ensures Valid() && Fresh(memory)
      ensures r.Some? ==> WellFormedGroup(keys) && r.value == Products(product, keys, Weights(memory, keys), activation)
      ensures
        var (plans, bytes, found) := Admit(old(group.Plans()), old(group.bytes), keys, Weights(memory, keys), env.made);
        if env.groupEnabled && WellFormedGroup(keys) && env.cacheEnabled then
          group.Plans() == plans && group.bytes == bytes && (r.Some? <==> found.Ready? && env.computed)
        else
          group.Plans() == old(group.Plans()) && group.bytes == old(group.bytes) && r.None?
      ensures AllSmall(old(group.Plans())) && Small(keys) ==> AllSmall(group.Plans())
    {
      hide IsTable, Current, Small, WellFormedGroup;
      if !env.groupEnabled || !WellFormedGroup(keys) || !env.cacheEnabled { return None; }
      AdmitIsCurrent(group.Plans(), group.bytes, keys, memory, env.made);
      AdmitKeepsTable(group.Plans(), group.bytes, keys, Weights(memory, keys), env.made);
      var found := group.Request(keys, Weights(memory, keys), env.made);
      if found.Refused? || !env.computed { return None; }
      r := Some(Products(product, keys, found.data, activation));
    }

    /** What both tables hold, and that their counters are exact. */
    ghost predicate Exact()
      requires Valid()
      reads this, single, single.entries, group, group.entries
    {
      AllSmall(single.Plans()) && AllSmall(group.Plans())
    }

    lemma ExactMeans()
      requires Valid()
      ensures |single.Plans()| <= MAX_PLANS && |group.Plans()| <= MAX_PLANS
      ensures Exact() ==> single.bytes == SumBytes(single.Plans()) <= MAX_BYTES && group.bytes == SumBytes(group.Plans()) <= MAX_BYTES
    {
    }

    /** One call of a run. */
    method Serve(call: Call<Data, Vector>, memory: nat -> Data) returns (answer: Option<seq<Vector>>, later: nat -> Data)
      requires Valid() && Fresh(memory)
      modifies single, single.entries, group, group.entries
      ensures Valid() && later == (if call.ClearAndLoad? then call.memory else memory) && Fresh(later)
      ensures IsAnswer(product, memory, call, answer)
      ensures old(Exact()) && SmallCall(call) ==> Exact()
    {
      hide Admit, Small, WellFormed, WellFormedGroup;
      answer, later := None, memory;
      match call {
        case Single(key, activation, env) =>
          var r := MatVec(key, memory, activation, env);
          if r.Some? { answer := Some([r.value]); }
        case Group(keys, activation, env) =>
          answer := MatVecGroup(keys, memory, activation, env);
        case ClearAndLoad(loaded) =>
          Clear();
          later := loaded;
      }
    }

    method ServeAll(first: nat -> Data, calls: seq<Call<Data, Vector>>) returns (answers: seq<Option<seq<Vector>>>)
      requires Valid() && Fresh(first)
      modifies single, single.entries, group, group.entries
      ensures |answers| == |calls|
      ensures forall i | 0 <= i < |calls| :: IsAnswer(product, MemoryAfter(first, calls[..i]), calls[i], answers[i])
      ensures Valid() && Fresh(MemoryAfter(first, calls))
      ensures old(Exact()) && (forall i | 0 <= i < |calls| :: SmallCall(calls[i])) ==> Exact()
    {
      hide IsAnswer, SmallCall, Exact, Fresh, Valid;
      var memory := first;
      answers := [];
      for i := 0 to |calls|
        invariant Valid() && memory == MemoryAfter(first, calls[..i]) && Fresh(memory)
        invariant |answers| == i
        invariant forall k | 0 <= k < i :: IsAnswer(product, MemoryAfter(first, calls[..k]), calls[k], answers[k])
        invariant old(Exact()) && (forall k | 0 <= k < i :: SmallCall(calls[k])) ==> Exact()
      {
        assert calls[..i + 1][..i] == calls[..i];
        var answer;
        answer, memory := Serve(calls[i], memory);
        answers := answers + [answer];
      }
      assert calls[..|calls|] == calls;
    }

    /** `fortai_ggml_quant_cache_clear`: afterwards the weights may change. */
    method Clear()
      requires Valid()
      modifies single, single.entries, group, group.entries
      ensures Valid() && single.Plans() == [] && group.Plans() == []
    {
      single.Clear();
      group.Clear();
    }
  }

  // ---------------------------------------------------------------- whole runs

  /** A call; weights change only together with a clearing of the cache. */
  datatype Call<!Data, Vector> =
    | Single(key: Key, activation: Vector, env: Environment)
    | Group(keys: seq<Key>, activation: Vector, env: Environment)
    | ClearAndLoad(memory: nat -> Data)

  /** The weights in force after the calls. */
  function MemoryAfter<Data, Vector>(memory: nat -> Data, calls: seq<Call<Data, Vector>>): nat -> Data {
    if calls == [] then memory
    else match calls[|calls| - 1]
      case ClearAndLoad(later) => later
      case _ => MemoryAfter(memory, calls[..|calls| - 1])
  }

  /**
   What a call answers: the products with the weights in force, or nothing. A single product
   is answered whenever the direct way works, and nothing inadmissible is ever answered.
   */
  predicate IsAnswer<Data, Vector(==)>(product: (Key, Data, Vector) -> Vector, memory: nat -> Data, call: Call<Data, Vector>, answer: Option<seq<Vector>>) {
    match call
    case Single(key, activation, env) =>
      && (answer.Some? ==> WellFormed(key) && answer.value == [product(key, memory(key.weights), activation)])
      && (WellFormed(key) && env.direct ==> answer.Some?)
    case Group(keys, activation, env) =>
      answer.Some? ==> (
        && env.groupEnabled && env.cacheEnabled && env.computed && WellFormedGroup(keys)
        && answer.value == Products(product, keys, Weights(memory, keys), activation))
    case ClearAndLoad(_) => answer.None?
  }

  predicate SmallCall<Data, Vector>(call: Call<Data, Vector>) {
    match call
    case Single(key, _, _) => Small([key])
    case Group(keys, _, _) => Small(keys)
    case ClearAndLoad(_) => true
  }

  /**
   Any run of calls: every answer is the direct product, whatever was cached before. At the
   end, as at any time, both tables have distinct keys and at most 256 plans, and if the sizes
   were those of real buffers, both counters are exact and at most 4 GiB.
   */
  method Run<Data, Vector(==)>(product: (Key, Data, Vector) -> Vector, first: nat -> Data, calls: seq<Call<Data, Vector>>)
    returns (answers: seq<Option<seq<Vector>>>, cache: Cache<Data, Vector>)
    ensures |answers| == |calls|
    ensures forall i | 0 <= i < |calls| :: IsAnswer(product, MemoryAfter(first, calls[..i]), calls[i], answers[i])
    ensures fresh(cache) && cache.Valid() && cache.Fresh(MemoryAfter(first, calls))
    ensures |cache.single.Plans()| <= MAX_PLANS && |cache.group.Plans()| <= MAX_PLANS
    ensures (forall i | 0 <= i < |calls| :: SmallCall(calls[i])) ==>
      && cache.single.bytes == SumBytes(cache.single.Plans()) <= MAX_BYTES
      && cache.group.bytes == SumBytes(cache.group.Plans()) <= MAX_BYTES
  {
    hide IsAnswer, SmallCall, IsTable, Current;
    cache := NewCache(product, first);
    answers := cache.ServeAll(first, calls);
    cache.ExactMeans();
  }

  method NewCache<Data, Vector>(product: (Key, Data, Vector) -> Vector, memory: nat -> Data) returns (cache: Cache<Data, Vector>)
    ensures fresh(cache) && fresh(cache.single) && fresh(cache.group) && fresh(cache.single.entries) && fresh(cache.group.entries)
    ensures cache.Valid() && cache.product == product && cache.Fresh(memory) && cache.Exact()
  {
    cache := new Cache<Data, Vector>(product);
  }
}
