/**
 The growable string: geometric growth in place, and what it means over any sequence of
 operations.
 */
module GrowableString {
  import opened Bytes

  function Max(a: nat, b: nat): nat {
    if a < b then b else a
  }

  /** Sixteen, doubled any number of times. */
  predicate IsDoubled(capacity: nat)
    ensures IsDoubled(capacity) ==> 16 <= capacity
  {
    capacity == 16 || (capacity > 16 && capacity % 2 == 0 && IsDoubled(capacity / 2))
  }

  /** The capacity that the growth loop ends with. */
  function GrownCapacity(start: nat, required: nat): (capacity: nat)
    requires 16 <= start
    ensures required <= capacity && start <= capacity
    ensures start < required ==> 2 * start <= capacity < 2 * required
    ensures required <= start ==> capacity == start
    decreases required - start
  {
    if required <= start then start else GrownCapacity(2 * start, required)
  }

  /** Below the double of such a capacity there is none above it. */
  lemma {:induction false} NoneBetween(capacity: nat, limit: nat)
    requires IsDoubled(capacity) && IsDoubled(limit) && capacity < 2 * limit
    ensures capacity <= limit
    decreases limit
  {
    if limit > 16 && capacity > 16 {
      NoneBetween(capacity / 2, limit / 2);
    }
  }

  lemma OneDoubling(capacity: nat)
    requires IsDoubled(capacity)
    ensures IsDoubled(2 * capacity)
  {
    assert 2 * capacity / 2 == capacity && 2 * capacity % 2 == 0;
  }

  lemma {:induction false} GrownIsDoubled(start: nat, required: nat)
    requires IsDoubled(start)
    ensures IsDoubled(GrownCapacity(start, required))
    decreases required - start
  {
    hide IsDoubled;
    if start < required {
      OneDoubling(start);
      GrownIsDoubled(2 * start, required);
    }
  }

  lemma FourDoublings(capacity: nat)
    requires IsDoubled(capacity)
    ensures IsDoubled(16 * capacity)
  {
    hide IsDoubled;
    OneDoubling(capacity);
    OneDoubling(2 * capacity);
    OneDoubling(4 * capacity);
    OneDoubling(8 * capacity);
  }

  lemma SixteenIsDoubled()
    ensures IsDoubled(16)
  {
  }

  lemma LimitIsDoubled()
    ensures IsDoubled(0x4000_0000)
  {
    assert IsDoubled(0x10);
    hide IsDoubled;
    FourDoublings(0x10);
    FourDoublings(0x100);
    FourDoublings(0x1000);
    FourDoublings(0x1_0000);
    FourDoublings(0x10_0000);
    FourDoublings(0x100_0000);
    OneDoubling(0x1000_0000);
    OneDoubling(0x2000_0000);
  }

  /** From a capacity of 32 bits no doubling leaves 32 bits exactly if at most 2^30 characters are asked for. */
  lemma GrowthFitsExactly(start: nat, required: nat)
    requires IsDoubled(start) && start < 0x8000_0000
    ensures GrownCapacity(start, required) < 0x8000_0000 <==> required <= 0x4000_0000
  {
    hide IsDoubled;
    LimitIsDoubled();
    NoneBetween(start, 0x4000_0000);
    GrownIsDoubled(start, required);
    if GrownCapacity(start, required) < 0x8000_0000 {
      NoneBetween(GrownCapacity(start, required), 0x4000_0000);
    }
  }

  class GrowableString {
    var value: array?<byte>
    var used: nat
    /** How many characters all growth so far has copied. */
    ghost var copied: nat
    /** The greatest length asked for so far. */
    ghost var largest: nat

    function Capacity(): nat
      reads this
    {
      if value == null then 0 else value.Length
    }

    ghost predicate Valid()
      reads this
    {
      && used <= largest <= Capacity() && copied <= Capacity()
      && (value != null ==> IsDoubled(value.Length) && 16 <= value.Length && (value.Length == 16 || value.Length < 2 * largest))
    }

    ghost function View(): Text
      requires Valid()
      reads this, value
    {
      if value == null then [] else value[..used]
    }

    constructor ()
      ensures Valid() && View() == [] && value == null && copied == 0 && largest == 0
    {
      value, used, copied, largest := null, 0, 0, 0;
    }

    method Clear()
      requires Valid()
      modifies this`used
      ensures Valid() && View() == []
    {
      used := 0;
    }

    /** The growth loop: doubles until there is room, and stops before twice the request. */
    static method Grow(start: nat, required: nat) returns (capacity: nat)
      requires 16 <= start
      ensures capacity == GrownCapacity(start, required)
    {
      capacity := start;
      while capacity < required
        invariant 16 <= capacity && GrownCapacity(capacity, required) == GrownCapacity(start, required)
      {
        capacity := Max(capacity + 1, 2 * capacity);
      }
    }

    method Reserve(required: int)
      requires Valid()
      modifies this`value, this`copied, this`largest
      ensures Valid() && View() == old(View())
      ensures required <= Capacity() && old(Capacity()) <= Capacity()
      ensures largest == if required <= old(largest) then old(largest) else required
      ensures value == old(value) || fresh(value)
      ensures Capacity() == if required <= old(Capacity()) then old(Capacity()) else GrownCapacity(Max(16, old(Capacity())), required)
    {
      hide IsDoubled, GrownCapacity;
      if required <= 0 { return; }
      if value != null && value.Length >= required {
        largest := Max(largest, required);
        return;
      }
      var capacity := if value != null then Max(16, value.Length) else 16;
      SixteenIsDoubled();
      GrownIsDoubled(capacity, required);
      capacity := Grow(capacity, required);
      copied := copied + used;
      value := Moved(capacity);
      largest := required;
    }

    /** A buffer of blanks of the new capacity, with what is used copied over. */
    method Moved(capacity: nat) returns (grown: array<byte>)
      requires used <= Capacity() && used <= capacity
      ensures fresh(grown) && grown.Length == capacity
      ensures value != null ==> grown[..used] == value[..used]
    {
      grown := new byte[capacity](_ => 32);
      if used > 0 && value != null {
        forall k | 0 <= k < used {
          grown[k] := value[k];
        }
      }
    }

    method Append(fragment: Text)
      requires Valid()
      modifies this, value
      ensures Valid() && View() == old(View()) + fragment
      ensures largest == if fragment == [] then old(largest) else Max(old(largest), old(used) + |fragment|)
      ensures value == old(value) || fresh(value)
    {
      var n := |fragment|;
      if n == 0 { return; }
      Reserve(used + n);
      Write(fragment);
    }

    /** `value(used + 1:used + n) = fragment`, with room enough. */
    method Write(fragment: Text)
      requires Valid() && value != null && used + |fragment| <= value.Length && used + |fragment| <= largest
      modifies this`used, value
      ensures Valid() && View() == old(View()) + fragment
    {
      forall k | 0 <= k < |fragment| {
        value[used + k] := fragment[k];
      }
      used := used + |fragment|;
    }

    /** Appends another string, or the string itself. */
    method AppendString(fragment: GrowableString)
      requires Valid() && fragment.Valid()
      requires fragment == this || fragment.value == null || fragment.value != value
      modifies this, value
      ensures Valid() && View() == old(View()) + old(fragment.View())
      ensures fragment != this ==> fragment.Valid() && fragment.View() == old(fragment.View())
      ensures value == old(value) || fresh(value)
    {
      if fragment.used == 0 { return; }
      Reserve(used + fragment.used);
      Write(fragment.value[..fragment.used]);
    }

    method Set(text: Text)
      requires Valid()
      modifies this, value
      ensures Valid() && View() == text
      ensures largest == if text == [] then old(largest) else Max(old(largest), |text|)
      ensures value == old(value) || fresh(value)
    {
      Clear();
      Append(text);
    }
  }

  // ---------------------------------------------------------------- any sequence of operations

  datatype Operation = Clear | Reserve(required: int) | Append(fragment: Text) | Set(text: Text)

  function Meaning(before: Text, op: Operation): Text {
    match op
    case Clear => []
    case Reserve(_) => before
    case Append(fragment) => before + fragment
    case Set(text) => text
  }

  /** What the string holds after all of them. */
  function Contents(ops: seq<Operation>): Text {
    if ops == [] then [] else Meaning(Contents(ops[..|ops| - 1]), ops[|ops| - 1])
  }

  /** The length that one operation asks for. */
  function Asked(before: Text, op: Operation): nat {
    match op
    case Clear => 0
    case Reserve(required) => if required < 0 then 0 else required
    case Append(fragment) => if fragment == [] then 0 else |before| + |fragment|
    case Set(text) => |text|
  }

  /** The greatest length that the operations ask for. */
  function Demand(ops: seq<Operation>): nat {
    if ops == [] then 0
    else
      var n := |ops| - 1;
      Max(Demand(ops[..n]), Asked(Contents(ops[..n]), ops[n]))
  }

  /** What one operation is given, in characters. */
  function Given(op: Operation): nat {
    match op
    case Clear => 0
    case Reserve(required) => if required < 0 then 0 else required
    case Append(fragment) => |fragment|
    case Set(text) => |text|
  }

  /** All that is ever passed to the string. */
  function Supplied(ops: seq<Operation>): nat {
    if ops == [] then 0 else Supplied(ops[..|ops| - 1]) + Given(ops[|ops| - 1])
  }

  /** The demand never exceeds the supply, so a bound in the demand is linear in the work of the callers. */
  lemma {:induction false} DemandIsSupplied(ops: seq<Operation>)
    ensures |Contents(ops)| <= Supplied(ops) && Demand(ops) <= Supplied(ops)
  {
    if ops != [] {
      DemandIsSupplied(ops[..|ops| - 1]);
    }
  }

  lemma OneMore(ops: seq<Operation>, i: nat)
    requires i < |ops|
    ensures Contents(ops[..i + 1]) == Meaning(Contents(ops[..i]), ops[i])
    ensures Demand(ops[..i + 1]) == Max(Demand(ops[..i]), Asked(Contents(ops[..i]), ops[i]))
  {
    assert ops[..i + 1][..i] == ops[..i];
  }

  /** One operation on a string. */
  method Perform(s: GrowableString, op: Operation)
    requires s.Valid()
    modifies s, s.value
    ensures s.Valid() && s.View() == Meaning(old(s.View()), op)
    ensures s.largest == Max(old(s.largest), Asked(old(s.View()), op))
    ensures s.value == old(s.value) || fresh(s.value)
  {
    match op {
      case Clear => s.Clear();
      case Reserve(required) => s.Reserve(required);
      case Append(fragment) => s.Append(fragment);
      case Set(text) => s.Set(text);
    }
  }

  /** Any sequence of operations: the contents, the capacity, and the copying that growth has cost. */
  method Replay(ops: seq<Operation>) returns (s: GrowableString)
    ensures fresh(s) && s.Valid() && s.View() == Contents(ops) && s.largest == Demand(ops)
    ensures s.Capacity() <= 16 || s.Capacity() < 2 * Demand(ops)
    ensures s.copied <= s.Capacity() && s.copied <= 16 + 2 * Supplied(ops)
    ensures s.Capacity() < 0x8000_0000 <==> Demand(ops) <= 0x4000_0000
  {
    hide Contents, Demand, Supplied, Meaning, Asked, IsDoubled;
    s := new GrowableString();
    NothingDone();
    assert ops[..0] == [];
    for i := 0 to |ops|
      invariant fresh(s) && (s.value == null || fresh(s.value))
      invariant s.Valid() && s.View() == Contents(ops[..i]) && s.largest == Demand(ops[..i])
    {
      OneMore(ops, i);
      Perform(s, ops[i]);
    }
    assert ops[..|ops|] == ops;
    DemandIsSupplied(ops);
    LimitIsDoubled();
    if s.value != null && s.Capacity() < 0x8000_0000 {
      NoneBetween(s.Capacity(), 0x4000_0000);
    }
  }

  lemma NothingDone()
    ensures Contents([]) == [] && Demand([]) == 0
  {
  }
}
