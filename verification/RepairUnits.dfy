/**
 How many units the repair makes of a text: one for every well-formed character and one for
 every octet that starts none. Losing octets never makes more units, and repair keeps their
 number; so repair cannot give back a character that has lost an octet.
 */
module RepairUnits {
  import opened Bytes
  import opened Utf8

  /** The octets that the repair takes at once from the front of a text. */
  function UnitWidth(text: Text): (width: nat)
    requires text != []
    ensures 1 <= width <= |text|
  {
    if ValidWidth(text, 0) > 0 then ValidWidth(text, 0) else 1
  }

  function Units(text: Text): nat {
    if text == [] then 0 else 1 + Units(text[UnitWidth(text)..])
  }

  /** What the repair makes of the first unit. */
  function FirstUnit(text: Text): Text
    requires text != []
  {
    if ValidWidth(text, 0) > 0 then text[..ValidWidth(text, 0)] else REPLACEMENT
  }

  lemma WidthOfRest(text: Text, position: nat)
    requires position <= |text|
    ensures ValidWidth(text, position) == ValidWidth(text[position..], 0)
  {
    var rest := text[position..];
    assert forall i | 0 <= i < |rest| :: rest[i] == text[position + i];
  }

  /** The repair of a rest is the repair of the rest alone. */
  lemma {:induction false} RepairOfRest(text: Text, position: nat)
    requires position <= |text|
    ensures Repair(text, position) == Repair(text[position..], 0)
    decreases |text| - position
  {
    hide ValidWidth;
    if position < |text| {
      var rest := text[position..];
      WidthOfRest(text, position);
      var width := UnitWidth(rest);
      RepairOfRest(text, position + width);
      RepairOfRest(rest, width);
      assert rest[width..] == text[position + width..];
      assert text[position..position + width] == rest[..width];
    }
  }

  /** The repair takes the text unit by unit. */
  lemma RepairByUnits(text: Text)
    requires text != []
    ensures Repair(text, 0) == FirstUnit(text) + Repair(text[UnitWidth(text)..], 0)
  {
    hide ValidWidth;
    RepairOfRest(text, UnitWidth(text));
  }

  // ---------------------------------------------------------------- a character in front

  /** A character in front is one unit, and is left as it is. */
  lemma CharacterInFront(codepoint: nat, rest: Text)
    requires IsScalar(codepoint)
    ensures Units(Encode(codepoint) + rest) == 1 + Units(rest)
    ensures Repair(Encode(codepoint) + rest, 0) == Encode(codepoint) + Repair(rest, 0)
  {
    hide ValidWidth, Encode;
    var text := Encode(codepoint) + rest;
    assert [] + Encode(codepoint) + rest == text;
    ValidWidthOfScalar([], codepoint, rest);
    assert text[|Encode(codepoint)|..] == rest && text[..|Encode(codepoint)|] == Encode(codepoint);
    RepairByUnits(text);
  }

  /** The first unit of a repaired text is a character. */
  lemma FirstUnitIsCharacter(text: Text) returns (codepoint: nat)
    requires text != []
    ensures IsScalar(codepoint) && Encode(codepoint) == FirstUnit(text)
  {
    if ValidWidth(text, 0) > 0 {
      codepoint := ScalarOfValidWidth(text, 0);
    } else {
      codepoint := 0xFFFD;
    }
  }

  /** Repair keeps the number of units. */
  lemma {:induction false} RepairKeepsUnits(text: Text)
    ensures Units(Repair(text, 0)) == Units(text)
    decreases |text|
  {
    hide ValidWidth, Encode, FirstUnit;
    if text != [] {
      var rest := text[UnitWidth(text)..];
      RepairByUnits(text);
      RepairKeepsUnits(rest);
      var codepoint := FirstUnitIsCharacter(text);
      CharacterInFront(codepoint, Repair(rest, 0));
    }
  }

  // ---------------------------------------------------------------- an octet in front

  lemma ContinuationIsAUnit(text: Text)
    requires text != [] && IsContinuation(text[0])
    ensures Units(text) == 1 + Units(text[1..])
  {
  }

  /** The octets behind the lead octet of a character are continuations. */
  lemma BehindTheLead(text: Text)
    requires text != []
    ensures forall i | 1 <= i < ValidWidth(text, 0) :: IsContinuation(text[i])
  {
  }

  lemma {:induction false} Continuations(text: Text, n: nat)
    requires n <= |text| && forall i | 0 <= i < n :: IsContinuation(text[i])
    ensures Units(text) == n + Units(text[n..])
    decreases n
  {
    hide IsContinuation, ValidWidth, Units, UnitWidth;
    if n == 0 {
      assert text[0..] == text;
    } else {
      ContinuationIsAUnit(text);
      assert forall i | 0 <= i < n - 1 :: text[1..][i] == text[i + 1];
      Continuations(text[1..], n - 1);
      assert text[1..][n - 1..] == text[n..];
    }
  }

  /** An octet in front makes at most one more unit, and none if it takes others with it. */
  lemma OctetInFront(octet: byte, rest: Text)
    ensures Units([octet] + rest) <= 1 + Units(rest)
    ensures ValidWidth([octet] + rest, 0) >= 2 ==> Units(rest) >= 1 + Units(([octet] + rest)[ValidWidth([octet] + rest, 0)..])
  {
    hide ValidWidth;
    var text := [octet] + rest;
    var width := UnitWidth(text);
    assert text[1..] == rest && text[width..] == rest[width - 1..];
    if ValidWidth(text, 0) >= 2 {
      BehindTheLead(text);
      forall i | 0 <= i < width - 1 ensures IsContinuation(rest[i]) {
        assert rest[i] == text[i + 1];
      }
      Continuations(rest, width - 1);
    }
  }

  // ---------------------------------------------------------------- what is lost stays lost

  /** A character of two octets that shrank to one is not given back by the repair, if the rest made no more units than it should. */
  lemma LostCharacterStaysLost(codepoint: nat, octet: byte, raw: Text, text: Text)
    requires 0x80 <= codepoint <= 0x7FF && Units(raw) <= Units(text)
    ensures Repair([octet] + raw, 0) != Encode(codepoint) + text
  {
    hide ValidWidth;
    var whole := [octet] + raw;
    var width := ValidWidth(whole, 0);
    RepairByUnits(whole);
    if Repair(whole, 0) == Encode(codepoint) + text {
      var first := FirstUnit(whole);
      assert Repair(whole, 0)[0] == first[0] && (Encode(codepoint) + text)[0] == Encode(codepoint)[0];
      assert first != REPLACEMENT && 0xC2 <= first[0] <= 0xDF;
      TwoOctets(whole);
      assert width == 2;
      assert Repair(whole, 0)[2..] == Repair(whole[2..], 0);
      assert (Encode(codepoint) + text)[2..] == text;
      OctetInFront(octet, raw);
      RepairKeepsUnits(whole[2..]);
    }
  }

  lemma TwoOctets(text: Text)
    requires text != [] && 0xC2 <= text[0] <= 0xDF
    ensures ValidWidth(text, 0) == 2 || ValidWidth(text, 0) == 0
  {
  }
}
