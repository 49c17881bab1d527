/**
 When the outcome of the request reader depends on the bytes alone, and not on how `recv`
 split them: exactly when the last Content-Length line has a value, or the buffer itself
 forces the reader to stop at the end of the header.
 */
module RequestFraming {
  import opened Bytes
  import opened CStrings
  import opened RequestReader

  /** The events hand over the whole stream, or fill the buffer. */
  predicate Delivers(data: seq<byte>, events: seq<Event>, length: nat, capacity: nat)
    requires Sized(data, length, capacity)
    decreases |events|
  {
    length == |data| || length >= MAX_REQUEST || (events != [] &&
      var room := Grown(length, capacity);
      match events[0]
      case Interrupted => Delivers(data, events[1..], length, room)
      case Received(n) => n > 0 && Delivers(data, events[1..], length + Arriving(data, n, length, room), room))
  }

  /** The last Content-Length line, if any, has a value: a byte that is not white space. */
  predicate HasLengthValue(b: seq<byte>, separator: nat) {
    match LastValue(b, 0, separator, None)
    case None => true
    case Some(v) => exists k | v <= k < separator :: !IsSpace(At(b, k))
  }

  /** No header yet, or one whose Content-Length has a value. */
  predicate Steady(data: seq<byte>) {
    match Strstr(data, 0, SEPARATOR)
    case None => true
    case Some(separator) => HasLengthValue(data, separator)
  }

  /** The request that the bytes contain: what the reader would say if it saw all of them at once. */
  function Frame(data: seq<byte>): Option<nat> {
    match Inspect(data, |data|)
    case Complete(total) => Some(total)
    case _ => None
  }

  // ---------------------------------------------------------------- what a longer prefix adds

  lemma NotYet(data: seq<byte>, length: nat)
    requires length <= |data|
    requires Strstr(data, 0, SEPARATOR).None? || length < Strstr(data, 0, SEPARATOR).value + 4
    ensures Inspect(data[..length], length) == Continue
  {
    var text := data[..length];
    if Strstr(text, 0, SEPARATOR).Some? {
      EndsAtMeans(text, Strstr(text, 0, SEPARATOR).value);
      HeaderIsLocal(text, data, Strstr(text, 0, SEPARATOR).value);
      assert false;
    }
  }

  lemma SteadyLength(data: seq<byte>, length: nat, separator: nat)
    requires EndsAt(data, separator) && separator + 4 <= length <= |data| && HasLengthValue(data, separator)
    ensures EndsAt(data[..length], separator) && ContentLength(data[..length], separator) == ContentLength(data, separator)
  {
    EndsAtMeans(data, separator);
    HeaderIsLocal(data, data[..length], separator);
    match LastValue(data, 0, separator, None)
    case None =>
    case Some(v) =>
      assert data[separator] == data[separator..separator + 4][0] == 13;
      StrtoullIsLocal(data, data[..length], v, separator);
  }

  /** With a value in the header, what a prefix says is final unless it says to go on. */
  lemma VerdictIsFinal(data: seq<byte>, length: nat)
    requires length <= |data| && Steady(data)
    ensures match Inspect(data[..length], length)
      case Continue => length >= MAX_REQUEST || length == |data| ==> Frame(data) == None
      case Refuse => Frame(data) == None
      case Complete(total) => Frame(data) == Some(total)
  {
    hide LastValue, Strtoull, HasLengthValue, Strstr, IsSpace, At;
    if Strstr(data, 0, SEPARATOR).Some? {
      EndsAtMeans(data, Strstr(data, 0, SEPARATOR).value);
    }
    if Strstr(data, 0, SEPARATOR).None? || length < Strstr(data, 0, SEPARATOR).value + 4 {
      NotYet(data, length);
    } else {
      SteadyLength(data, length, Strstr(data, 0, SEPARATOR).value);
    }
    if length == |data| {
      assert data[..length] == data;
    }
  }

  lemma {:induction false} ReadIsFrame(data: seq<byte>, events: seq<Event>, length: nat, capacity: nat)
    requires Sized(data, length, capacity) && Delivers(data, events, length, capacity) && Steady(data)
    requires Inspect(data[..length], length) == Continue
    ensures Read(data, events, length, capacity) == Frame(data)
    decreases |events|
  {
    hide Inspect, Frame, Steady;
    VerdictIsFinal(data, length);
    if length < MAX_REQUEST && events != [] {
      var room := Grown(length, capacity);
      match events[0]
      case Interrupted =>
        if length < |data| { ReadIsFrame(data, events[1..], length, room); } else { NothingMore(data, events, length, capacity); }
      case Received(n) =>
        var now := length + Arriving(data, n, length, room);
        if now > length {
          VerdictIsFinal(data, now);
          if Inspect(data[..now], now) == Continue {
            ReadIsFrame(data, events[1..], now, room);
          }
        }
    }
  }

  lemma {:induction false} NothingMore(data: seq<byte>, events: seq<Event>, length: nat, capacity: nat)
    requires Sized(data, length, capacity) && length == |data|
    ensures Read(data, events, length, capacity) == None
    decreases |events|
  {
    if length < MAX_REQUEST && events != [] && events[0].Interrupted? {
      NothingMore(data, events[1..], length, Grown(length, capacity));
    }
  }

  /** The framing does not depend on the chunks: every way to deliver the bytes gives the request they contain. */
  lemma ChunksDoNotMatter(data: seq<byte>, events: seq<Event>)
    requires Delivers(data, events, 0, FIRST_CAPACITY) && Steady(data)
    ensures Read(data, events, 0, FIRST_CAPACITY) == Frame(data)
  {
    assert Inspect(data[..0], 0) == Continue;
    ReadIsFrame(data, events, 0, FIRST_CAPACITY);
  }

  /** An accepted request is the header and as many bytes as it asks for, within the limit. */
  lemma FrameIsHeaderAndBody(data: seq<byte>)
    ensures match Frame(data)
      case Some(total) =>
        && Strstr(data, 0, SEPARATOR).Some? && total <= |data| && total <= 0x100_0000
        && total == Strstr(data, 0, SEPARATOR).value + 4 + ContentLength(data, Strstr(data, 0, SEPARATOR).value)
      case None =>
        || Strstr(data, 0, SEPARATOR).None?
        || var total := Strstr(data, 0, SEPARATOR).value + 4 + ContentLength(data, Strstr(data, 0, SEPARATOR).value);
           total > 0x100_0000 || total > |data|
  {
  }

  // ---------------------------------------------------------------- exactly when

  /** A whole header: its first separator is its end. */
  ghost predicate IsHeader(h: seq<byte>) {
    |h| >= 4 && EndsAt(h, |h| - 4)
  }

  /** Whatever follows the header, all ways to deliver the bytes have the same outcome. */
  ghost predicate Independent(h: seq<byte>) {
    forall body: seq<byte>, one: seq<Event>, other: seq<Event> ::
      Delivers(h + body, one, 0, FIRST_CAPACITY) && Delivers(h + body, other, 0, FIRST_CAPACITY) ==>
        Read(h + body, one, 0, FIRST_CAPACITY) == Read(h + body, other, 0, FIRST_CAPACITY)
  }

  /** Whether doubling from `capacity` gives a buffer of exactly `n` bytes. */
  predicate Reaches(capacity: nat, n: nat)
    decreases MAX_REQUEST - capacity
  {
    capacity == n || (0 < capacity < n && capacity < MAX_REQUEST && Reaches(Min(2 * capacity, MAX_REQUEST), n))
  }

  lemma SkipBlank(b: seq<byte>, from: nat, end: nat)
    requires from <= end <= |b| && !IsSpace(At(b, end)) && forall k | from <= k < end :: IsSpace(b[k])
    ensures SkipSpace(b, from) == end
  {
  }

  lemma HeaderOf(h: seq<byte>, data: seq<byte>)
    requires IsHeader(h) && h <= data
    ensures EndsAt(data, |h| - 4) && LastValue(data, 0, |h| - 4, None) == LastValue(h, 0, |h| - 4, None)
    ensures !Steady(h) ==> LastValue(h, 0, |h| - 4, None).Some?
    ensures !Steady(h) ==> forall k | LastValue(h, 0, |h| - 4, None).value <= k < |h| :: IsSpace(h[k])
    ensures !Steady(h) ==> LastValue(h, 0, |h| - 4, None).value <= |h|
  {
    HeaderIsLocal(h, data, |h| - 4);
    EndsAtMeans(h, |h| - 4);
    if !Steady(h) {
      forall k | LastValue(h, 0, |h| - 4, None).value <= k < |h| ensures IsSpace(h[k]) {
        if k >= |h| - 4 {
          assert h[k] == h[|h| - 4..|h| - 4 + 4][k - (|h| - 4)];
        } else {
          assert At(h, k) == h[k];
        }
      }
    }
  }

  lemma SteadyWithBody(h: seq<byte>, data: seq<byte>)
    requires IsHeader(h) && h <= data && Steady(h)
    ensures Steady(data)
  {
    HeaderOf(h, data);
    match LastValue(h, 0, |h| - 4, None)
    case None =>
    case Some(v) =>
      var k :| v <= k < |h| - 4 && !IsSpace(At(h, k));
      assert At(data, k) == At(h, k);
  }

  /** A blank length is read as 0 when only the header has arrived. */
  lemma BlankIsZero(h: seq<byte>)
    requires IsHeader(h) && !Steady(h)
    ensures ContentLength(h, |h| - 4) == 0
  {
    HeaderOf(h, h);
    SkipBlank(h, LastValue(h, 0, |h| - 4, None).value, |h|);
  }

  /** And as 1 when the body has begun with a "1". */
  lemma BlankReadsTheBody(h: seq<byte>)
    requires IsHeader(h) && !Steady(h)
    ensures EndsAt(h + [49], |h| - 4) && ContentLength(h + [49], |h| - 4) == 1
  {
    var data := h + [49];
    HeaderOf(h, data);
    var v := LastValue(h, 0, |h| - 4, None).value;
    SkipBlank(data, v, |h|);
    assert Digits(data, |h| + 1, 1) == 1;
    assert Digits(data, |h|, 0) == 1;
  }

  lemma {:induction false} TooLong(data: seq<byte>, separator: nat, events: seq<Event>, length: nat, capacity: nat)
    requires Sized(data, length, capacity) && EndsAt(data, separator) && separator + 4 > MAX_REQUEST
    ensures Read(data, events, length, capacity) == None
    decreases |events|
  {
    if length < MAX_REQUEST && events != [] {
      var room := Grown(length, capacity);
      match events[0]
      case Interrupted => TooLong(data, separator, events[1..], length, room);
      case Received(n) =>
        var now := length + Arriving(data, n, length, room);
        NotYet(data, now);
        TooLong(data, separator, events[1..], now, room);
    }
  }

  lemma NextReach(capacity: nat, length: nat, n: nat)
    requires Reaches(capacity, n) && length <= capacity && length < n <= MAX_REQUEST && 0 < capacity
    ensures Reaches(Grown(length, capacity), n) && length < Grown(length, capacity) <= n
  {
    if capacity == length { ReachedAbove(Grown(length, capacity), n); } else { ReachedAbove(capacity, n); }
  }

  lemma ReachedAbove(capacity: nat, n: nat)
    requires Reaches(capacity, n)
    ensures capacity <= n
  {
  }

  /** If the header fills a buffer, the reader cannot see more than the header before it decides. */
  lemma {:induction false} StopsWhereTheBufferIsFull(h: seq<byte>, data: seq<byte>, events: seq<Event>, length: nat, capacity: nat)
    requires IsHeader(h) && !Steady(h) && h <= data && Reaches(capacity, |h|) && |h| <= MAX_REQUEST && length < |h|
    requires Sized(data, length, capacity) && Delivers(data, events, length, capacity)
    ensures Read(data, events, length, capacity) == Some(|h|)
    decreases |events|
  {
    hide Inspect, IsHeader, Steady, Reaches, Grown;
    NextReach(capacity, length, |h|);
    var room := Grown(length, capacity);
    match events[0]
    case Interrupted => StopsWhereTheBufferIsFull(h, data, events[1..], length, room);
    case Received(n) =>
      var now := length + Arriving(data, n, length, room);
      assert length < now <= |h|;
      if now < |h| {
        HeaderOf(h, data);
        NotYet(data, now);
        StopsWhereTheBufferIsFull(h, data, events[1..], now, room);
      } else {
        HeaderAlone(h, data);
      }
  }

  lemma HeaderAlone(h: seq<byte>, data: seq<byte>)
    requires IsHeader(h) && !Steady(h) && h <= data && |h| <= MAX_REQUEST
    ensures Inspect(data[..|h|], |h|) == Complete(|h|)
  {
    assert data[..|h|] == h;
    BlankIsZero(h);
  }

  /** Events that make the reader look at `target` bytes, if no buffer ends before that, and then at the rest. */
  function Aim(target: nat, total: nat, length: nat, capacity: nat): seq<Event>
    requires length <= capacity <= MAX_REQUEST && 0 < capacity
    decreases total - length
  {
    if length >= total || length >= MAX_REQUEST then []
    else
      var goal := if length < target <= total then target else total;
      var room := Grown(length, capacity);
      [Received(goal - length)] + Aim(target, total, Min(goal, room), room)
  }

  lemma {:induction false} AimDelivers(data: seq<byte>, target: nat, length: nat, capacity: nat)
    requires Sized(data, length, capacity)
    ensures Delivers(data, Aim(target, |data|, length, capacity), length, capacity)
    decreases |data| - length
  {
    if length < |data| && length < MAX_REQUEST {
      var goal := if length < target <= |data| then target else |data|;
      var room := Grown(length, capacity);
      AimDelivers(data, target, Min(goal, room), room);
    }
  }

  /** One aimed event: the reader looks at the target, or at as much as its buffer takes. */
  lemma AimStep(data: seq<byte>, target: nat, length: nat, capacity: nat)
    requires Sized(data, length, capacity) && length < target <= |data| && length < MAX_REQUEST
    ensures
      var room := Grown(length, capacity);
      var now := Min(target, room);
      length < now && Sized(data, now, room)
      && Read(data, Aim(target, |data|, length, capacity), length, capacity)
        == Decide(Inspect(data[..now], now), Read(data, Aim(target, |data|, now, room), now, room))
  {
    hide Inspect, Decide, Read, Aim;
    var now := Min(target, Grown(length, capacity));
    AimUnfolds(target, |data|, length, capacity);
    ReadReceived(data, target - length, Aim(target, |data|, now, Grown(length, capacity)), length, capacity);
  }

  lemma AimUnfolds(target: nat, total: nat, length: nat, capacity: nat)
    requires length < target <= total && length <= capacity <= MAX_REQUEST && 0 < capacity && length < MAX_REQUEST
    ensures var room := Grown(length, capacity);
      Aim(target, total, length, capacity) == [Received(target - length)] + Aim(target, total, Min(target, room), room)
  {
  }

  lemma ReadReceived(data: seq<byte>, n: nat, rest: seq<Event>, length: nat, capacity: nat)
    requires Sized(data, length, capacity) && 0 < n && length + n <= |data| && length < MAX_REQUEST
    ensures
      var room := Grown(length, capacity);
      var now := Min(length + n, room);
      length < now && Sized(data, now, room)
      && Read(data, [Received(n)] + rest, length, capacity) == Decide(Inspect(data[..now], now), Read(data, rest, now, room))
  {
    hide Inspect, Decide;
    var events := [Received(n)] + rest;
    assert events[0] == Received(n) && events[1..] == rest;
    var room := Grown(length, capacity);
    assert length + Arriving(data, n, length, room) == Min(length + n, room);
  }

  lemma {:induction false} AimAtHeader(h: seq<byte>, data: seq<byte>, length: nat, capacity: nat)
    requires IsHeader(h) && !Steady(h) && h <= data && |h| <= MAX_REQUEST && length < |h|
    requires Sized(data, length, capacity)
    ensures Read(data, Aim(|h|, |data|, length, capacity), length, capacity) == Some(|h|)
    decreases |h| - length
  {
    hide Inspect, Read, Aim, Steady;
    AimStep(data, |h|, length, capacity);
    var room := Grown(length, capacity);
    var now := Min(|h|, room);
    if now < |h| {
      HeaderOf(h, data);
      NotYet(data, now);
      AimAtHeader(h, data, now, room);
    } else {
      HeaderAlone(h, data);
    }
  }

  lemma HeaderAndOne(h: seq<byte>)
    requires IsHeader(h) && !Steady(h) && |h| < MAX_REQUEST
    ensures Inspect(h + [49], |h| + 1) == Complete(|h| + 1)
  {
    BlankReadsTheBody(h);
  }

  lemma {:induction false} AimBeyondHeader(h: seq<byte>, data: seq<byte>, length: nat, capacity: nat)
    requires IsHeader(h) && !Steady(h) && data == h + [49] && |h| < MAX_REQUEST && length < |h|
    requires Sized(data, length, capacity) && !Reaches(capacity, |h|)
    ensures Read(data, Aim(|data|, |data|, length, capacity), length, capacity) == Some(|data|)
    decreases |h| - length
  {
    hide Inspect, Read, Aim, Steady;
    AimStep(data, |data|, length, capacity);
    var room := Grown(length, capacity);
    assert !Reaches(room, |h|);
    var now := Min(|data|, room);
    if now < |h| {
      HeaderOf(h, data);
      NotYet(data, now);
      AimBeyondHeader(h, data, now, room);
    } else {
      assert data[..now] == data;
      HeaderAndOne(h);
    }
  }

  lemma HeaderIsNotEmpty(h: seq<byte>)
    requires IsHeader(h)
    ensures 4 <= |h|
  {
  }

  /** Two ways to deliver a header with a blank length and the body "1": with it, and after it. */
  lemma BlankLengthDepends(h: seq<byte>)
    requires IsHeader(h) && !Steady(h) && |h| < MAX_REQUEST && !Reaches(FIRST_CAPACITY, |h|)
    ensures !Independent(h)
  {
    hide IsHeader, Steady, Delivers, Read, Aim, Reaches;
    var data := h + [49];
    HeaderIsNotEmpty(h);
    assert h <= data && Sized(data, 0, FIRST_CAPACITY);
    var one, other := Aim(|h|, |data|, 0, FIRST_CAPACITY), Aim(|data|, |data|, 0, FIRST_CAPACITY);
    AimDelivers(data, |h|, 0, FIRST_CAPACITY);
    AimDelivers(data, |data|, 0, FIRST_CAPACITY);
    AimAtHeader(h, data, 0, FIRST_CAPACITY);
    AimBeyondHeader(h, data, 0, FIRST_CAPACITY);
  }

  /** A header of one blank Content-Length line. */
  const BLANK_HEADER: seq<byte> := LENGTH_HEADER + SEPARATOR

  lemma BlankHeaderBytes()
    ensures |BLANK_HEADER| == 19 && BLANK_HEADER[15..19] == SEPARATOR && BLANK_HEADER[15..17] == CRLF
    ensures forall k | 0 <= k < 15 :: BLANK_HEADER[k] == LENGTH_HEADER[k] && BLANK_HEADER[k] != 13 && BLANK_HEADER[k] != 0
  {
  }

  lemma FirstReturn(pattern: seq<byte>)
    requires pattern == CRLF || pattern == SEPARATOR
    ensures Strstr(BLANK_HEADER, 0, pattern) == Some(15)
  {
    hide Strstr;
    BlankHeaderBytes();
    ReturnAt(BLANK_HEADER, pattern, 15);
  }

  lemma ReturnAt(h: seq<byte>, pattern: seq<byte>, place: nat)
    requires |pattern| > 0 && pattern[0] == 13 && 0 !in pattern && Matches(h, place, pattern)
    requires forall k | 0 <= k < place :: h[k] != 13 && h[k] != 0
    ensures Strstr(h, 0, pattern) == Some(place)
  {
    hide Strstr;
    StrstrIsFirst(h, 0, pattern, place);
    StrstrStaysInText(h, 0, pattern);
    var i := Strstr(h, 0, pattern).value;
    assert h[i] == h[i..i + |pattern|][0];
  }

  lemma BlankHeaderHasNoValue()
    ensures LastValue(BLANK_HEADER, 0, 15, None) == Some(15)
  {
    hide Strstr;
    var h := BLANK_HEADER;
    FirstReturn(CRLF);
    BlankHeaderBytes();
    assert forall k | 0 <= k < 15 :: Lower(LENGTH_HEADER[k]) == LENGTH_HEADER[k];
    assert SameIgnoringCase(h, 0, LENGTH_HEADER);
    assert LastValue(h, 17, 15, Some(15)) == Some(15);
  }

  /** The failing input: 19 bytes, and a body of one digit. */
  lemma BlankHeaderDepends()
    ensures |BLANK_HEADER| == 19 && IsHeader(BLANK_HEADER) && !Steady(BLANK_HEADER) && !Reaches(FIRST_CAPACITY, |BLANK_HEADER|)
    ensures !Independent(BLANK_HEADER)
  {
    hide Strstr, LastValue;
    FirstReturn(SEPARATOR);
    BlankHeaderHasNoValue();
    BlankLengthDepends(BLANK_HEADER);
  }

  lemma LimitIsReached()
    ensures Reaches(FIRST_CAPACITY, MAX_REQUEST)
  {
    assert Reaches(0x80_0000, MAX_REQUEST) && Reaches(0x40_0000, MAX_REQUEST) && Reaches(0x20_0000, MAX_REQUEST);
    assert Reaches(0x10_0000, MAX_REQUEST) && Reaches(0x8_0000, MAX_REQUEST) && Reaches(0x4_0000, MAX_REQUEST);
    assert Reaches(0x2_0000, MAX_REQUEST);
  }

  lemma OutcomeIsFixed(h: seq<byte>, body: seq<byte>, one: seq<Event>, other: seq<Event>)
    requires IsHeader(h) && (Steady(h) || Reaches(FIRST_CAPACITY, |h|) || |h| > MAX_REQUEST)
    requires Delivers(h + body, one, 0, FIRST_CAPACITY) && Delivers(h + body, other, 0, FIRST_CAPACITY)
    ensures Read(h + body, one, 0, FIRST_CAPACITY) == Read(h + body, other, 0, FIRST_CAPACITY)
  {
    hide IsHeader, Steady, Delivers, Read, Reaches, EndsAt;
    var data := h + body;
    HeaderIsNotEmpty(h);
    assert h <= data && Sized(data, 0, FIRST_CAPACITY);
    if Steady(h) {
      SteadyWithBody(h, data);
      ChunksDoNotMatter(data, one);
      ChunksDoNotMatter(data, other);
    } else if |h| > MAX_REQUEST {
      HeaderOf(h, data);
      TooLong(data, |h| - 4, one, 0, FIRST_CAPACITY);
      TooLong(data, |h| - 4, other, 0, FIRST_CAPACITY);
    } else {
      StopsWhereTheBufferIsFull(h, data, one, 0, FIRST_CAPACITY);
      StopsWhereTheBufferIsFull(h, data, other, 0, FIRST_CAPACITY);
    }
  }

  /** Exactly the headers for which chunking cannot matter. */
  lemma IndependentExactly(h: seq<byte>)
    requires IsHeader(h)
    ensures Independent(h) <==> Steady(h) || Reaches(FIRST_CAPACITY, |h|) || |h| > MAX_REQUEST
  {
    if Steady(h) || Reaches(FIRST_CAPACITY, |h|) || |h| > MAX_REQUEST {
      forall body: seq<byte>, one: seq<Event>, other: seq<Event>
        | Delivers(h + body, one, 0, FIRST_CAPACITY) && Delivers(h + body, other, 0, FIRST_CAPACITY)
        ensures Read(h + body, one, 0, FIRST_CAPACITY) == Read(h + body, other, 0, FIRST_CAPACITY)
      {
        OutcomeIsFixed(h, body, one, other);
      }
    } else {
      LimitIsReached();
      BlankLengthDepends(h);
    }
  }
}
