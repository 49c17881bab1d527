/**
 The incremental reader of one HTTP request: what it decides from the bytes received so far,
 and the loop that receives into a buffer which doubles up to 16 MiB.
 */
module RequestReader {
  import opened Bytes
  import opened CStrings

  /** `FORTAI_HTTP_MAX_REQUEST`. */
  const MAX_REQUEST := 16 * 1024 * 1024

  /** The capacity of the first buffer. */
  const FIRST_CAPACITY := 65536

  const CRLF: seq<byte> := [13, 10]

  const SEPARATOR: seq<byte> := [13, 10, 13, 10]

  /** "content-length:" */
  const LENGTH_HEADER: seq<byte> := [99, 111, 110, 116, 101, 110, 116, 45, 108, 101, 110, 103, 116, 104, 58]

  // ---------------------------------------------------------------- what the bytes say

  /** Where the value of the last Content-Length line begins, among the lines from `line` to the separator. */
  function LastValue(b: seq<byte>, line: nat, separator: nat, last: Option<nat>): Option<nat>
    decreases separator - line
  {
    if line >= separator then last
    else match Strstr(b, line, CRLF)
      case None => last
      case Some(next) =>
        if next > separator || next < line then last
        else LastValue(b, next + 2, separator, if SameIgnoringCase(b, line, LENGTH_HEADER) then Some(line + 15) else last)
  }

  function ContentLength(b: seq<byte>, separator: nat): nat {
    match LastValue(b, 0, separator, None)
    case None => 0
    case Some(v) => Strtoull(b, v)
  }

  datatype Verdict = Continue | Refuse | Complete(total: nat)

  /** What the reader makes of the C string in `b` when `length` bytes have arrived. */
  function Inspect(b: seq<byte>, length: nat): Verdict {
    match Strstr(b, 0, SEPARATOR)
    case None => Continue
    case Some(separator) =>
      var total := separator + 4 + ContentLength(b, separator);
      if total > MAX_REQUEST then Refuse
      else if length >= total then Complete(total)
      else Continue
  }

  // ---------------------------------------------------------------- the whole conversation

  /** One result of `recv`: a signal, or at most `n` bytes. A stream that is used up gives none. */
  datatype Event = Interrupted | Received(n: nat)

  function Min(a: nat, b: nat): nat {
    if a < b then a else b
  }

  /** The capacity with which the next `recv` is called. */
  function Grown(length: nat, capacity: nat): (room: nat)
    ensures capacity <= MAX_REQUEST ==> capacity <= room <= MAX_REQUEST
  {
    if capacity == length then Min(2 * capacity, MAX_REQUEST) else capacity
  }

  predicate Sized(data: seq<byte>, length: nat, capacity: nat) {
    length <= |data| && length <= capacity <= MAX_REQUEST && 0 < capacity
  }

  function Arriving(data: seq<byte>, n: nat, length: nat, capacity: nat): (got: nat)
    requires Sized(data, length, capacity)
    ensures got <= n && length + got <= |data| && length + got <= capacity
  {
    Min(n, Min(capacity - length, |data| - length))
  }

  /** How many bytes of `data` the reader returns, if it accepts. */
  function Read(data: seq<byte>, events: seq<Event>, length: nat, capacity: nat): Option<nat>
    requires Sized(data, length, capacity)
    decreases |events|
  {
    if length >= MAX_REQUEST || events == [] then None
    else
      var room := Grown(length, capacity);
      match events[0]
      case Interrupted => Read(data, events[1..], length, room)
      case Received(n) =>
        var now := length + Arriving(data, n, length, room);
        if now == length then None
        else Decide(Inspect(data[..now], now), Read(data, events[1..], now, room))
  }

  function Decide(verdict: Verdict, later: Option<nat>): Option<nat> {
    match verdict
    case Continue => later
    case Refuse => None
    case Complete(total) => Some(total)
  }

  // ---------------------------------------------------------------- the header alone decides where the lines are

  /** The header of `b` ends at `separator + 4`. */
  ghost predicate EndsAt(b: seq<byte>, separator: nat) {
    Strstr(b, 0, SEPARATOR) == Some(separator)
  }

  lemma EndsAtMeans(b: seq<byte>, separator: nat)
    requires EndsAt(b, separator)
    ensures separator + 4 <= |b| && Matches(b, separator, SEPARATOR) && Matches(b, separator, CRLF)
    ensures forall k | 0 <= k < separator + 4 :: b[k] != 0
  {
    StrstrStaysInText(b, 0, SEPARATOR);
    assert b[separator..separator + 2] == b[separator..separator + 4][..2];
  }

  /** One line of the header is the same in two buffers with the same header. */
  lemma LineIsLocal(b: seq<byte>, c: seq<byte>, line: nat, separator: nat)
    requires EndsAt(b, separator) && Agree(b, c, 0, separator + 4) && line < separator
    ensures Strstr(b, line, CRLF) == Strstr(c, line, CRLF)
    ensures Strstr(b, line, CRLF).Some? && line <= Strstr(b, line, CRLF).value <= separator
    ensures SameIgnoringCase(b, line, LENGTH_HEADER) == SameIgnoringCase(c, line, LENGTH_HEADER)
    ensures SameIgnoringCase(b, line, LENGTH_HEADER) ==> line + 15 <= separator
  {
    EndsAtMeans(b, separator);
    StrstrIsFirst(b, line, CRLF, separator);
    StrstrIsLocal(b, c, line, CRLF);
    StrstrStaysInText(b, line, CRLF);
    StrstrStaysInText(c, line, CRLF);
    hide Strstr;
    var next := Strstr(b, line, CRLF).value;
    HeaderNameFits(b, line, next, separator);
    HeaderNameFits(c, line, next, separator);
  }

  /** Two buffers with the same bytes up to the end of the header have the same lines. */
  lemma {:induction false} LastValueIsLocal(b: seq<byte>, c: seq<byte>, line: nat, separator: nat, last: Option<nat>)
    requires EndsAt(b, separator) && Agree(b, c, 0, separator + 4)
    requires last.Some? ==> last.value <= separator
    ensures LastValue(b, line, separator, last) == LastValue(c, line, separator, last)
    ensures LastValue(b, line, separator, last).Some? ==> LastValue(b, line, separator, last).value <= separator
    decreases separator - line
  {
    hide Strstr, SameIgnoringCase, EndsAt, Agree;
    if line < separator {
      LineIsLocal(b, c, line, separator);
      var next := Strstr(b, line, CRLF).value;
      LastValueIsLocal(b, c, next + 2, separator, if SameIgnoringCase(b, line, LENGTH_HEADER) then Some(line + 15) else last);
    }
  }

  /** A matching header name ends before the end of its line. */
  lemma HeaderNameFits(b: seq<byte>, line: nat, next: nat, separator: nat)
    requires line <= next <= separator && separator + 4 <= |b| && Matches(b, next, CRLF)
    ensures SameIgnoringCase(b, line, LENGTH_HEADER) ==> line + 15 <= next
  {
    assert b[next] == b[next..next + 2][0] == 13;
    if next < line + 15 {
      var k := next - line;
      assert Lower(b[line + k]) != LENGTH_HEADER[k];
    }
  }

  lemma HeaderIsLocal(b: seq<byte>, c: seq<byte>, separator: nat)
    requires EndsAt(b, separator) && Agree(b, c, 0, separator + 4)
    ensures EndsAt(c, separator)
    ensures LastValue(b, 0, separator, None) == LastValue(c, 0, separator, None)
    ensures LastValue(b, 0, separator, None).Some? ==> LastValue(b, 0, separator, None).value <= separator
  {
    StrstrIsLocal(b, c, 0, SEPARATOR);
    LastValueIsLocal(b, c, 0, separator, None);
  }

  // ---------------------------------------------------------------- the buffer

  lemma NoSeparator(b: seq<byte>, length: nat)
    requires length < |b| && b[length] == 0 && Strstr(b, 0, SEPARATOR).None?
    ensures Strstr(b[..length], 0, SEPARATOR).None?
  {
    var text := b[..length];
    if Strstr(text, 0, SEPARATOR).Some? {
      EndsAtMeans(text, Strstr(text, 0, SEPARATOR).value);
      HeaderIsLocal(text, b, Strstr(text, 0, SEPARATOR).value);
    }
  }

  lemma SeparatorNeverLost(text: seq<byte>, longer: seq<byte>)
    requires text <= longer && Strstr(longer, 0, SEPARATOR).None?
    ensures Strstr(text, 0, SEPARATOR).None?
  {
    if Strstr(text, 0, SEPARATOR).Some? {
      EndsAtMeans(text, Strstr(text, 0, SEPARATOR).value);
      HeaderIsLocal(text, longer, Strstr(text, 0, SEPARATOR).value);
    }
  }

  lemma SameLength(b: seq<byte>, length: nat, separator: nat)
    requires length < |b| && b[length] == 0 && EndsAt(b, separator)
    ensures separator + 4 <= length && EndsAt(b[..length], separator)
    ensures LastValue(b, 0, separator, None) == LastValue(b[..length], 0, separator, None)
    ensures LastValue(b, 0, separator, None).Some? ==>
      Strtoull(b, LastValue(b, 0, separator, None).value) == Strtoull(b[..length], LastValue(b, 0, separator, None).value)
  {
    EndsAtMeans(b, separator);
    HeaderIsLocal(b, b[..length], separator);
    match LastValue(b, 0, separator, None)
    case None =>
    case Some(v) => StrtoullStopsAtTerminator(b, v, length);
  }

  /** The stream as `recv` delivers it. */
  class Socket {
    const data: seq<byte>
    const events: seq<Event>
    var delivered: nat
    var next: nat

    ghost predicate Valid()
      reads this
    {
      delivered <= |data| && next <= |events|
    }

    constructor (data: seq<byte>, events: seq<Event>)
      ensures Valid() && this.data == data && this.events == events && delivered == 0 && next == 0
    {
      this.data, this.events, delivered, next := data, events, 0, 0;
    }

    /** `recv(fd, buffer + at, room, 0)`: writes at most `room` bytes; none for a signal, an error or the end. */
    method Recv(buffer: array<byte>, at: nat, room: nat) returns (received: nat, interrupted: bool)
      requires Valid() && at + room <= buffer.Length
      modifies this`delivered, this`next, buffer
      ensures Valid() && delivered == old(delivered) + received && received <= room
      ensures next == if old(next) == |events| then old(next) else old(next) + 1
      ensures interrupted <==> old(next) < |events| && events[old(next)].Interrupted?
      ensures old(next) < |events| && events[old(next)].Received? ==>
        received == Min(events[old(next)].n, Min(room, |data| - old(delivered)))
      ensures old(next) == |events| || interrupted ==> received == 0
      ensures buffer[..at + received] == old(buffer[..at]) + data[old(delivered)..delivered]
    {
      received, interrupted := 0, false;
      if next == |events| { return; }
      if events[next].Interrupted? {
        interrupted := true;
      } else {
        received := Min(events[next].n, Min(room, |data| - delivered));
        forall k | 0 <= k < received {
          buffer[at + k] := data[delivered + k];
        }
        delivered := delivered + received;
        assert buffer[..at + received] == buffer[..at] + buffer[at..at + received];
      }
      next := next + 1;
    }
  }

  /** The line loop: the last Content-Length wins, and the value of an earlier pass stays if there is none. */
  method ScanLines(request: array<byte>, separator: nat, contentLength: nat) returns (r: nat)
    requires EndsAt(request[..], separator)
    ensures r == match LastValue(request[..], 0, separator, None) case None => contentLength case Some(v) => Strtoull(request[..], v)
  {
    hide Strstr, Strtoull, SameIgnoringCase;
    r := contentLength;
    var line := 0;
    ghost var last: Option<nat> := None;
    ghost var b := request[..];
    EndsAtMeans(b, separator);
    while line < separator
      invariant LastValue(b, line, separator, last) == LastValue(b, 0, separator, None)
      invariant r == match last case None => contentLength case Some(v) => Strtoull(b, v)
      decreases separator - line
    {
      LineIsLocal(b, b, line, separator);
      var next := Strstr(request[..], line, CRLF);
      if next.None? || next.value > separator { break; }
      if SameIgnoringCase(request[..], line, LENGTH_HEADER) {
        r := Strtoull(request[..], line + 15);
        last := Some(line + 15);
      }
      line := next.value + 2;
    }
  }

  /** The `content_length` with which the loop comes back after it has seen `text`. */
  function Carried(text: seq<byte>): nat {
    match Strstr(text, 0, SEPARATOR)
    case None => 0
    case Some(separator) => ContentLength(text, separator)
  }

  /** What an earlier pass left behind is never seen by a later one. */
  lemma NothingIsCarried(text: seq<byte>, longer: seq<byte>)
    requires text <= longer && Strstr(longer, 0, SEPARATOR).Some?
    requires LastValue(longer, 0, Strstr(longer, 0, SEPARATOR).value, None).None?
    ensures Carried(text) == 0
  {
    if Strstr(text, 0, SEPARATOR).Some? {
      EndsAtMeans(text, Strstr(text, 0, SEPARATOR).value);
      HeaderIsLocal(text, longer, Strstr(text, 0, SEPARATOR).value);
    }
  }

  /** One pass over what has arrived: the body of the loop after `recv`. */
  method Examine(request: array<byte>, length: nat, carried: nat, ghost before: seq<byte>)
    returns (contentLength: nat, verdict: Verdict)
    requires length < request.Length && request[length] == 0
    requires before <= request[..length] && carried == Carried(before)
    ensures contentLength == Carried(request[..length])
    ensures verdict == Inspect(request[..length], length)
  {
    contentLength := carried;
    ghost var b, text := request[..], request[..length];
    assert b[..length] == text;
    var separator := Strstr(request[..], 0, SEPARATOR);
    if separator.None? {
      NoSeparator(b, length);
      SeparatorNeverLost(before, text);
      return contentLength, Continue;
    }
    SameLength(b, length, separator.value);
    contentLength := ScanLines(request, separator.value, contentLength);
    if LastValue(b, 0, separator.value, None).None? {
      NothingIsCarried(before, text);
    }
    var headerEnd := separator.value + 4;
    if contentLength > MAX_REQUEST || headerEnd > MAX_REQUEST - contentLength {
      verdict := Refuse;
    } else if length >= headerEnd + contentLength {
      verdict := Complete(headerEnd + contentLength);
    } else {
      verdict := Continue;
    }
  }

  /** `realloc` of the request buffer. */
  method Enlarge(request: array<byte>, length: nat, size: nat) returns (grown: array<byte>)
    requires length <= request.Length <= size
    ensures fresh(grown) && grown.Length == size && grown[..length] == request[..length]
  {
    grown := new byte[size];
    forall k | 0 <= k < length {
      grown[k] := request[k];
    }
  }

  /** What one result of `recv` means for the outcome. */
  lemma Unroll(data: seq<byte>, events: seq<Event>, i: nat, length: nat, capacity: nat, received: nat, interrupted: bool)
    requires Sized(data, length, capacity) && length < MAX_REQUEST && i <= |events|
    requires interrupted <==> i < |events| && events[i].Interrupted?
    requires received == if i == |events| || interrupted then 0
      else Min(events[i].n, Min(Grown(length, capacity) - length, |data| - length))
    ensures Read(data, events[i..], length, capacity) ==
      if interrupted then Read(data, events[i + 1..], length, Grown(length, capacity))
      else if received == 0 then None
      else Decide(Inspect(data[..length + received], length + received),
        Read(data, events[i + 1..], length + received, Grown(length, capacity)))
  {
    hide Inspect, Decide;
    if i < |events| {
      assert events[i..][1..] == events[i + 1..];
    }
  }

  lemma ReadEnds(data: seq<byte>, events: seq<Event>, i: nat, length: nat, capacity: nat)
    requires Sized(data, length, capacity) && i <= |events| && (length >= MAX_REQUEST || i == |events|)
    ensures Read(data, events[i..], length, capacity) == None
  {
  }

  lemma PrefixGrows(data: seq<byte>, length: nat, received: nat)
    requires length + received <= |data|
    ensures data[..length] + data[length..length + received] == data[..length + received]
    ensures data[..length] <= data[..length + received]
  {
  }

  lemma PrefixOf(request: array<byte>, data: seq<byte>, length: nat, total: nat)
    requires total <= length <= |data| && length <= request.Length && request[..length] == data[..length]
    ensures request[..total] == data[..total]
  {
    assert request[..total] == request[..length][..total] && data[..total] == data[..length][..total];
  }

  /** Ends the C string in `request`, leaving what precedes it. */
  method Terminate(request: array<byte>, length: nat)
    requires length < request.Length
    modifies request
    ensures request[length] == 0 && request[..length] == old(request[..length])
  {
    request[length] := 0;
  }

  lemma CompleteFits(b: seq<byte>, length: nat)
    ensures Inspect(b, length).Complete? ==> Inspect(b, length).total <= length
  {
  }

  /** Makes room for at least one more byte, as long as the limit allows. */
  method Reserve(request: array<byte>, length: nat, capacity: nat) returns (larger: array<byte>, room: nat)
    requires request.Length == capacity + 1 && length <= capacity <= MAX_REQUEST && length < MAX_REQUEST && 0 < capacity
    ensures larger == request || fresh(larger)
    ensures room == Grown(length, capacity) && length < room <= MAX_REQUEST
    ensures larger.Length == room + 1 && larger[..length] == request[..length]
  {
    larger, room := request, capacity;
    if capacity == length {
      var grownCapacity: nat := capacity * 2;
      if grownCapacity > MAX_REQUEST { grownCapacity := MAX_REQUEST; }
      larger := Enlarge(request, length, grownCapacity + 1);
      room := grownCapacity;
    }
  }

  /** One `recv` into the buffer, terminated: how the outcome depends on what arrived. */
  method Receive(socket: Socket, request: array<byte>, length: nat, capacity: nat) returns (received: nat, interrupted: bool)
    requires socket.Valid() && socket.delivered == length < MAX_REQUEST && Sized(socket.data, length, capacity)
    requires request.Length == Grown(length, capacity) + 1 && request[..length] == socket.data[..length]
    modifies socket`delivered, socket`next, request
    ensures socket.Valid() && socket.delivered == length + received < request.Length
    ensures request[..length + received] == socket.data[..length + received]
    ensures received > 0 ==> request[length + received] == 0
    ensures old(socket.next) < |socket.events| ==> socket.next == old(socket.next) + 1
    ensures received > 0 || interrupted ==> old(socket.next) < |socket.events|
    ensures
      var room := Grown(length, capacity);
      Read(socket.data, old(socket.events[socket.next..]), length, capacity) ==
        if interrupted then Read(socket.data, socket.events[socket.next..], length, room)
        else if received == 0 then None
        else Decide(Inspect(socket.data[..length + received], length + received),
          Read(socket.data, socket.events[socket.next..], length + received, room))
    ensures interrupted ==> received == 0
  {
    hide Inspect, Read, Decide, Min, Grown;
    ghost var i := socket.next;
    received, interrupted := socket.Recv(request, length, Grown(length, capacity) - length);
    Unroll(socket.data, socket.events, i, length, capacity, received, interrupted);
    PrefixGrows(socket.data, length, received);
    if received > 0 {
      Terminate(request, length + received);
    }
  }

  /** Looks at what has arrived, and ends the request where it is complete. */
  method Judge(request: array<byte>, ghost data: seq<byte>, length: nat, carried: nat, ghost before: nat)
    returns (contentLength: nat, verdict: Verdict)
    requires length < request.Length && request[length] == 0 && before <= length <= |data|
    requires request[..length] == data[..length] && carried == Carried(data[..before])
    modifies request
    ensures contentLength == Carried(data[..length]) && verdict == Inspect(data[..length], length)
    ensures verdict.Continue? ==> request[..length] == data[..length]
    ensures verdict.Complete? ==> (
      && verdict.total <= length && request[..verdict.total] == data[..verdict.total] && request[verdict.total] == 0)
  {
    hide Carried;
    PrefixGrows(data, before, length - before);
    contentLength, verdict := Examine(request, length, carried, data[..before]);
    if verdict.Complete? {
      CompleteFits(data[..length], length);
      PrefixOf(request, data, length, verdict.total);
      Terminate(request, verdict.total);
    }
  }

  /** How a turn of the loop ends. */
  datatype Turned = Again | Failed | Succeeded(total: nat)

  /** What the loop has when it comes back: the bytes so far, in a buffer with room for a NUL. */
  ghost predicate Holding(socket: Socket, request: array<byte>, length: nat, capacity: nat, contentLength: nat)
    reads socket, request
  {
    && socket.Valid() && socket.delivered == length && Sized(socket.data, length, capacity)
    && request.Length == capacity + 1 && request[..length] == socket.data[..length]
    && contentLength == Carried(socket.data[..length])
  }

  /** One turn: makes room, receives and looks at what has arrived. */
  method Turn(socket: Socket, request: array<byte>, length: nat, capacity: nat, contentLength: nat)
    returns (buffer: array<byte>, arrived: nat, room: nat, announced: nat, turned: Turned)
    requires Holding(socket, request, length, capacity, contentLength) && length < MAX_REQUEST
    modifies socket`delivered, socket`next, request
    ensures buffer == request || fresh(buffer)
    ensures turned.Again? ==>
      && Holding(socket, buffer, arrived, room, announced) && old(socket.next) < socket.next <= |socket.events|
    ensures turned.Succeeded? ==>
      && turned.total < buffer.Length && turned.total <= |socket.data|
      && buffer[..turned.total] == socket.data[..turned.total] && buffer[turned.total] == 0
    ensures Read(socket.data, old(socket.events[socket.next..]), length, capacity) ==
      match turned
      case Again => if Sized(socket.data, arrived, room) && socket.next <= |socket.events|
        then Read(socket.data, socket.events[socket.next..], arrived, room) else None
      case Failed => None
      case Succeeded(total) => Some(total)
  {
    hide Inspect, Carried, Read, Grown, Min;
    arrived, announced, turned := length, contentLength, Failed;
    buffer, room := Reserve(request, length, capacity);
    var received, interrupted := Receive(socket, buffer, length, capacity);
    if interrupted {
      turned := Again;
    } else if received > 0 {
      arrived := length + received;
      var verdict;
      announced, verdict := Judge(buffer, socket.data, arrived, contentLength, length);
      match verdict {
        case Continue => turned := Again;
        case Refuse =>
        case Complete(total) => turned := Succeeded(total);
      }
    }
  }

  /** The reader returns what `Read` says, NUL terminated; every write is inside the buffer. */
  method ReadRequest(socket: Socket) returns (request: array<byte>, outcome: Option<nat>)
    requires socket.Valid() && socket.delivered == 0 && socket.next == 0
    modifies socket`delivered, socket`next
    ensures outcome == Read(socket.data, socket.events, 0, FIRST_CAPACITY)
    ensures outcome.Some? ==> (
      && outcome.value < request.Length && outcome.value <= |socket.data|
      && request[..outcome.value] == socket.data[..outcome.value] && request[outcome.value] == 0)
  {
    assert socket.data[..0] == [] && Carried([]) == 0 && socket.events[0..] == socket.events;
    hide Inspect, Carried, Read, Sized;
    var capacity: nat, length: nat, contentLength: nat := FIRST_CAPACITY, 0, 0;
    request := new byte[capacity + 1];
    StartSized(socket.data);
    while length < MAX_REQUEST
      invariant fresh(request) && Holding(socket, request, length, capacity, contentLength)
      invariant Sized(socket.data, length, capacity) && socket.next <= |socket.events|
      invariant Read(socket.data, socket.events[socket.next..], length, capacity) == Read(socket.data, socket.events, 0, FIRST_CAPACITY)
      decreases |socket.events| - socket.next
    {
      var turned;
      request, length, capacity, contentLength, turned := Turn(socket, request, length, capacity, contentLength);
      if turned.Failed? { return request, None; }
      if turned.Succeeded? { return request, Some(turned.total); }
    }
    ReadEnds(socket.data, socket.events, socket.next, length, capacity);
    outcome := None;
  }

  lemma StartSized(data: seq<byte>)
    ensures Sized(data, 0, FIRST_CAPACITY)
  {
  }
}
