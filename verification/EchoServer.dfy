/** The echo server's socket buffer: callbacks over arbitrary chunks and short writes. */
module EchoServer {
  import opened Sizing

  type Byte = bv8

  const MAX_DATA_LEN := 64

  /** es->buf: the fixed array with the window still to be sent, or the part of a message received so far. */
  datatype Sock = Sock(data: seq<Byte>, start: nat, size: nat)

  /** What a callback leaves behind, hands to the socket, and whether it counted a sent message. */
  datatype Reply = Reply(sock: Sock, out: seq<Byte>, fired: bool)

  ghost predicate InBounds(s: Sock) {
    |s.data| == MAX_DATA_LEN && s.start + s.size <= MAX_DATA_LEN
  }

  ghost predicate Holds(s: Sock, chunk: seq<Byte>) {
    |chunk| == MAX_DATA_LEN || s.size + |chunk| <= MAX_DATA_LEN
  }

  /** on_echo_socket_data, when the socket takes at most `room` bytes. */
  ghost function Receive(s: Sock, chunk: seq<Byte>, room: nat): Reply
    requires InBounds(s) && Holds(s, chunk)
  {
    if |chunk| == MAX_DATA_LEN then
      var written := Min(room, MAX_DATA_LEN);
      if written != MAX_DATA_LEN then
        Reply(Sock(chunk[written..] + s.data[MAX_DATA_LEN - written..], s.start, MAX_DATA_LEN - written),
              chunk[..written], false)
      else
        Reply(s, chunk, true)
    else
      var data := s.data[..s.size] + chunk + s.data[s.size + |chunk|..];
      var size := s.size + |chunk|;
      if size != MAX_DATA_LEN then
        Reply(Sock(data, s.start, size), [], false)
      else
        var written := Min(room, size);
        if written == size then Reply(Sock(data, 0, 0), data, true)
        else Reply(Sock(data, s.start + written, size - written), data[..written], false)
  }

  /** on_echo_socket_writable */
  ghost function Flush(s: Sock, room: nat): Reply
    requires InBounds(s)
  {
    var written := Min(room, s.size);
    var out := s.data[s.start..s.start + written];
    if written == s.size then Reply(Sock(s.data, 0, 0), out, true)
    else Reply(Sock(s.data, s.start + written, s.size - written), out, false)
  }

  /** A connection with everything that went over it. */
  datatype Conn = Conn(sock: Sock, received: seq<Byte>, sent: seq<Byte>, events: nat)

  datatype Event = Data(chunk: seq<Byte>, room: nat) | Writable(room: nat)

  ghost predicate Safe(c: Conn, e: Event) {
    InBounds(c.sock) && (e.Data? ==> Holds(c.sock, e.chunk))
  }

  ghost function Step(c: Conn, e: Event): Conn
    requires Safe(c, e)
  {
    match e
    case Data(chunk, room) => Replied(c, chunk, Receive(c.sock, chunk, room))
    case Writable(room) => Replied(c, [], Flush(c.sock, room))
  }

  ghost function Replied(c: Conn, chunk: seq<Byte>, r: Reply): Conn {
    Conn(r.sock, c.received + chunk, c.sent + r.out, c.events + (if r.fired then 1 else 0))
  }

  /** A whole message has arrived and part of it is still to go out. */
  ghost predicate Draining(c: Conn) {
    |c.received| % MAX_DATA_LEN == 0 && |c.sent| < |c.received|
  }

  /** The peer sends one message at a time, waiting for its full echo, in chunks of its choice; the loop reports
      the socket writable only while a message is draining. Stated on what went over the wire alone. */
  ghost predicate LockStep(c: Conn, e: Event) {
    match e
    case Data(chunk, _) =>
      && |c.sent| == |c.received| - |c.received| % MAX_DATA_LEN
      && |c.received| % MAX_DATA_LEN + |chunk| <= MAX_DATA_LEN
    case Writable(_) => Draining(c)
  }

  /** What an observer can ask for: the buffer in bounds, nothing lost or altered, and every full echo counted once. */
  ghost predicate EchoOk(c: Conn) {
    && InBounds(c.sock)
    && c.received == c.sent + c.sock.data[c.sock.start..c.sock.start + c.sock.size]
    && c.events == |c.sent| / MAX_DATA_LEN
  }

  /** The echo is right, and outside draining the window starts the buffer and is the message received so far. */
  ghost predicate Faithful(c: Conn) {
    && EchoOk(c)
    && (!Draining(c) ==> c.sock.start == 0 && |c.sent| % MAX_DATA_LEN == 0 && c.sock.size < MAX_DATA_LEN)
    && (Draining(c) ==> c.sock.size <= MAX_DATA_LEN)
  }

  ghost function Opened(data: seq<Byte>): Conn {
    Conn(Sock(data, 0, 0), [], [], 0)
  }

  lemma WholeKeepsFaith(c: Conn, chunk: seq<Byte>, room: nat)
    requires Faithful(c) && LockStep(c, Data(chunk, room)) && |chunk| == MAX_DATA_LEN
    ensures Faithful(Step(c, Data(chunk, room)))
  {
    assert c.sock.size == 0;
  }

  lemma PartKeepsFaith(c: Conn, chunk: seq<Byte>, room: nat)
    requires Faithful(c) && LockStep(c, Data(chunk, room)) && |chunk| < MAX_DATA_LEN
    ensures Safe(c, Data(chunk, room)) && Faithful(Step(c, Data(chunk, room)))
  {
    assert c.sock.size == |c.received| % MAX_DATA_LEN;
  }

  lemma FlushKeepsFaith(c: Conn, room: nat)
    requires Faithful(c) && Draining(c)
    ensures Faithful(Step(c, Writable(room)))
  {
    assert c.sock.size == |c.received| - |c.sent|;
  }

  lemma StepKeepsFaith(c: Conn, e: Event)
    requires Faithful(c) && LockStep(c, e)
    ensures Safe(c, e) && Faithful(Step(c, e))
  {
    hide Step;
    match e
    case Data(chunk, room) =>
      if |chunk| == MAX_DATA_LEN {
        WholeKeepsFaith(c, chunk, room);
      } else {
        PartKeepsFaith(c, chunk, room);
      }
    case Writable(room) =>
      FlushKeepsFaith(c, room);
  }

  /** Every event of the run is one the peer and the loop can cause. */
  ghost predicate Admissible(c: Conn, es: seq<Event>)
    decreases |es|
  {
    |es| == 0 || (LockStep(c, es[0]) && (Safe(c, es[0]) ==> Admissible(Step(c, es[0]), es[1..])))
  }

  /** No callback of the run copies outside the buffer. */
  ghost predicate AllSafe(c: Conn, es: seq<Event>)
    decreases |es|
  {
    |es| == 0 || (Safe(c, es[0]) && AllSafe(Step(c, es[0]), es[1..]))
  }

  ghost function After(c: Conn, es: seq<Event>): Conn
    requires AllSafe(c, es)
    decreases |es|
  {
    if |es| == 0 then c else After(Step(c, es[0]), es[1..])
  }

  /** Echo fidelity over whole runs: whatever the chunking and the short writes, what was sent is a prefix of
      what was received, the rest is the window, and once a message is out the two agree. */
  lemma {:induction false} RunIsFaithful(c: Conn, es: seq<Event>)
    requires Faithful(c) && Admissible(c, es)
    ensures AllSafe(c, es) && Faithful(After(c, es))
    ensures After(c, es).sent <= After(c, es).received
    ensures var d := After(c, es);
            |d.received| % MAX_DATA_LEN == 0 && !Draining(d) ==>
              d.sent == d.received && d.events == |d.received| / MAX_DATA_LEN
    decreases |es|
  {
    if |es| > 0 {
      StepKeepsFaith(c, es[0]);
      RunIsFaithful(Step(c, es[0]), es[1..]);
    }
  }

  lemma FreshIsFaithful(data: seq<Byte>)
    requires |data| == MAX_DATA_LEN
    ensures Faithful(Opened(data))
  {
  }

  /** So it is for every connection from its opening on, whatever its buffer held. */
  lemma ConnectionIsFaithful(data: seq<Byte>, es: seq<Event>)
    requires |data| == MAX_DATA_LEN && Admissible(Opened(data), es)
    ensures AllSafe(Opened(data), es)
    ensures var d := After(Opened(data), es);
            && EchoOk(d) && d.sent <= d.received
            && (|d.received| % MAX_DATA_LEN == 0 && !Draining(d) ==>
                  d.sent == d.received && d.events == |d.received| / MAX_DATA_LEN)
  {
    FreshIsFaithful(data);
    RunIsFaithful(Opened(data), es);
  }

  /** This chunk ends a message. */
  ghost predicate Completes(c: Conn, chunk: seq<Byte>) {
    |c.received| % MAX_DATA_LEN + |chunk| == MAX_DATA_LEN
  }

  lemma WholeSends(c: Conn, chunk: seq<Byte>, room: nat)
    requires Faithful(c) && LockStep(c, Data(chunk, room)) && |chunk| == MAX_DATA_LEN
    ensures var d := Step(c, Data(chunk, room));
            && |d.sent| == |c.sent| + Min(room, MAX_DATA_LEN)
            && d.events == c.events + (if room >= MAX_DATA_LEN then 1 else 0)
  {
  }

  lemma PartSends(c: Conn, chunk: seq<Byte>, room: nat)
    requires Faithful(c) && LockStep(c, Data(chunk, room)) && |chunk| < MAX_DATA_LEN
    ensures Safe(c, Data(chunk, room))
    ensures var d := Step(c, Data(chunk, room));
            if Completes(c, chunk)
            then && |d.sent| == |c.sent| + Min(room, MAX_DATA_LEN)
                 && d.events == c.events + (if room >= MAX_DATA_LEN then 1 else 0)
            else d.sent == c.sent && d.events == c.events
  {
    FaithfulWindow(c);
  }

  /** One data event: a chunk that ends a message sends as much of it as the socket takes, and counts it when that
      is all; any other chunk sends and counts nothing. */
  lemma DataStep(c: Conn, chunk: seq<Byte>, room: nat)
    requires Faithful(c) && LockStep(c, Data(chunk, room))
    ensures Safe(c, Data(chunk, room))
    ensures var d := Step(c, Data(chunk, room));
            && Faithful(d) && d.received == c.received + chunk
            && (!Completes(c, chunk) ==> d.sent == c.sent && d.events == c.events && !Draining(d))
            && (Completes(c, chunk) ==> |d.sent| == |c.sent| + Min(room, MAX_DATA_LEN))
            && (Completes(c, chunk) && room < MAX_DATA_LEN ==>
                  Draining(d) && d.sock.size == MAX_DATA_LEN - room && d.events == c.events)
            && (Completes(c, chunk) && room >= MAX_DATA_LEN ==>
                  !Draining(d) && d.sent == d.received && d.events == c.events + 1)
  {
    StepKeepsFaith(c, Data(chunk, room));
    var d := Step(c, Data(chunk, room));
    if |chunk| == MAX_DATA_LEN {
      WholeSends(c, chunk, room);
    } else {
      PartSends(c, chunk, room);
    }
  }

  ghost function Writables(rooms: seq<nat>): seq<Event> {
    seq(|rooms|, i requires 0 <= i < |rooms| => Writable(rooms[i]))
  }

  ghost function Sum(rooms: seq<nat>): nat {
    if |rooms| == 0 then 0 else rooms[0] + Sum(rooms[1..])
  }

  /** One writable event while draining: either less is left, or the message is out and counted. */
  lemma FlushStep(c: Conn, room: nat)
    requires Faithful(c) && Draining(c)
    ensures Safe(c, Writable(room)) && LockStep(c, Writable(room))
    ensures var d := Step(c, Writable(room));
            && Faithful(d) && d.received == c.received
            && (room < c.sock.size ==> Draining(d) && d.sock.size == c.sock.size - room && d.events == c.events)
            && (room >= c.sock.size ==> d.sent == c.received && d.events == c.events + 1)
  {
    FlushKeepsFaith(c, room);
    var d := Step(c, Writable(room));
    assert |c.received| == |c.sent| + c.sock.size;
    assert |d.sent| == |c.sent| + Min(room, c.sock.size);
    if room >= c.sock.size {
      assert d.received == d.sent + [];
    }
  }

  lemma {:induction false} RunSnoc(c: Conn, es: seq<Event>)
    requires Faithful(c) && Admissible(c, es) && |es| > 0
    ensures var front, last := es[..|es| - 1], es[|es| - 1];
            && Admissible(c, front) && AllSafe(c, front) && AllSafe(c, es)
            && Faithful(After(c, front)) && LockStep(After(c, front), last) && Safe(After(c, front), last)
            && After(c, es) == Step(After(c, front), last)
    decreases |es|
  {
    hide Step, Faithful, Safe, LockStep;
    RunIsFaithful(c, es);
    StepKeepsFaith(c, es[0]);
    var front, d := es[..|es| - 1], Step(c, es[0]);
    if |es| == 1 {
      assert After(d, es[1..]) == d;
    } else {
      RunSnoc(d, es[1..]);
      assert front[1..] == es[1..][..|es| - 2] && front[0] == es[0];
    }
  }

  /** The room that the socket has given since the last bytes came in. */
  ghost function RoomGiven(es: seq<Event>): nat {
    if |es| == 0 then 0
    else
      var before := RoomGiven(es[..|es| - 1]);
      match es[|es| - 1]
      case Data(chunk, room) => if |chunk| == 0 then before else room
      case Writable(room) => before + room
  }

  /** What is out of all that came in since there were `base` bytes: every message but the last, and of the last
      one, once it has come in whole, as much as the socket has had room for. */
  ghost predicate SentAsGiven(base: nat, d: Conn, given: nat) {
    && |d.received| >= base
    && |d.sent| == if |d.received| % MAX_DATA_LEN != 0 || |d.received| == base
                   then |d.received| - |d.received| % MAX_DATA_LEN
                   else |d.received| - MAX_DATA_LEN + Min(given, MAX_DATA_LEN)
  }

  lemma DataSends(base: nat, b: Conn, chunk: seq<Byte>, room: nat, given: nat)
    requires Faithful(b) && LockStep(b, Data(chunk, room)) && SentAsGiven(base, b, given)
    ensures Safe(b, Data(chunk, room))
    ensures SentAsGiven(base, Step(b, Data(chunk, room)), if |chunk| == 0 then given else room)
  {
    hide Step, Safe, Faithful, Draining;
    DataStep(b, chunk, room);
  }

  lemma FlushSends(base: nat, b: Conn, room: nat, given: nat)
    requires Faithful(b) && Draining(b) && SentAsGiven(base, b, given)
    ensures SentAsGiven(base, Step(b, Writable(room)), given + room)
  {
    FlushStep(b, room);
  }

  /** After any run exactly so many bytes are out. */
  lemma {:induction false} RunSends(c: Conn, es: seq<Event>)
    requires Faithful(c) && !Draining(c) && Admissible(c, es)
    ensures AllSafe(c, es) && SentAsGiven(|c.received|, After(c, es), RoomGiven(es))
    decreases |es|
  {
    if |es| == 0 {
      FaithfulWindow(c);
    } else {
      hide Step, Safe, Faithful, SentAsGiven;
      RunSnoc(c, es);
      var front, last := es[..|es| - 1], es[|es| - 1];
      RunSends(c, front);
      var b := After(c, front);
      match last
      case Data(chunk, room) => DataSends(|c.received|, b, chunk, room, RoomGiven(front));
      case Writable(room) => FlushSends(|c.received|, b, room, RoomGiven(front));
    }
  }

  /** For a connection from its opening on: with room for a message since its last bytes came in, everything is
      out and counted. */
  lemma ConnectionSends(data: seq<Byte>, es: seq<Event>)
    requires |data| == MAX_DATA_LEN && Admissible(Opened(data), es)
    ensures AllSafe(Opened(data), es)
    ensures var d := After(Opened(data), es);
            && (RoomGiven(es) >= MAX_DATA_LEN && |d.received| % MAX_DATA_LEN == 0 ==>
                  d.sent == d.received && d.events == |d.received| / MAX_DATA_LEN)
            && (Draining(d) ==> |d.sent| == |d.received| - MAX_DATA_LEN + RoomGiven(es))
            && (|d.received| % MAX_DATA_LEN != 0 ==> |d.sent| == |d.received| - |d.received| % MAX_DATA_LEN)
  {
    FreshIsFaithful(data);
    RunIsFaithful(Opened(data), es);
    RunSends(Opened(data), es);
  }

  /** Writable events take a draining message out completely as soon as their room adds up to what is left,
      counting it once, at the last of them. */
  lemma {:induction false} DrainCompletes(c: Conn, rooms: seq<nat>, last: nat)
    requires Faithful(c) && Draining(c) && Sum(rooms) < c.sock.size <= Sum(rooms) + last
    ensures Admissible(c, Writables(rooms + [last])) && AllSafe(c, Writables(rooms + [last]))
    ensures var d := After(c, Writables(rooms + [last]));
            d.received == c.received && d.sent == c.received && d.events == c.events + 1
    decreases |rooms|
  {
    hide Step, Faithful, Draining, Safe, LockStep;
    var es := Writables(rooms + [last]);
    if |rooms| == 0 {
      assert es == [Writable(last)] && es[1..] == [];
      FlushStep(c, last);
    } else {
      FlushStep(c, rooms[0]);
      assert es[0] == Writable(rooms[0]);
      assert (rooms + [last])[1..] == rooms[1..] + [last];
      assert es[1..] == Writables(rooms[1..] + [last]);
      DrainCompletes(Step(c, es[0]), rooms[1..], last);
    }
  }

  /** The peer goes on with its message at any time, and begins one when everything was echoed. */
  ghost predicate PeerMaySend(c: Conn) {
    |c.received| % MAX_DATA_LEN != 0 || c.sent == c.received
  }

  /** After this writable event, and after the next byte the peer may send, the echo is still right. */
  ghost predicate Harmless(c: Conn, room: nat)
    requires InBounds(c.sock)
  {
    var d := Step(c, Writable(room));
    && EchoOk(d)
    && (PeerMaySend(d) ==>
          forall x: Byte :: Safe(d, Data([x], 0)) && EchoOk(Step(d, Data([x], 0))))
  }

  lemma FaithfulWindow(c: Conn)
    requires Faithful(c) && !Draining(c)
    ensures c.sock.start == 0 && c.sock.size == |c.received| % MAX_DATA_LEN < MAX_DATA_LEN
    ensures |c.sent| % MAX_DATA_LEN == 0 && |c.received| == |c.sent| + c.sock.size
  {
  }

  /** With no bytes buffered, a writable event counts a message that was never sent. */
  lemma EmptyWritableMiscounts(c: Conn, room: nat)
    requires Faithful(c) && c.sock.size == 0
    ensures var d := Step(c, Writable(room));
            d == c.(events := c.events + 1) && d.events == |d.sent| / MAX_DATA_LEN + 1 && !EchoOk(d)
  {
    FaithfulWindow(c);
    assert c.sent + [] == c.sent;
  }

  /** Outside draining, a writable event with room for all the bytes buffered counts a message after part of it. */
  lemma EarlyFlushMiscounts(c: Conn, room: nat)
    requires Faithful(c) && !Draining(c) && 0 < c.sock.size <= room
    ensures var d := Step(c, Writable(room));
            && d.sent == d.received == c.received && d.sock == Sock(c.sock.data, 0, 0)
            && |d.sent| % MAX_DATA_LEN == c.sock.size && d.events == |d.sent| / MAX_DATA_LEN + 1 && !EchoOk(d)
  {
    FaithfulWindow(c);
    var d := Step(c, Writable(room));
    assert d.sent == c.received;
    assert |d.sent| / MAX_DATA_LEN == |c.sent| / MAX_DATA_LEN;
  }

  /** When the rest of that message arrives, none of it is sent: it stays in the buffer with the peer waiting. */
  lemma EarlyFlushStalls(c: Conn, room: nat, rest: seq<Byte>, more: nat)
    requires Faithful(c) && !Draining(c) && 0 < c.sock.size <= room
    requires |rest| == MAX_DATA_LEN - c.sock.size
    ensures var d := Step(c, Writable(room));
            && Safe(d, Data(rest, more))
            && var e := Step(d, Data(rest, more));
               e.sent == c.received && e.received == e.sent + rest && Draining(e)
  {
    EarlyFlushMiscounts(c, room);
  }

  /** Outside draining, a writable event that sends part of what is buffered keeps the echo right so far. */
  lemma EarlyPart(c: Conn, room: nat)
    requires Faithful(c) && !Draining(c) && 0 < room < c.sock.size
    ensures c.sock.size < MAX_DATA_LEN == |c.sock.data|
    ensures var d, was, size := Step(c, Writable(room)), c.sock.data, c.sock.size;
            && EchoOk(d) && PeerMaySend(d)
            && d == Conn(Sock(was, room, size - room), d.sent + was[room..size], d.sent, |d.sent| / MAX_DATA_LEN)
  {
    FaithfulWindow(c);
    var was, size := c.sock.data, c.sock.size;
    var d := Step(c, Writable(room));
    assert was[..size] == was[..room] + was[room..size];
    assert d.sent == c.sent + was[..room];
    assert |d.sent| / MAX_DATA_LEN == |c.sent| / MAX_DATA_LEN;
  }

  lemma NextByte(d: Conn, was: seq<Byte>, room: nat, size: nat, x: Byte)
    requires |was| == MAX_DATA_LEN && 0 < room < size < MAX_DATA_LEN
    requires d == Conn(Sock(was, room, size - room), d.sent + was[room..size], d.sent, |d.sent| / MAX_DATA_LEN)
    ensures Safe(d, Data([x], 0))
    ensures Step(d, Data([x], 0)) ==
            Conn(Sock(was[size - room := x], room, size - room + 1), d.received + [x], d.sent, d.events)
  {
    assert d.sent + [] == d.sent;
    assert was[..size - room] + [x] + was[size - room + 1..] == was[size - room := x];
  }

  /** But the next byte is then copied into the window: the echo survives it only if the stale bytes happen to
      equal it. */
  lemma EarlyPartCorrupts(c: Conn, room: nat, x: Byte)
    requires Faithful(c) && !Draining(c) && 0 < room < c.sock.size
    ensures c.sock.size < |c.sock.data|
    ensures var d := Step(c, Writable(room));
            && EchoOk(d) && PeerMaySend(d) && Safe(d, Data([x], 0))
            && var was, size := c.sock.data, c.sock.size;
               EchoOk(Step(d, Data([x], 0))) <==> x == was[size] && (room <= size - room ==> x == was[size - room])
  {
    EarlyPart(c, room);
    hide Step, Safe, Faithful, Draining;
    var was, size := c.sock.data, c.sock.size;
    var d := Step(c, Writable(room));
    NextByte(d, was, room, size, x);
    PrefixCancels(d.sent, was[room..size] + [x], was[size - room := x][room..size + 1]);
    assert d.received + [x] == d.sent + (was[room..size] + [x]);
    OverwrittenWindow(was, room, size, x);
  }

  lemma PrefixCancels(front: seq<Byte>, a: seq<Byte>, b: seq<Byte>)
    ensures front + a == front + b <==> a == b
  {
    assert (front + a)[|front|..] == a && (front + b)[|front|..] == b;
  }

  lemma OverwrittenWindow(was: seq<Byte>, room: nat, size: nat, x: Byte)
    requires 0 < room < size < |was|
    ensures was[room..size] + [x] == was[size - room := x][room..size + 1] <==>
            x == was[size] && (room <= size - room ==> x == was[size - room])
  {
    var a, b := was[room..size] + [x], was[size - room := x][room..size + 1];
    assert a[size - room] == x && b[size - room] == was[size];
    if room <= size - room {
      assert a[size - room - room] == was[size - room] && b[size - room - room] == x;
    }
  }

  lemma DrainingIsHarmless(c: Conn, room: nat)
    requires Faithful(c) && Draining(c)
    ensures Harmless(c, room)
  {
    hide Step, Safe;
    FlushStep(c, room);
    var d := Step(c, Writable(room));
    if PeerMaySend(d) {
      forall x: Byte ensures Safe(d, Data([x], 0)) && EchoOk(Step(d, Data([x], 0))) {
        StepKeepsFaith(d, Data([x], 0));
      }
    }
  }

  lemma SendingNothingIsHarmless(c: Conn)
    requires Faithful(c) && !Draining(c) && c.sock.size > 0
    ensures Harmless(c, 0)
  {
    FaithfulWindow(c);
    var d := Step(c, Writable(0));
    assert d == c by {
      assert d.sent == c.sent && d.received == c.received;
    }
    hide Step, Safe;
    forall x: Byte ensures Safe(c, Data([x], 0)) && EchoOk(Step(c, Data([x], 0))) {
      StepKeepsFaith(c, Data([x], 0));
    }
  }

  /** Exactly which writable events are harmless to the echo: those of a draining message, and those that find
      part of a message and send none of it. */
  lemma WritableHarmless(c: Conn, room: nat)
    requires Faithful(c)
    ensures Harmless(c, room) <==> Draining(c) || (c.sock.size > 0 && room == 0)
  {
    hide Step, Safe, EchoOk;
    var size := c.sock.size;
    if Draining(c) {
      DrainingIsHarmless(c, room);
    } else if size == 0 {
      EmptyWritableMiscounts(c, room);
    } else if room == 0 {
      SendingNothingIsHarmless(c);
    } else if room >= size {
      EarlyFlushMiscounts(c, room);
    } else {
      EarlyPart(c, room);
      EarlyPartCorrupts(c, room, c.sock.data[size] + 1);
    }
  }

  /** The invariant of the runs survives exactly the same events. */
  lemma WritableKeepsFaith(c: Conn, room: nat)
    requires Faithful(c)
    ensures Faithful(Step(c, Writable(room))) <==> Harmless(c, room)
  {
    var d := Step(c, Writable(room));
    WritableHarmless(c, room);
    if Draining(c) {
      StepKeepsFaith(c, Writable(room));
    } else if c.sock.size > 0 {
      FaithfulWindow(c);
      assert |d.sent| == |c.sent| + Min(room, c.sock.size) && (room == 0 ==> d.sent == c.sent);
      assert !Draining(d) || room == 0;
    }
  }

  /** The smallest such corruption: two bytes arrive, one goes out early, and the third byte then
      overwrites the second. */
  lemma EarlyWritableCorrupts(data: seq<Byte>)
    requires |data| == MAX_DATA_LEN
    ensures var es := [Data([1, 2], 0), Writable(1), Data([3], 0)];
            && AllSafe(Opened(data), es)
            && var c := After(Opened(data), es);
               && c.received == [1, 2, 3] && c.sent == [1]
               && InBounds(c.sock) && c.sock.size == 2 && c.sock.data[c.sock.start] == 3
  {
    var c0 := Opened(data);
    var c1 := Step(c0, Data([1, 2], 0));
    var c2 := Step(c1, Writable(1));
    var c3 := Step(c2, Data([3], 0));
    var es := [Data([1, 2], 0), Writable(1), Data([3], 0)];
    assert es[1..] == [Writable(1), Data([3], 0)] && es[1..][1..] == [Data([3], 0)] && es[1..][1..][1..] == [];
    assert Safe(c0, es[0]) && Safe(c1, es[1]) && Safe(c2, es[2]);
    assert AllSafe(c3, []) && AllSafe(c2, [es[2]]) && AllSafe(c1, [es[1], es[2]]);
    assert After(c3, []) == c3;
    assert After(c2, [Data([3], 0)]) == c3;
    assert After(c1, [Writable(1), Data([3], 0)]) == c3;
    assert c1.sock.data[..2] == [1, 2];
    assert c2.sock.start == 1 && c2.sock.size == 1;
    assert c3.sock.data[1] == 3;
  }

  /** The interval counters, and what the reports so far have summed up. */
  class Interval {
    var sendBytes: nat
    var recvBytes: nat
    var recvMsgs: nat
    var sendMsgs: nat
    ghost var reported: (nat, nat, nat, nat)

    /** Everything counted since the start, reported or not. */
    ghost function Lifetime(): (nat, nat, nat, nat)
      reads this
    {
      (reported.0 + sendBytes, reported.1 + recvBytes, reported.2 + recvMsgs, reported.3 + sendMsgs)
    }

    /** The four counters of the running interval. */
    ghost function Counters(): (nat, nat, nat, nat)
      reads this
    {
      (sendBytes, recvBytes, recvMsgs, sendMsgs)
    }

    constructor ()
      ensures Lifetime() == Counters() == (0, 0, 0, 0)
    {
      sendBytes, recvBytes, recvMsgs, sendMsgs := 0, 0, 0, 0;
      reported := (0, 0, 0, 0);
    }

    /** Every 65536th received chunk ends the interval; no count is lost. */
    method CountStats()
      modifies this
      ensures Lifetime() == old(Lifetime())
      ensures if old(recvMsgs) % 0x10000 == 0 && old(recvMsgs) > 0
              then Counters() == (0, 0, 0, 0)
              else unchanged(this)
    {
      if recvMsgs % 0x10000 != 0 || recvMsgs == 0 {
        return;
      }
      reported := Lifetime();
      sendBytes, recvBytes, recvMsgs, sendMsgs := 0, 0, 0, 0;
    }
  }

  /** echo_socket with the callbacks that work on its buffer in place. */
  class EchoSocket {
    const data: array<Byte>
    var startPos: nat
    var size: nat
    const stats: Interval

    ghost function State(): Sock
      reads this, data
    {
      Sock(data[..], startPos, size)
    }

    /** on_echo_socket_open */
    constructor (data: array<Byte>, stats: Interval)
      requires data.Length == MAX_DATA_LEN
      ensures State() == Opened(data[..]).sock && this.data == data && this.stats == stats && InBounds(State())
    {
      this.data, this.stats := data, stats;
      startPos, size := 0, 0;
    }

    method OnData(chunk: seq<Byte>, room: nat) returns (out: seq<Byte>)
      requires InBounds(State()) && Holds(State(), chunk)
      modifies this, data, stats
      ensures var r := Receive(old(State()), chunk, room);
              && State() == r.sock && out == r.out
              && var counted := (|out|, |chunk|, if |chunk| > 0 then 1 else 0, if r.fired then 1 else 0);
                 && stats.Lifetime() == Plus(old(stats.Lifetime()), counted)
                 && var now := Plus(old(stats.Counters()), counted);
                    stats.Counters() == if r.fired && now.2 > 0 && now.2 % 0x10000 == 0 then (0, 0, 0, 0) else now
    {
      stats.recvBytes := stats.recvBytes + |chunk|;
      if |chunk| > 0 {
        stats.recvMsgs := stats.recvMsgs + 1;
      }
      if |chunk| == MAX_DATA_LEN {
        out := EchoWhole(chunk, room);
      } else {
        out := EchoPart(chunk, room);
      }
    }

    /** A whole message in one chunk goes out directly; only what the socket refuses is buffered. */
    method EchoWhole(chunk: seq<Byte>, room: nat) returns (out: seq<Byte>)
      requires InBounds(State()) && |chunk| == MAX_DATA_LEN
      modifies this, data, stats
      ensures var r := Receive(old(State()), chunk, room);
              && State() == r.sock && out == r.out
              && stats.Lifetime() == Sent(old(stats.Lifetime()), r)
              && stats.Counters() == Rolled(Sent(old(stats.Counters()), r), r.fired)
    {
      var written := Min(room, |chunk|);
      out := chunk[..written];
      stats.sendBytes := stats.sendBytes + written;
      if written != |chunk| {
        CopyIn(0, chunk[written..]);
        size := |chunk| - written;
      } else {
        stats.sendMsgs := stats.sendMsgs + 1;
        stats.CountStats();
      }
    }

    /** A part of a message is buffered, and the message goes out when it is complete. */
    method EchoPart(chunk: seq<Byte>, room: nat) returns (out: seq<Byte>)
      requires InBounds(State()) && |chunk| != MAX_DATA_LEN && Holds(State(), chunk)
      modifies this, data, stats
      ensures var r := Receive(old(State()), chunk, room);
              && State() == r.sock && out == r.out
              && stats.Lifetime() == Sent(old(stats.Lifetime()), r)
              && stats.Counters() == Rolled(Sent(old(stats.Counters()), r), r.fired)
    {
      out := [];
      CopyIn(size, chunk);
      size := size + |chunk|;
      if size == MAX_DATA_LEN {
        var written := Min(room, size);
        out := data[..written];
        startPos := startPos + written;
        stats.sendBytes := stats.sendBytes + written;
        size := size - written;
        if size == 0 {
          stats.sendMsgs := stats.sendMsgs + 1;
          startPos := 0;
          stats.CountStats();
        }
      }
    }

    method OnWritable(room: nat) returns (out: seq<Byte>)
      requires InBounds(State())
      modifies this, stats
      ensures var r := Flush(old(State()), room);
              && State() == r.sock && out == r.out
              && var counted := (|out|, 0, 0, if r.fired then 1 else 0);
                 && stats.Lifetime() == Plus(old(stats.Lifetime()), counted)
                 && var now := Plus(old(stats.Counters()), counted);
                    stats.Counters() == if r.fired && now.2 > 0 && now.2 % 0x10000 == 0 then (0, 0, 0, 0) else now
    {
      var written := Min(room, size);
      out := data[startPos..startPos + written];
      size := size - written;
      startPos := startPos + written;
      stats.sendBytes := stats.sendBytes + written;
      if size == 0 {
        stats.sendMsgs := stats.sendMsgs + 1;
        startPos := 0;
        stats.CountStats();
      }
    }

    /** memcpy(es->buf.data + at, chunk, length) */
    method CopyIn(at: nat, chunk: seq<Byte>)
      requires at + |chunk| <= data.Length
      modifies data
      ensures data[..] == old(data[..at]) + chunk + old(data[at + |chunk|..])
    {
      for i := 0 to |chunk|
        invariant forall j :: 0 <= j < i ==> data[at + j] == chunk[j]
        invariant forall j :: 0 <= j < at || at + i <= j < data.Length ==> data[j] == old(data[j])
      {
        data[at + i] := chunk[i];
      }
    }
  }

  /** Counts of (bytes sent, bytes received, chunks received, messages sent), added up. */
  ghost function Plus(a: (nat, nat, nat, nat), b: (nat, nat, nat, nat)): (nat, nat, nat, nat) {
    (a.0 + b.0, a.1 + b.1, a.2 + b.2, a.3 + b.3)
  }

  ghost function Sent(total: (nat, nat, nat, nat), r: Reply): (nat, nat, nat, nat) {
    Plus(total, (|r.out|, 0, 0, if r.fired then 1 else 0))
  }

  /** What CountStats leaves of the counters after a message. */
  ghost function Rolled(counters: (nat, nat, nat, nat), fired: bool): (nat, nat, nat, nat) {
    if fired && counters.2 > 0 && counters.2 % 0x10000 == 0 then (0, 0, 0, 0) else counters
  }
}
