/** How the server cuts the streams of its connections into messages, and what it leaves in their buffers. */
module ServerStreams {
  import opened Machine
  import opened Wrappers
  import opened Collections
  import opened Wire
  import opened PubSub
  import opened ServerRuns

  // ----- cutting the stream into chunks -------------------------------------------------------

  /** The messages of a connection one after the other. */
  function HandleAll(s: Srv, fd: int, i: nat, msgs: seq<Msg>): (r: Srv)
    requires i < |s.slots|
    ensures |r.slots| == |s.slots|
    decreases |msgs|
  {
    if msgs == [] then s else HandleAll(HandleMsg(s, fd, i, msgs[0]), fd, i, msgs[1..])
  }

  /** No message makes the server disconnect. */
  predicate Accepted(s: Srv, fd: int, msgs: seq<Msg>)
    decreases |msgs|
  {
    msgs == [] ||
    (&& (if msgs[0].Connect? then msgs[0].id !in s.idToFd else fd in s.fdToId)
     && |s.slots| > 0
     && Accepted(HandleMsg(s, fd, 0, msgs[0]), fd, msgs[1..]))
  }

  function WithBuffer(s: Srv, fd: int, b: Bytes): Srv {
    s.(rBuffer := s.rBuffer[fd := b])
  }

  lemma {:induction false} ValidIsTolerable(stream: Bytes)
    requires ValidStream(stream)
    ensures Tolerable(stream)
    decreases |stream|
  {
    if Complete(stream) { ValidIsTolerable(Rest(stream)); }
  }

  /** A message that is accepted does not depend on the buffers nor on the slot. */
  lemma HandleWithBuffer(s: Srv, fd: int, i: nat, msg: Msg, b: Bytes)
    requires 0 < |s.slots| && i < |s.slots|
    requires if msg.Connect? then msg.id !in s.idToFd else fd in s.fdToId
    ensures HandleMsg(WithBuffer(s, fd, b), fd, i, msg) == WithBuffer(HandleMsg(s, fd, 0, msg), fd, b)
    ensures HandleMsg(s, fd, i, msg) == HandleMsg(s, fd, 0, msg)
    ensures HandleMsg(s, fd, i, msg).slots == s.slots && HandleMsg(s, fd, i, msg).rBuffer == s.rBuffer
  {
  }

  lemma WithBufferTwice(s: Srv, fd: int, b: Bytes, c: Bytes)
    ensures WithBuffer(WithBuffer(s, fd, b), fd, c) == WithBuffer(s, fd, c)
    ensures Buffered(WithBuffer(s, fd, b), fd) == b
  {
  }

  /** The parser handles the complete messages in order and keeps the rest. */
  lemma {:induction false} ParseHandlesMessages(s: Srv, fd: int, i: nat, buf: Bytes)
    requires i < |s.slots| && fd >= 0 && buf != [] && ValidStream(buf)
    requires Accepted(s, fd, Messages(buf))
    ensures Tolerable(buf) && Buffered(WithBuffer(s, fd, buf), fd) == buf
    ensures ParseTcp(WithBuffer(s, fd, buf), fd, i)
         == WithBuffer(HandleAll(s, fd, i, Messages(buf)), fd, Leftover(buf))
    decreases |buf|
  {
    ValidIsTolerable(buf);
    if Complete(buf) {
      var msg := Decode(First(buf));
      var rest := Rest(buf);
      StreamStep(buf);
      assert Messages(buf)[0] == msg && Messages(buf)[1..] == Messages(rest);
      WithBufferTwice(s, fd, buf, rest);
      HandleWithBuffer(s, fd, i, msg, rest);
      var s1 := HandleMsg(s, fd, 0, msg);
      assert buf[0] != TCP_CONNECT ==> !msg.Connect?;
      if rest == [] {
        assert Messages(rest) == [];
      } else {
        ParseHandlesMessages(s1, fd, i, rest);
      }
    }
  }

  /** Several recv calls on the connection in slot i. */
  function ReceiveChunks(s: Srv, i: nat, chunks: seq<Bytes>): Srv
    requires CanReceiveChunks(s, i, chunks)
    decreases |chunks|
  {
    if chunks == [] then s else ReceiveChunks(ReceiveChunk(s, i, chunks[0]), i, chunks[1..])
  }

  predicate CanReceiveChunks(s: Srv, i: nat, chunks: seq<Bytes>)
    decreases |chunks|
  {
    chunks == [] ||
    (Possible(s, Receive(i, chunks[0])) && CanReceiveChunks(ReceiveChunk(s, i, chunks[0]), i, chunks[1..]))
  }

  function Concat(chunks: seq<Bytes>): Bytes {
    if chunks == [] then [] else chunks[0] + Concat(chunks[1..])
  }

  lemma {:induction false} HandleAppend(s: Srv, fd: int, i: nat, a: seq<Msg>, b: seq<Msg>)
    requires i < |s.slots| && Accepted(s, fd, a + b)
    ensures Accepted(s, fd, a) && Accepted(HandleAll(s, fd, i, a), fd, b)
    ensures HandleAll(s, fd, i, a + b) == HandleAll(HandleAll(s, fd, i, a), fd, i, b)
    decreases |a|
  {
    if a == [] {
      assert a + b == b;
    } else {
      assert (a + b)[0] == a[0] && (a + b)[1..] == a[1..] + b;
      HandleWithBuffer(s, fd, i, a[0], []);
      HandleAppend(HandleMsg(s, fd, 0, a[0]), fd, i, a[1..], b);
    }
  }

  /** Whether messages are accepted and what they do is independent of the buffers. */
  lemma {:induction false} AllWithBuffer(s: Srv, fd: int, i: nat, msgs: seq<Msg>, b: Bytes)
    requires i < |s.slots| && Accepted(s, fd, msgs)
    ensures Accepted(WithBuffer(s, fd, b), fd, msgs)
    ensures HandleAll(WithBuffer(s, fd, b), fd, i, msgs) == WithBuffer(HandleAll(s, fd, i, msgs), fd, b)
    ensures HandleAll(s, fd, i, msgs).rBuffer == s.rBuffer && HandleAll(s, fd, i, msgs).slots == s.slots
    decreases |msgs|
  {
    if msgs != [] {
      HandleWithBuffer(s, fd, i, msgs[0], b);
      HandleWithBuffer(s, fd, 0, msgs[0], b);
      AllWithBuffer(HandleMsg(s, fd, 0, msgs[0]), fd, i, msgs[1..], b);
    }
  }

  /** One chunk: its complete messages are handled, and the rest of the stream stays as acceptable as it was. */
  lemma {:induction false} OneChunk(s: Srv, i: nat, chunk: Bytes, later: Bytes, first: Bytes)
    requires i < |s.slots| && s.slots[i] >= 0 && chunk != [] && first == Buffered(s, s.slots[i]) + chunk
    requires ValidStream(first + later) && Accepted(s, s.slots[i], Messages(first + later))
    ensures ValidStream(first) && Possible(s, Receive(i, chunk))
    ensures var fd := s.slots[i];
            var s2 := ReceiveChunk(s, i, chunk);
            var rest := Leftover(first) + later;
            && s2.slots == s.slots && fd in s2.rBuffer && Buffered(s2, fd) == Leftover(first)
            && ValidStream(rest) && Accepted(s2, fd, Messages(rest))
            && WithBuffer(HandleAll(s2, fd, i, Messages(rest)), fd, Leftover(rest))
               == WithBuffer(HandleAll(s, fd, i, Messages(first + later)), fd, Leftover(first + later))
  {
    var fd := s.slots[i];
    PrefixIsValid(first, later);
    MessagesAppend(first, later);
    var msgs := Messages(Leftover(first) + later);
    HandleAppend(s, fd, i, Messages(first), msgs);
    ParseHandlesMessages(s, fd, i, first);
    var s1 := HandleAll(s, fd, i, Messages(first));
    AllWithBuffer(s, fd, i, Messages(first), []);
    AllWithBuffer(s1, fd, i, msgs, Leftover(first));
    WithBufferTwice(HandleAll(s1, fd, i, msgs), fd, Leftover(first), Leftover(first + later));
  }

  /** However a stream of valid messages that causes no disconnect is cut into chunks, the server ends in the
      state that its messages lead to, with the same bytes left over. */
  lemma {:induction false} ChunkingIndependence(s: Srv, i: nat, chunks: seq<Bytes>)
    requires i < |s.slots| && s.slots[i] >= 0 && !Complete(Buffered(s, s.slots[i]))
    requires chunks == [] ==> s.slots[i] in s.rBuffer
    requires forall k | 0 <= k < |chunks| :: chunks[k] != []
    requires var stream := Buffered(s, s.slots[i]) + Concat(chunks);
             ValidStream(stream) && Accepted(s, s.slots[i], Messages(stream))
    ensures CanReceiveChunks(s, i, chunks)
    ensures var fd, stream := s.slots[i], Buffered(s, s.slots[i]) + Concat(chunks);
            ReceiveChunks(s, i, chunks) ==
            WithBuffer(HandleAll(s, fd, i, Messages(stream)), fd, Leftover(stream))
    decreases |chunks|
  {
    var fd := s.slots[i];
    var held := Buffered(s, fd);
    if chunks == [] {
      assert held + Concat(chunks) == held;
      assert s.rBuffer[fd := held] == s.rBuffer;
    } else {
      var first, later := held + chunks[0], Concat(chunks[1..]);
      assert held + Concat(chunks) == first + later;
      hide ReceiveChunk, Messages, HandleAll, Accepted, WithBuffer, ValidStream, Leftover, Possible, Complete;
      OneChunk(s, i, chunks[0], later, first);
      ChunkingIndependence(ReceiveChunk(s, i, chunks[0]), i, chunks[1..]);
    }
  }

  // ----- framing on runs -----------------------------------------------------------------------

  /** The messages of the connection with a descriptor that had an effect, in order. */
  function HandledBy(log: seq<LogEvent>, fd: int): seq<Msg> {
    if log == [] then []
    else
      var front, e := HandledBy(log[..|log| - 1], fd), log[|log| - 1];
      match e
      case Up(id, d) => if d == fd then front + [Connect(id)] else front
      case SetFlag(_, d, topic, sf) => if d == fd then front + [Subscribe(topic, sf)] else front
      case ClearFlag(_, d, topic) => if d == fd then front + [Unsubscribe(topic)] else front
      case _ => front
  }

  lemma HandledPush(log: seq<LogEvent>, e: LogEvent, fd: int)
    ensures HandledBy(log + [e], fd) == HandledBy(log, fd) + HandledBy([e], fd)
    ensures !e.Up? && !e.SetFlag? && !e.ClearFlag? ==> HandledBy(log + [e], fd) == HandledBy(log, fd)
    ensures (e.Up? || e.SetFlag? || e.ClearFlag?) && e.fd != fd ==> HandledBy(log + [e], fd) == HandledBy(log, fd)
    ensures e.Up? && e.fd == fd ==> HandledBy(log + [e], fd) == HandledBy(log, fd) + [Connect(e.id)]
    ensures e.SetFlag? && e.fd == fd ==> HandledBy(log + [e], fd) == HandledBy(log, fd) + [Subscribe(e.topic, e.sf)]
    ensures e.ClearFlag? && e.fd == fd ==> HandledBy(log + [e], fd) == HandledBy(log, fd) + [Unsubscribe(e.topic)]
  {
    var all := log + [e];
    assert all[..|all| - 1] == log;
    assert [e][..0] == [];
  }

  /** Nothing that concerns the connection changes. */
  predicate SameConnection(s: Srv, s': Srv, fd: int) {
    Buffered(s', fd) == Buffered(s, fd) && HandledBy(s'.log, fd) == HandledBy(s.log, fd)
  }

  lemma DisconnectSame(s: Srv, i: nat, deleteId: bool, fd: int)
    requires i < |s.slots| && fd >= 0
    ensures SameConnection(s, Disconnect(s, i, deleteId), fd)
  {
    if deleteId { HandledPush(s.log, Down(Get(s.fdToId, s.slots[i], [])), fd); }
  }

  /** A message leaves the other connections alone. On its own one it is noted, unless it closes it. */
  lemma HandleNotes(s: Srv, fd: int, i: nat, msg: Msg, other: int)
    requires i < |s.slots| && fd >= 0 && other >= 0 && (msg.Connect? || fd in s.fdToId)
    ensures var s' := HandleMsg(s, fd, i, msg);
            && Buffered(s', other) == Buffered(s, other)
            && (other != fd ==> HandledBy(s'.log, other) == HandledBy(s.log, other))
            && (!(msg.Connect? && msg.id in s.idToFd) ==> HandledBy(s'.log, fd) == HandledBy(s.log, fd) + [msg])
  {
    hide WithSubscribers, SubscribersOf, HandledBy;
    match msg
    case Connect(id) =>
      if id in s.idToFd {
        DisconnectSame(s, i, false, other);
      } else {
        HandledPush(s.log, Up(id, fd), other);
        HandledPush(s.log, Up(id, fd), fd);
      }
    case Subscribe(topic, sf) =>
      HandledPush(s.log, SetFlag(s.fdToId[fd], fd, topic, sf), other);
      HandledPush(s.log, SetFlag(s.fdToId[fd], fd, topic, sf), fd);
    case Unsubscribe(topic) =>
      HandledPush(s.log, ClearFlag(s.fdToId[fd], fd, topic), other);
      HandledPush(s.log, ClearFlag(s.fdToId[fd], fd, topic), fd);
  }

  lemma {:induction false} ParseLeavesOthers(s: Srv, fd: int, i: nat, other: int)
    requires i < |s.slots| && fd >= 0 && other >= 0 && other != fd
    requires Buffered(s, fd) != [] && Tolerable(Buffered(s, fd))
    ensures SameConnection(s, ParseTcp(s, fd, i), other)
    decreases |Buffered(s, fd)|
  {
    var buf := Buffered(s, fd);
    hide HandledBy, WithSubscribers, SubscribersOf;
    if SizeOf(buf[0]).None? {
      var s0 := s.(rBuffer := s.rBuffer[fd := buf[1..]]);
      DisconnectSame(s0, i, fd in s.fdToId, other);
      if buf[1..] != [] { ParseLeavesOthers(Disconnect(s0, i, fd in s.fdToId), fd, i, other); }
    } else if Complete(buf) {
      if buf[0] != TCP_CONNECT && fd !in s.fdToId {
        DisconnectSame(s.(rBuffer := s.rBuffer[fd := buf[1..]]), i, false, other);
      } else {
        var s0 := s.(rBuffer := s.rBuffer[fd := Rest(buf)]);
        var msg := Decode(First(buf));
        HandleNotes(s0, fd, i, msg, other);
        if Rest(buf) != [] { ParseLeavesOthers(HandleMsg(s0, fd, i, msg), fd, i, other); }
      }
    }
  }

  /** A connection that the parser leaves open had all its complete messages handled, and keeps the rest. */
  lemma {:induction false} ParseFrames(s: Srv, fd: int, i: nat)
    requires i < |s.slots| && fd >= 0 && s.slots[i] == fd
    requires Buffered(s, fd) != [] && Tolerable(Buffered(s, fd))
    ensures |ParseTcp(s, fd, i).slots| == |s.slots|
    ensures var s', buf := ParseTcp(s, fd, i), Buffered(s, fd);
            s'.slots[i] == fd ==>
              && ValidStream(buf) && Buffered(s', fd) == Leftover(buf)
              && HandledBy(s'.log, fd) == HandledBy(s.log, fd) + Messages(buf)
    decreases |Buffered(s, fd)|
  {
    var buf := Buffered(s, fd);
    hide HandledBy;
    ParseSlots(s, fd, i);
    if SizeOf(buf[0]).None? {
      var s1 := Disconnect(s.(rBuffer := s.rBuffer[fd := buf[1..]]), i, fd in s.fdToId);
      if buf[1..] != [] { ParseSlots(s1, fd, i); }
    } else if Complete(buf) && (buf[0] == TCP_CONNECT || fd in s.fdToId) {
      var s0 := s.(rBuffer := s.rBuffer[fd := Rest(buf)]);
      var msg := Decode(First(buf));
      HandleSlot(s0, fd, i, msg);
      HandleNotes(s0, fd, i, msg, fd);
      hide HandleMsg, WellFormed, Decode;
      var s1 := HandleMsg(s0, fd, i, msg);
      if s1.slots[i] == fd {
        if Rest(buf) != [] {
          ParseFrames(s1, fd, i);
          if ParseTcp(s1, fd, i).slots[i] == fd { FrameStep(s.log, fd, buf, Messages(Rest(buf))); }
        } else {
          FrameStep(s.log, fd, buf, []);
        }
      } else if Rest(buf) != [] {
        ParseSlots(s1, fd, i);
      }
    }
  }

  lemma FrameStep(log: seq<LogEvent>, fd: int, buf: Bytes, msgs: seq<Msg>)
    requires Complete(buf) && WellFormed(First(buf)) && ValidStream(Rest(buf)) && msgs == Messages(Rest(buf))
    ensures ValidStream(buf) && Leftover(buf) == Leftover(Rest(buf))
    ensures (HandledBy(log, fd) + [Decode(First(buf))]) + msgs == HandledBy(log, fd) + Messages(buf)
  {
    StreamStep(buf);
    Collections.Associate(HandledBy(log, fd), [Decode(First(buf))], msgs);
  }

  /** The bytes from position k on are what the parser can stop at: nothing, the beginning of a message, or all but the
      type of a message other than TCP_CONNECT, which came before an identifier. */
  predicate StopsAt(buf: Bytes, k: nat, named: bool)
    requires k <= |buf|
  {
    || k == |buf|
    || (SizeOf(buf[k]).Some? && !Complete(buf[k..]))
    || (k > 0 && SizeOf(buf[k - 1]).Some? && buf[k - 1] != TCP_CONNECT && Complete(buf[k - 1..]) && !named)
  }

  lemma StopsLater(buf: Bytes, n: nat, k: nat, named: bool)
    requires n + k <= |buf| && StopsAt(buf[n..], k, named)
    ensures StopsAt(buf, n + k, named)
  {
    assert buf[n..][k..] == buf[n + k..];
    if k > 0 { assert buf[n..][k - 1..] == buf[n + k - 1..]; }
  }

  lemma StopsHere(buf: Bytes, k: nat, named: bool)
    requires buf != [] && k <= |buf|
    requires || k == |buf|
             || (k == 0 && SizeOf(buf[0]).Some? && !Complete(buf))
             || (k == 1 && SizeOf(buf[0]).Some? && buf[0] != TCP_CONNECT && Complete(buf) && !named)
    ensures StopsAt(buf, k, named)
  {
    assert buf[0..] == buf;
  }

  /** What the parser leaves in the buffer is an end of it, at a place where it can stop. */
  lemma {:induction false} ParseLeaves(s: Srv, fd: int, i: nat) returns (k: nat)
    requires i < |s.slots| && fd >= 0 && Buffered(s, fd) != [] && Tolerable(Buffered(s, fd))
    ensures var s', buf := ParseTcp(s, fd, i), Buffered(s, fd);
            k <= |buf| && Buffered(s', fd) == buf[k..] && StopsAt(buf, k, fd in s'.fdToId)
    decreases |Buffered(s, fd)|
  {
    var buf := Buffered(s, fd);
    hide WithSubscribers, SubscribersOf, HandledBy, StopsAt;
    if SizeOf(buf[0]).None? {
      var s1 := Disconnect(s.(rBuffer := s.rBuffer[fd := buf[1..]]), i, fd in s.fdToId);
      k := 1;
      if buf[1..] == [] {
        StopsHere(buf, 1, fd in s1.fdToId);
      } else {
        var m := ParseLeaves(s1, fd, i);
        k := 1 + m;
        StopsLater(buf, 1, m, fd in ParseTcp(s, fd, i).fdToId);
        assert buf[1..][m..] == buf[k..];
      }
    } else if !Complete(buf) {
      k := 0;
      StopsHere(buf, 0, fd in s.fdToId);
    } else if buf[0] != TCP_CONNECT && fd !in s.fdToId {
      k := 1;
      StopsHere(buf, 1, false);
    } else {
      var s0 := s.(rBuffer := s.rBuffer[fd := Rest(buf)]);
      var msg := Decode(First(buf));
      HandleNotes(s0, fd, i, msg, fd);
      hide HandleMsg, Decode, WellFormed;
      var n := SizeOf(buf[0]).value;
      k := n;
      if Rest(buf) == [] {
        StopsHere(buf, n, fd in HandleMsg(s0, fd, i, msg).fdToId);
      } else {
        var m := ParseLeaves(HandleMsg(s0, fd, i, msg), fd, i);
        k := n + m;
        StopsLater(buf, n, m, fd in ParseTcp(s, fd, i).fdToId);
        assert buf[n..][m..] == buf[k..];
      }
    }
  }

  /** The bytes that a run brings to slot i. */
  function ReceivedBy(inputs: seq<Input>, i: nat): Bytes {
    if inputs == [] then []
    else (if inputs[0].Receive? && inputs[0].i == i then inputs[0].chunk else []) + ReceivedBy(inputs[1..], i)
  }

  /** An input that brings no bytes to an open connection, and does not open one with the same descriptor, leaves its
      buffer and its history alone. */
  lemma OthersLeaveAlone(s: Srv, input: Input, fd: int)
    requires Slots(s) && Offered(s, input) && fd >= 0
    requires input.Receive? && input.chunk != [] ==> s.slots[input.i] != fd
    ensures SameConnection(s, Next(s, input), fd)
  {
    StepKeepsSlots(s, input);
    hide HandledBy, Slots, ParseTcp, PushAll;
    match input
    case Accept(d) =>
    case Receive(j, chunk) =>
      if chunk != [] {
        var d := s.slots[j];
        ParseLeavesOthers(s.(rBuffer := s.rBuffer[d := Buffered(s, d) + chunk]), d, j, fd);
      }
    case HangUp(j) => DisconnectSame(s.(empties := s.empties + [j]), j, s.slots[j] in s.fdToId, fd);
    case Datagram(w) => HandledPush(s.log, Published(TopicOf(w), w), fd);
    case Writable(j) =>
      var s' := SendOne(s, j);
      if s' != s {
        var id := s.fdToId[s.slots[j]];
        HandledPush(s.log, Delivered(id, s.slots[j], Queued(s, id)[0]), fd);
      }
  }

  lemma ChunkFrames(s: Srv, i: nat, chunk: Bytes)
    requires Slots(s) && Offered(s, Receive(i, chunk)) && chunk != []
    requires i < |Next(s, Receive(i, chunk)).slots| && Next(s, Receive(i, chunk)).slots[i] == s.slots[i]
    ensures var s', fd, buf := Next(s, Receive(i, chunk)), s.slots[i], Buffered(s, s.slots[i]) + chunk;
            && ValidStream(buf) && Buffered(s', fd) == Leftover(buf)
            && HandledBy(s'.log, fd) == HandledBy(s.log, fd) + Messages(buf)
  {
    hide Slots;
    var fd := s.slots[i];
    ParseFrames(s.(rBuffer := s.rBuffer[fd := Buffered(s, fd) + chunk]), fd, i);
  }

  /** A descriptor that is not open stays so until it is accepted again, and its buffer waits. */
  lemma {:induction false} BufferWaits(s: Srv, inputs: seq<Input>, fd: int)
    requires Slots(s) && AllOffered(s, inputs) && fd >= 0 && fd !in s.slots && Accept(fd) !in inputs
    ensures fd !in Run(s, inputs).slots && SameConnection(s, Run(s, inputs), fd)
    decreases |inputs|
  {
    if inputs != [] {
      StaysClosed(s, inputs[0], fd);
      hide Slots, Offered, Next, SameConnection, HandledBy;
      BufferWaits(Next(s, inputs[0]), inputs[1..], fd);
      SameTwice(s, Next(s, inputs[0]), Run(s, inputs), fd);
    }
  }

  lemma SameTwice(s: Srv, s1: Srv, s2: Srv, fd: int)
    requires SameConnection(s, s1, fd) && SameConnection(s1, s2, fd)
    ensures SameConnection(s, s2, fd)
  {
  }

  lemma StaysClosed(s: Srv, input: Input, fd: int)
    requires Slots(s) && Offered(s, input) && fd >= 0 && fd !in s.slots && input != Accept(fd)
    ensures fd !in Next(s, input).slots && SameConnection(s, Next(s, input), fd)
  {
    OthersLeaveAlone(s, input, fd);
    NewSlots(s, input);
  }

  /** A descriptor in a slot was there before or has just been accepted. */
  lemma NewSlots(s: Srv, input: Input)
    requires Slots(s) && Offered(s, input)
    ensures forall fd | fd in Next(s, input).slots && fd >= 0 :: fd in s.slots || input == Accept(fd)
  {
    StepKeepsSlots(s, input);
    match input
    case Accept(fd) =>
    case Receive(i, chunk) =>
      if chunk != [] {
        var d := s.slots[i];
        ParseSlots(s.(rBuffer := s.rBuffer[d := Buffered(s, d) + chunk]), d, i);
      }
    case HangUp(i) =>
    case Datagram(w) =>
    case Writable(i) =>
  }

  /** An open connection that is not open after a step is open nowhere. */
  lemma OpenOrGone(s: Srv, input: Input, i: nat)
    requires Slots(s) && Offered(s, input) && i < |s.slots| && s.slots[i] >= 0 && input != Accept(s.slots[i])
    ensures i < |Next(s, input).slots|
    ensures Next(s, input).slots[i] == s.slots[i] || s.slots[i] !in Next(s, input).slots
  {
    StepKeepsSlots(s, input);
    var s', fd := Next(s, input), s.slots[i];
    if s'.slots[i] != fd && fd in s'.slots {
      var j :| 0 <= j < |s'.slots| && s'.slots[j] == fd;
      NewSlotAt(s, input, j);
    }
  }

  lemma NewSlotAt(s: Srv, input: Input, j: nat)
    requires Slots(s) && Offered(s, input) && j < |Next(s, input).slots| && Next(s, input).slots[j] >= 0
    requires !input.Accept? || Next(s, input).slots[j] != input.fd
    ensures j < |s.slots| && s.slots[j] == Next(s, input).slots[j]
  {
    match input
    case Accept(fd) => AddConSlots(s, fd, if s.empties != [] then s.empties[0] else |s.slots|);
    case Receive(i, chunk) =>
      if chunk != [] {
        var d := s.slots[i];
        ParseSlots(s.(rBuffer := s.rBuffer[d := Buffered(s, d) + chunk]), d, i);
      }
    case HangUp(i) =>
    case Datagram(w) =>
    case Writable(i) =>
  }

  /** What a connection's stream comes to: nothing if no bytes came, otherwise its messages are handled and the rest
      is kept. */
  predicate Framed(s: Srv, s': Srv, fd: int, received: Bytes) {
    if received == [] then SameConnection(s, s', fd)
    else
      var stream := Buffered(s, fd) + received;
      && ValidStream(stream) && Buffered(s', fd) == Leftover(stream)
      && HandledBy(s'.log, fd) == HandledBy(s.log, fd) + Messages(stream)
  }

  lemma FramedTwice(s: Srv, s1: Srv, s2: Srv, fd: int, a: Bytes, b: Bytes)
    requires Framed(s, s1, fd, a) && Framed(s1, s2, fd, b)
    ensures Framed(s, s2, fd, a + b)
  {
    hide ValidStream, Messages, Leftover, HandledBy;
    if a == [] {
      assert a + b == b;
    } else if b == [] {
      assert a + b == a;
    } else {
      StreamTwice(HandledBy(s.log, fd), Buffered(s, fd), a, b);
    }
  }

  lemma StreamTwice(handled: seq<Msg>, held: Bytes, a: Bytes, b: Bytes)
    requires ValidStream(held + a) && ValidStream(Leftover(held + a) + b)
    ensures ValidStream(held + (a + b)) && Leftover(held + (a + b)) == Leftover(Leftover(held + a) + b)
    ensures (handled + Messages(held + a)) + Messages(Leftover(held + a) + b) == handled + Messages(held + (a + b))
  {
    var first := held + a;
    assert held + (a + b) == first + b;
    ValidAppend(first, b);
    MessagesAppend(first, b);
    hide ValidStream, Messages, Leftover;
    Collections.Associate(handled, Messages(first), Messages(Leftover(first) + b));
  }

  /** However the bytes of a connection are cut, and whatever happens to the other connections in between: while it
      stays open, the messages handled are those of all bytes received, in order, and the incomplete rest waits. */
  lemma {:induction false} FramingOnRuns(s: Srv, inputs: seq<Input>, i: nat)
    requires Slots(s) && AllOffered(s, inputs) && 2 <= i < |s.slots| && s.slots[i] >= 0
    requires Accept(s.slots[i]) !in inputs && s.slots[i] in Run(s, inputs).slots
    ensures i < |Run(s, inputs).slots| && Run(s, inputs).slots[i] == s.slots[i]
    ensures Framed(s, Run(s, inputs), s.slots[i], ReceivedBy(inputs, i))
    decreases |inputs|
  {
    hide Slots, Next, Framed, Offered;
    var fd := s.slots[i];
    if inputs == [] {
      FramedNow(s, fd);
    } else {
      var s1 := Next(s, inputs[0]);
      OpenOrGone(s, inputs[0], i);
      if fd !in s1.slots { BufferWaits(s1, inputs[1..], fd); }
      FramingOnRuns(s1, inputs[1..], i);
      FramedStep(s, inputs[0], i);
      OneInput(inputs, i);
      FramedTwice(s, s1, Run(s, inputs), fd, ReceivedBy(inputs[..1], i), ReceivedBy(inputs[1..], i));
    }
  }

  lemma OneInput(inputs: seq<Input>, i: nat)
    requires inputs != []
    ensures ReceivedBy(inputs, i) == ReceivedBy(inputs[..1], i) + ReceivedBy(inputs[1..], i)
    ensures inputs[..1] == [inputs[0]]
  {
    assert inputs[..1][1..] == [];
  }

  lemma FramedNow(s: Srv, fd: int)
    ensures Framed(s, s, fd, [])
  {
  }

  lemma FramedStep(s: Srv, input: Input, i: nat)
    requires Slots(s) && Offered(s, input) && 2 <= i < |s.slots| && s.slots[i] >= 0
    requires i < |Next(s, input).slots| && Next(s, input).slots[i] == s.slots[i]
    ensures Framed(s, Next(s, input), s.slots[i], ReceivedBy([input], i))
  {
    assert [input][1..] == [];
    assert ReceivedBy([input], i) == if input.Receive? && input.i == i then input.chunk else [];
    if input.Receive? && input.i == i && input.chunk != [] {
      ChunkFrames(s, i, input.chunk);
    } else {
      OthersLeaveAlone(s, input, s.slots[i]);
    }
  }

  // ----- the buffer of a closed connection -------------------------------------------------------

  /** `disconnect` is meant to clear the buffer of the connection it closes. It does so only when there is
      nothing to clear. */
  lemma DisconnectClearsExactly(s: Srv, i: nat, deleteId: bool)
    requires i < |s.slots| && s.slots[i] >= 0
    ensures Buffered(Disconnect(s, i, deleteId), s.slots[i]) == [] <==> Buffered(s, s.slots[i]) == []
    ensures Buffered(Disconnect(s, i, deleteId), -1) == []
  {
  }

  /** So the next connection with the same descriptor, however much later, starts with what the closed one left: after
      a hang-up with the incomplete end of its stream, and with nothing exactly when it stopped between messages. */
  lemma NextStartsWith(s: Srv, i: nat, inputs: seq<Input>, later: seq<Input>)
    requires Slots(s) && 2 <= i < |s.slots| && s.slots[i] >= 0
    requires AllOffered(s, inputs) && Accept(s.slots[i]) !in inputs && s.slots[i] in Run(s, inputs).slots
    requires Offered(Run(s, inputs), HangUp(i)) && AllOffered(Next(Run(s, inputs), HangUp(i)), later)
    requires Accept(s.slots[i]) !in later
    ensures var fd, received := s.slots[i], ReceivedBy(inputs, i);
            var end := Run(Next(Run(s, inputs), HangUp(i)), later);
            && Offered(end, Accept(fd))
            && (received == [] ==> Buffered(Next(end, Accept(fd)), fd) == Buffered(s, fd))
            && (received != [] ==>
                  && ValidStream(Buffered(s, fd) + received)
                  && Buffered(Next(end, Accept(fd)), fd) == Leftover(Buffered(s, fd) + received))
  {
    var fd := s.slots[i];
    FramingOnRuns(s, inputs, i);
    var s1 := Run(s, inputs);
    var s2 := Next(s1, HangUp(i));
    OpenOrGone(s1, HangUp(i), i);
    assert s2.slots[i] == -1;
    OthersLeaveAlone(s1, HangUp(i), fd);
    BufferWaits(s2, later, fd);
    var end := Run(s2, later);
    OthersLeaveAlone(end, Accept(fd), fd);
  }

  // ----- runs that show the exceptions ---------------------------------------------------------

  /** The tcp_con_msg of the identifier "a". */
  const HELLO: Bytes := [TCP_CONNECT, 97, 0, 0, 0, 0, 0, 0, 0, 0, 0, 0]

  lemma HelloStream()
    ensures LegalStream(false, HELLO) && Tolerable(HELLO) && Complete(HELLO) && Decode(First(HELLO)) == Connect([97])
    ensures Rest(HELLO) == []
  {
    assert First(HELLO) == HELLO && Rest(HELLO) == [];
    assert HELLO[1..CON_SIZE] == [97, 0, 0, 0, 0, 0, 0, 0, 0, 0, 0];
    assert HELLO[1..CON_SIZE][1..] == [0, 0, 0, 0, 0, 0, 0, 0, 0, 0];
    assert CString(HELLO[1..CON_SIZE]) == [97] + CString(HELLO[1..CON_SIZE][1..]);
    assert [97] + [] == [97];
    LegalIsTolerable(false, HELLO);
  }

  /** A run seen from its first input. */
  lemma RunStep(s: Srv, inputs: seq<Input>)
    requires Slots(s) && inputs != [] && Offered(s, inputs[0]) && AllOffered(Next(s, inputs[0]), inputs[1..])
    ensures AllOffered(s, inputs) && Run(s, inputs) == Run(Next(s, inputs[0]), inputs[1..])
    ensures AllClean(s, inputs) <==> CleanInput(s, inputs[0]) && AllClean(Next(s, inputs[0]), inputs[1..])
  {
    hide Slots, Offered, Next, CleanInput;
  }

  /** A run of four inputs. */
  lemma RunOfFour(s: Srv, a: Input, b: Input, c: Input, d: Input)
    requires Slots(s) && Offered(s, a) && Offered(Next(s, a), b) && Offered(Next(Next(s, a), b), c)
    requires Offered(Next(Next(Next(s, a), b), c), d)
    ensures AllOffered(s, [a, b, c, d])
    ensures Run(s, [a, b, c, d]) == Next(Next(Next(Next(s, a), b), c), d)
    ensures AllClean(s, [a, b, c, d]) <==>
            && CleanInput(s, a) && CleanInput(Next(s, a), b) && CleanInput(Next(Next(s, a), b), c)
            && CleanInput(Next(Next(Next(s, a), b), c), d)
  {
    hide Slots, Offered, Next, CleanInput;
    var s3 := Next(Next(Next(s, a), b), c);
    assert AllOffered(Next(s3, d), []) && AllClean(Next(s3, d), []);
    assert [d][1..] == [] && [c, d][1..] == [d] && [b, c, d][1..] == [c, d] && [a, b, c, d][1..] == [b, c, d];
    RunStep(s3, [d]);
    RunStep(Next(Next(s, a), b), [c, d]);
    RunStep(Next(s, a), [b, c, d]);
    RunStep(s, [a, b, c, d]);
  }

  /** Half a message of a closed connection is still there for the next connection with its number. The parser puts it
      in front of what the second subscriber sends, a plain identification, and closes its connection. */
  lemma StaleBytes()
    ensures var inputs := [Accept(5), Receive(2, [TCP_CONNECT]), HangUp(2), Accept(5)];
            && LegalStream(false, [TCP_CONNECT]) && LegalStream(false, HELLO)
            && AllOffered(Start(3, 4), inputs) && AllClean(Start(3, 4), inputs)
            && var s := Run(Start(3, 4), inputs);
               && Buffered(s, 5) == [TCP_CONNECT] && s.slots == [3, 4, 5]
               && Offered(s, Receive(2, HELLO)) && Leaked(Next(s, Receive(2, HELLO)), 2)
  {
    hide *;
    OpenedFive();
    HalfMessage();
    HelloStream();
    HangUpAndAccept();
    StaleEnd();
    RunOfFour(Start(3, 4), Accept(5), Receive(2, [TCP_CONNECT]), HangUp(2), Accept(5));
  }

  /** Slots that are all open. */
  lemma OpenSlots(s: Srv)
    requires 2 <= |s.slots| <= s.currentSize && s.empties == [] && forall i | 0 <= i < |s.slots| :: s.slots[i] == i + 3
    ensures Slots(s)
  {
  }

  lemma AcceptAtEnd(s: Srv, fd: int)
    requires Slots(s) && fd >= 0 && fd !in s.slots && s.empties == [] && |s.slots| < s.currentSize
    ensures Offered(s, Accept(fd)) && CleanInput(s, Accept(fd))
    ensures Next(s, Accept(fd)) == s.(slots := s.slots + [fd])
  {
    hide Slots;
  }

  /** The first connection, with descriptor 5 in slot 2. */
  function Opened(): Srv { Start(3, 4).(slots := [3, 4, 5]) }

  lemma OpenedFive()
    ensures Slots(Start(3, 4)) && Slots(Opened())
    ensures Offered(Start(3, 4), Accept(5)) && CleanInput(Start(3, 4), Accept(5))
    ensures Next(Start(3, 4), Accept(5)) == Opened()
  {
    OpenSlots(Start(3, 4));
    OpenSlots(Opened());
    hide Slots;
    AcceptAtEnd(Start(3, 4), 5);
    assert [3, 4] + [5] == [3, 4, 5];
  }

  function HalfSent(): Srv { Opened().(rBuffer := map[5 := [TCP_CONNECT]]) }

  lemma HalfMessage()
    ensures Slots(Opened())
    ensures Offered(Opened(), Receive(2, [TCP_CONNECT])) && CleanInput(Opened(), Receive(2, [TCP_CONNECT]))
    ensures Next(Opened(), Receive(2, [TCP_CONNECT])) == HalfSent()
    ensures LegalStream(false, [TCP_CONNECT])
  {
    OpenSlots(Opened());
    hide Slots;
    assert !Complete([TCP_CONNECT]);
    FirstBytes(Opened(), 2, [TCP_CONNECT]);
    assert [] + [TCP_CONNECT] == [TCP_CONNECT];
  }

  function Reopened(): Srv { Opened().(rBuffer := map[5 := [TCP_CONNECT], -1 := []]) }

  lemma HangUpAndAccept()
    ensures Slots(HalfSent()) && Offered(HalfSent(), HangUp(2)) && CleanInput(HalfSent(), HangUp(2))
    ensures var s' := Next(HalfSent(), HangUp(2));
            Offered(s', Accept(5)) && CleanInput(s', Accept(5)) && Next(s', Accept(5)) == Reopened()
  {
    OpenSlots(HalfSent());
    var s' := Next(HalfSent(), HangUp(2));
    hide Slots;
    assert s' == HalfSent().(slots := [3, 4, -1], empties := [2], rBuffer := map[5 := [TCP_CONNECT], -1 := []]);
    assert Next(s', Accept(5)).slots == [3, 4, 5];
  }

  lemma StaleEnd()
    ensures Slots(Reopened()) && Buffered(Reopened(), 5) == [TCP_CONNECT] && Reopened().slots == [3, 4, 5]
    ensures Offered(Reopened(), Receive(2, HELLO)) && Leaked(Next(Reopened(), Receive(2, HELLO)), 2)
  {
    OpenSlots(Reopened());
    StaleHello();
    assert Reopened().idToFd.Keys == {};
    hide Slots, Next, Closes, Tolerable;
    StepLeaksExactly(Reopened(), Receive(2, HELLO), 2);
  }

  lemma StaleHello()
    ensures var stream := [TCP_CONNECT] + HELLO;
            Tolerable(stream) && Closes({}, false, stream)
  {
    var stream := [TCP_CONNECT] + HELLO;
    assert First(stream)[1..CON_SIZE][2] == 0;
    assert Rest(stream) == [0];
    assert SizeOf(0).None?;
    assert [0][1..] == [];
    assert Tolerable([0]);
    assert Closes({} + {Decode(First(stream)).id}, true, [0]);
  }

  /** A slot leaks: the second connection identifies itself as the first one did. */
  lemma RejectionLeaks()
    ensures var inputs := [Accept(5), Receive(2, HELLO), Accept(6), Receive(3, HELLO)];
            && LegalStream(false, HELLO)
            && AllOffered(Start(3, 4), inputs) && AllClean(Start(3, 4), inputs)
            && Leaked(Run(Start(3, 4), inputs), 3)
  {
    hide *;
    OpenedFive();
    HelloStream();
    FirstHello();
    SecondHello();
    RunOfFour(Start(3, 4), Accept(5), Receive(2, HELLO), Accept(6), Receive(3, HELLO));
  }

  function Named(): Srv {
    Opened().(idToFd := map[[97] := 5], fdToId := map[5 := [97]], rBuffer := map[5 := []], log := [Up([97], 5)])
  }

  lemma FirstHello()
    ensures Slots(Opened()) && Offered(Opened(), Receive(2, HELLO)) && CleanInput(Opened(), Receive(2, HELLO))
    ensures Next(Opened(), Receive(2, HELLO)) == Named()
  {
    HelloStream();
    LegalIsClean({}, Fresh, HELLO);
    OpenSlots(Opened());
    assert Opened().idToFd.Keys == {};
    hide Slots, Decode, Clean, Rest, LegalStream;
    FirstBytes(Opened(), 2, HELLO);
    assert [] + HELLO == HELLO;
    assert [] + [Up([97], 5)] == [Up([97], 5)];
  }

  lemma SecondHello()
    ensures Slots(Named()) && Offered(Named(), Accept(6)) && CleanInput(Named(), Accept(6))
    ensures var s := Next(Named(), Accept(6));
            && Offered(s, Receive(3, HELLO)) && CleanInput(s, Receive(3, HELLO))
            && Leaked(Next(s, Receive(3, HELLO)), 3)
  {
    HelloStream();
    LegalIsClean({[97]}, Fresh, HELLO);
    assert Closes({[97]}, false, HELLO);
    OpenSlots(Named());
    hide Slots, Clean, Tolerable, Closes, LegalStream;
    AcceptAtEnd(Named(), 6);
    var s := Next(Named(), Accept(6));
    assert s == Named().(slots := [3, 4, 5, 6]);
    assert s.idToFd.Keys == {[97]};
    assert [] + HELLO == HELLO;
    hide Next;
    StepLeaksExactly(s, Receive(3, HELLO), 3);
  }

  /** The tcp_con_msg of the empty identifier. */
  const NAMELESS: Bytes := [TCP_CONNECT, 0, 0, 0, 0, 0, 0, 0, 0, 0, 0, 0]

  lemma NamelessStream()
    ensures LegalStream(false, NAMELESS) && Tolerable(NAMELESS) && Complete(NAMELESS) && Rest(NAMELESS) == []
    ensures Decode(First(NAMELESS)) == Connect([])
  {
    assert First(NAMELESS) == NAMELESS && Rest(NAMELESS) == [];
    assert NAMELESS[1..CON_SIZE] == [0, 0, 0, 0, 0, 0, 0, 0, 0, 0, 0];
    LegalIsTolerable(false, NAMELESS);
  }

  /** The parser at an identification in front of more bytes. */
  lemma ParseHello(s: Srv, fd: int, i: nat, tail: Bytes)
    requires i < |s.slots| && fd >= 0 && Buffered(s, fd) == HELLO + tail && tail != [] && Tolerable(tail)
    ensures Tolerable(HELLO + tail)
    ensures var s1 := HandleMsg(s.(rBuffer := s.rBuffer[fd := tail]), fd, i, Connect([97]));
            Buffered(s1, fd) == tail && ParseTcp(s, fd, i) == ParseTcp(s1, fd, i)
  {
    HelloStream();
    FirstOfLonger(HELLO, tail);
    assert [] + tail == tail;
    hide Decode, First, Rest;
  }

  /** Two identifications and a byte that starts no message: the connection is closed while it stays bound, and the
      empty identifier is released, whoever it belongs to. */
  lemma ParseHelloTwice(s: Srv, fd: int, i: nat)
    requires i < |s.slots| && fd >= 0 && [97] !in s.idToFd && -1 !in s.fdToId
    requires Buffered(s, fd) == HELLO + (HELLO + [0])
    ensures Tolerable(HELLO + (HELLO + [0]))
    ensures var s' := ParseTcp(s, fd, i);
            && s'.idToFd == s.idToFd[[97] := fd] - {[]} && s'.fdToId == s.fdToId[fd := [97]] - {-1}
            && s'.slots == s.slots[i := -1] && s'.empties == s.empties
  {
    assert [0][1..] == [] && Tolerable([0]);
    HelloStream();
    FirstOfLonger(HELLO, [0]);
    assert [] + [0] == [0];
    ParseHello(s, fd, i, HELLO + [0]);
    var s1 := HandleMsg(s.(rBuffer := s.rBuffer[fd := HELLO + [0]]), fd, i, Connect([97]));
    ParseHello(s1, fd, i, [0]);
    var s2 := HandleMsg(s1.(rBuffer := s1.rBuffer[fd := [0]]), fd, i, Connect([97]));
    hide Tolerable, Decode, First, Rest;
    assert ParseTcp(s2, fd, i) == Disconnect(s2.(rBuffer := s2.rBuffer[fd := []]), i, true);
  }

  function TwoOpened(): Srv { Start(3, 4).(slots := [3, 4, 5, 6]) }

  function SecondNamed(): Srv {
    TwoOpened().(idToFd := map[[] := 6], fdToId := map[6 := []], rBuffer := map[6 := []], log := [Up([], 6)])
  }

  lemma AcceptSecond()
    ensures Slots(Opened()) && Offered(Opened(), Accept(6)) && CleanInput(Opened(), Accept(6))
    ensures Slots(TwoOpened()) && Next(Opened(), Accept(6)) == TwoOpened()
  {
    OpenSlots(Opened());
    OpenSlots(TwoOpened());
    hide Slots;
    AcceptAtEnd(Opened(), 6);
    assert [3, 4, 5] + [6] == [3, 4, 5, 6];
  }

  lemma NameSecond()
    ensures Slots(TwoOpened()) && Offered(TwoOpened(), Receive(3, NAMELESS))
    ensures Slots(SecondNamed()) && Next(TwoOpened(), Receive(3, NAMELESS)) == SecondNamed()
  {
    NamelessStream();
    OpenSlots(TwoOpened());
    OpenSlots(SecondNamed());
    hide Slots, Decode, Rest, LegalStream;
    FirstBytes(TwoOpened(), 3, NAMELESS);
    assert [] + [Up([], 6)] == [Up([], 6)];
  }

  lemma FirstTwice()
    ensures Slots(SecondNamed()) && Offered(SecondNamed(), Receive(2, HELLO + (HELLO + [0])))
    ensures var s := Next(SecondNamed(), Receive(2, HELLO + (HELLO + [0])));
            && s.slots == [3, 4, -1, 6] && Leaked(s, 2)
            && 5 in s.fdToId && 6 in s.fdToId && s.fdToId[6] == [] && [] !in s.idToFd
  {
    NameSecond();
    hide Slots, ParseTcp, Tolerable, HandleMsg, LegalStream;
    var s := SecondNamed();
    var all := HELLO + (HELLO + [0]);
    var s1 := s.(rBuffer := s.rBuffer[5 := all]);
    ParseHelloTwice(s1, 5, 2);
    FirstBytes(s, 2, all);
    assert Next(s, Receive(2, all)) == ParseTcp(s1, 5, 2);
  }

  /** The first bytes of a connection are parsed as they are. */
  lemma FirstBytes(s: Srv, i: nat, chunk: Bytes)
    requires Slots(s) && 2 <= i < |s.slots| && s.slots[i] >= 0 && Buffered(s, s.slots[i]) == []
    requires chunk != [] && Tolerable(chunk)
    ensures Offered(s, Receive(i, chunk))
    ensures Next(s, Receive(i, chunk)) ==
            ParseTcp(s.(rBuffer := s.rBuffer[s.slots[i] := chunk]), s.slots[i], i)
  {
    hide Slots, ParseTcp, Tolerable;
    assert [] + chunk == chunk;
  }

  /** What a second TCP_CONNECT can do: the connection of descriptor 5 sends two and a byte that starts no message. Its
      slot leaks while it stays bound, and the open connection of descriptor 6, which has the empty identifier, loses
      its entry among the connected ones. */
  lemma EmptyIdentifierIsLost()
    ensures var inputs := [Accept(5), Accept(6), Receive(3, NAMELESS), Receive(2, HELLO + (HELLO + [0]))];
            && Slots(Start(3, 4)) && AllOffered(Start(3, 4), inputs)
            && var s := Run(Start(3, 4), inputs);
               && s.slots == [3, 4, -1, 6] && Leaked(s, 2)
               && 5 in s.fdToId && 6 in s.fdToId && s.fdToId[6] == [] && [] !in s.idToFd
  {
    hide *;
    OpenedFive();
    AcceptSecond();
    NameSecond();
    FirstTwice();
    RunOfFour(Start(3, 4), Accept(5), Accept(6), Receive(3, NAMELESS), Receive(2, HELLO + (HELLO + [0])));
  }
}
