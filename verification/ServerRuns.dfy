/** What holds on every run of the server, and what each subscriber receives. */
module ServerRuns {
  import opened Machine
  import opened Wrappers
  import opened Collections
  import opened Wire
  import opened PubSub

  // ----- the connection tables -----------------------------------------------------

  /** `id_to_fd` and `fd_to_id` are inverse to each other. */
  ghost predicate Inverse(s: Srv) {
    && (forall id | id in s.idToFd :: s.idToFd[id] in s.fdToId && s.fdToId[s.idToFd[id]] == id)
    && (forall fd | fd in s.fdToId :: s.fdToId[fd] in s.idToFd && s.idToFd[s.fdToId[fd]] == fd)
  }

  /** Two slots never hold the same descriptor, and -1 marks a closed slot. */
  ghost predicate DistinctSlots(s: Srv) {
    forall i, j | 0 <= i < j < |s.slots| && s.slots[i] == s.slots[j] :: s.slots[i] == -1
  }

  ghost predicate HasSlot(s: Srv, fd: int) {
    exists i :: 2 <= i < |s.slots| && s.slots[i] == fd
  }

  ghost predicate BoundAreLive(s: Srv) {
    forall fd | fd in s.fdToId :: fd >= 0 && HasSlot(s, fd)
  }

  /** The free list holds closed slots, each once. */
  ghost predicate FreeList(s: Srv) {
    && (forall k | 0 <= k < |s.empties| :: 2 <= s.empties[k] < |s.slots| && s.slots[s.empties[k]] == -1)
    && (forall j, k | 0 <= j < k < |s.empties| :: s.empties[j] != s.empties[k])
  }

  /** What holds of the slots, whatever the connections send. */
  ghost predicate Slots(s: Srv) {
    && DistinctSlots(s) && FreeList(s)
    && 2 <= |s.slots| <= s.currentSize
    && s.slots[0] >= 0 && s.slots[1] >= 0
    && (forall i | 0 <= i < |s.slots| :: s.slots[i] >= -1)
  }

  /** What holds of the identifiers as long as the connections send clean bytes. */
  ghost predicate Identifiers(s: Srv) { Inverse(s) && BoundAreLive(s) }

  ghost predicate Table(s: Srv) { Slots(s) && Identifiers(s) }

  /** A new connection takes a closed slot or a new one, and changes no other slot. */
  lemma AddConKeepsTable(s: Srv, fd: int)
    requires Table(s) && fd >= 0 && fd !in s.slots
    ensures s.empties != [] ==> s.empties[0] < |s.slots|
    ensures var s' := AddCon(s, fd);
            && Table(s') && HasSlot(s', fd)
            && |s.slots| <= |s'.slots|
            && (forall i | 0 <= i < |s.slots| && s.slots[i] != -1 :: s'.slots[i] == s.slots[i])
  {
    var s' := AddCon(s, fd);
    var index := if s.empties != [] then s.empties[0] else |s.slots|;
    AddConSlots(s, fd, index);
    AddConKeepsSlots(s, fd);
    hide AddCon, Slots;
    forall d | d in s'.fdToId ensures HasSlot(s', d) {
      var i :| 2 <= i < |s.slots| && s.slots[i] == d;
      assert s'.slots[i] == d;
    }
  }

  lemma AddConSlots(s: Srv, fd: int, index: nat)
    requires Slots(s) && fd >= 0 && fd !in s.slots
    requires index == if s.empties != [] then s.empties[0] else |s.slots|
    ensures s.empties != [] ==> s.empties[0] < |s.slots|
    ensures var s' := AddCon(s, fd);
            && s'.idToFd == s.idToFd && s'.fdToId == s.fdToId
            && 2 <= index < |s'.slots| && s'.slots[index] == fd && |s.slots| <= |s'.slots| <= s'.currentSize
            && (forall i | 0 <= i < |s'.slots| && i != index :: i < |s.slots| && s'.slots[i] == s.slots[i])
            && (index < |s.slots| ==> s.slots[index] == -1)
            && FreeList(s')
  {
  }

  /** Closing a live slot keeps the tables in agreement when the identifier goes with it. */
  lemma DisconnectKeepsTable(s: Srv, i: nat, deleteId: bool)
    requires Table(s) && 2 <= i < |s.slots|
    requires deleteId == (s.slots[i] in s.fdToId)
    ensures Table(Disconnect(s, i, deleteId))
  {
    var s' := Disconnect(s, i, deleteId);
    assert forall k | 0 <= k < |s.slots| && k != i :: s'.slots[k] == s.slots[k];
    forall d | d in s'.fdToId ensures HasSlot(s', d) {
      var k :| 2 <= k < |s.slots| && s.slots[k] == d;
      assert s'.slots[k] == d;
    }
    assert Inverse(s');
  }

  lemma HangUpKeepsTable(s: Srv, i: nat)
    requires Table(s) && 2 <= i < |s.slots| && s.slots[i] >= 0
    ensures Table(HangUpSlot(s, i))
  {
    var s' := HangUpSlot(s, i);
    assert forall k | 0 <= k < |s.slots| && k != i :: s'.slots[k] == s.slots[k];
    forall d | d in s'.fdToId ensures HasSlot(s', d) {
      var k :| 2 <= k < |s.slots| && s.slots[k] == d;
      assert s'.slots[k] == d;
    }
    assert Inverse(s');
    assert FreeList(s');
  }

  lemma BindKeepsTable(s: Srv, fd: int, i: nat, id: Id)
    requires Table(s) && 2 <= i < |s.slots| && s.slots[i] == fd >= 0
    requires fd !in s.fdToId && id !in s.idToFd
    ensures Table(HandleMsg(s, fd, i, Connect(id)))
  {
  }

  /** The tables do not depend on buffers, queues, subscriptions and the log. */
  predicate SameTables(s: Srv, s': Srv) {
    && s.idToFd == s'.idToFd && s.fdToId == s'.fdToId
    && s.slots == s'.slots && s.currentSize == s'.currentSize && s.empties == s'.empties
  }

  lemma TableDepends(s: Srv, s': Srv)
    requires Table(s) && SameTables(s, s')
    ensures Table(s')
  {
  }

  // ----- the slots on every step ---------------------------------------------------------

  /** What the operating system and the event loop guarantee: accept returns a descriptor that is not in use, only
      open connection slots receive or hang up. Bytes left over from an earlier connection with the same descriptor
      are possible, and so is anything a connection may send, but for what `Tolerable` excludes. */
  predicate Offered(s: Srv, input: Input) {
    match input
    case Accept(fd) => fd >= 0 && fd !in s.slots
    case Receive(i, chunk) =>
      2 <= i < |s.slots| && s.slots[i] >= 0 && Tolerable(Buffered(s, s.slots[i]) + chunk)
    case HangUp(i) => 2 <= i < |s.slots| && s.slots[i] >= 0
    case Datagram(w) => ProperWrapper(w)
    case Writable(i) => i < |s.slots|
  }

  lemma {:induction false} ParseSlots(s: Srv, fd: int, i: nat)
    requires i < |s.slots| && fd >= 0 && Buffered(s, fd) != [] && Tolerable(Buffered(s, fd))
    ensures var s' := ParseTcp(s, fd, i);
            && s'.empties == s.empties && s'.currentSize == s.currentSize
            && (s'.slots == s.slots || s'.slots == s.slots[i := -1])
    decreases |Buffered(s, fd)|
  {
    var buf := Buffered(s, fd);
    if SizeOf(buf[0]).None? {
      var s1 := Disconnect(s.(rBuffer := s.rBuffer[fd := buf[1..]]), i, fd in s.fdToId);
      if buf[1..] != [] { ParseSlots(s1, fd, i); }
    } else if Complete(buf) && (buf[0] == TCP_CONNECT || fd in s.fdToId) {
      var s1 := HandleMsg(s.(rBuffer := s.rBuffer[fd := Rest(buf)]), fd, i, Decode(First(buf)));
      if Rest(buf) != [] { ParseSlots(s1, fd, i); }
    }
  }

  /** A connection takes a closed or a new slot, closing marks the own slot, and nothing else changes a slot. */
  predicate OnlyOwnSlot(s: Srv, s': Srv, input: Input) {
    && |s.slots| <= |s'.slots|
    && forall j | 0 <= j < |s.slots| && s.slots[j] != s'.slots[j] ::
         if input.Accept? then s.slots[j] == -1 && s'.slots[j] == input.fd
         else (input.Receive? || input.HangUp?) && input.i == j && s'.slots[j] == -1
  }

  lemma AddConKeepsSlots(s: Srv, fd: int)
    requires Slots(s) && fd >= 0 && fd !in s.slots
    ensures s.empties != [] ==> s.empties[0] < |s.slots|
    ensures Slots(AddCon(s, fd)) && OnlyOwnSlot(s, AddCon(s, fd), Accept(fd))
  {
    AddConSlots(s, fd, if s.empties != [] then s.empties[0] else |s.slots|);
    hide AddCon;
  }

  lemma ClosingKeepsSlots(s: Srv, s': Srv, i: nat)
    requires Slots(s) && 2 <= i < |s.slots|
    requires s'.empties == s.empties && s'.currentSize == s.currentSize
    requires s'.slots == s.slots || s'.slots == s.slots[i := -1]
    ensures Slots(s')
  {
  }

  lemma HangUpKeepsSlots(s: Srv, i: nat)
    requires Slots(s) && 2 <= i < |s.slots| && s.slots[i] >= 0
    ensures Slots(HangUpSlot(s, i))
  {
    var s' := HangUpSlot(s, i);
    assert s'.slots == s.slots[i := -1] && s'.empties == s.empties + [i];
  }

  /** Whatever a connection sends, the slots stay distinct, the free list holds distinct closed slots, and no live
      slot of another connection is overwritten. */
  lemma StepKeepsSlots(s: Srv, input: Input)
    requires Slots(s) && Offered(s, input)
    ensures Possible(s, input)
    ensures Slots(Step(s, input)) && OnlyOwnSlot(s, Step(s, input), input)
  {
    hide Slots, FanOut, AddCon, ParseTcp;
    match input
    case Accept(fd) => AddConKeepsSlots(s, fd);
    case Receive(i, chunk) =>
      if chunk != [] {
        var fd := s.slots[i];
        var s1 := s.(rBuffer := s.rBuffer[fd := Buffered(s, fd) + chunk]);
        ParseSlots(s1, fd, i);
        ClosingKeepsSlots(s, ParseTcp(s1, fd, i), i);
      }
    case HangUp(i) => HangUpKeepsSlots(s, i);
    case Datagram(w) => FanOutKeepsSlots(s, w);
    case Writable(i) => SendKeepsSlots(s, i);
  }

  lemma FanOutKeepsSlots(s: Srv, w: Wrapper)
    requires Slots(s) && ProperWrapper(w)
    ensures Slots(FanOut(s, w)) && FanOut(s, w).slots == s.slots
  {
  }

  lemma SendKeepsSlots(s: Srv, i: nat)
    requires Slots(s) && i < |s.slots|
    ensures Slots(SendOne(s, i)) && SendOne(s, i).slots == s.slots
  {
  }

  /** The state after an input. */
  ghost function Next(s: Srv, input: Input): (s': Srv)
    requires Slots(s) && Offered(s, input)
    ensures Slots(s')
  {
    StepKeepsSlots(s, input);
    Step(s, input)
  }

  // ----- what the log says -------------------------------------------------------------

  /** The descriptor to which the identifier was bound last, or None after it was released. */
  function BoundTo(log: seq<LogEvent>, id: Id): Option<int> {
    if log == [] then None
    else
      var front, e := log[..|log| - 1], log[|log| - 1];
      if e.Up? && e.id == id then Some(e.fd)
      else if e.Down? && e.id == id then None
      else BoundTo(front, id)
  }

  predicate IsUp(log: seq<LogEvent>, id: Id) { BoundTo(log, id).Some? }

  /** The flag of the last subscription, or None after an unsubscription. */
  function Flag(log: seq<LogEvent>, id: Id, topic: Topic): Option<bool> {
    if log == [] then None
    else
      var front, e := log[..|log| - 1], log[|log| - 1];
      if e.SetFlag? && e.id == id && e.topic == topic then Some(e.sf)
      else if e.ClearFlag? && e.id == id && e.topic == topic then None
      else Flag(front, id, topic)
  }

  /** Subscribed with store-and-forward, or without it and connected. */
  predicate Wants(log: seq<LogEvent>, id: Id, topic: Topic) {
    Flag(log, id, topic) == Some(true) || (Flag(log, id, topic) == Some(false) && IsUp(log, id))
  }

  /** The news that were published while the identifier wanted their topic. */
  function Expected(log: seq<LogEvent>, id: Id): seq<Wrapper> {
    if log == [] then []
    else
      var front, e := log[..|log| - 1], log[|log| - 1];
      if e.Published? && Wants(front, id, e.topic) then Expected(front, id) + [e.news] else Expected(front, id)
  }

  /** The news handed to send for the identifier. */
  function DeliveredTo(log: seq<LogEvent>, id: Id): seq<Wrapper> {
    if log == [] then []
    else
      var front, e := log[..|log| - 1], log[|log| - 1];
      if e.Delivered? && e.id == id then DeliveredTo(front, id) + [e.news] else DeliveredTo(front, id)
  }

  lemma LogPush(log: seq<LogEvent>, e: LogEvent, id: Id, topic: Topic)
    ensures BoundTo(log + [e], id) ==
            if e.Up? && e.id == id then Some(e.fd) else if e.Down? && e.id == id then None else BoundTo(log, id)
    ensures Flag(log + [e], id, topic) ==
            if e.SetFlag? && e.id == id && e.topic == topic then Some(e.sf)
            else if e.ClearFlag? && e.id == id && e.topic == topic then None
            else Flag(log, id, topic)
    ensures Expected(log + [e], id) ==
            if e.Published? && Wants(log, id, e.topic) then Expected(log, id) + [e.news] else Expected(log, id)
    ensures DeliveredTo(log + [e], id) ==
            if e.Delivered? && e.id == id then DeliveredTo(log, id) + [e.news] else DeliveredTo(log, id)
  {
  }

  // ----- agreement of the state with the log ---------------------------------------------

  /** The identifier is in `id_to_fd` exactly while it is connected, with its descriptor; it is in at most one of the
      two sets of the topic, the one named by the flag of its last subscription; and what was handed to send, then
      what waits in its queue, is what it was to receive, in order and once each. */
  predicate AgreesAt(s: Srv, id: Id, topic: Topic) {
    && BoundTo(s.log, id) == (if id in s.idToFd then Some(s.idToFd[id]) else None)
    && (id in SubscribersOf(s, true, topic) <==> Flag(s.log, id, topic) == Some(true))
    && (id in SubscribersOf(s, false, topic) <==> Flag(s.log, id, topic) == Some(false))
    && DeliveredTo(s.log, id) + Queued(s, id) == Expected(s.log, id)
  }

  ghost predicate Agrees(s: Srv) {
    forall id: Id, topic: Topic :: AgreesAt(s, id, topic)
  }

  /** Steps that log nothing and leave identifiers, subscriptions and queues alone. */
  lemma QuietAgrees(s: Srv, s': Srv)
    requires Agrees(s)
    requires s'.log == s.log && s'.idToFd == s.idToFd && s'.subs == s.subs && s'.wBuffer == s.wBuffer
    ensures Agrees(s')
  {
    hide BoundTo, Flag, Expected, DeliveredTo;
    forall id: Id, topic: Topic ensures AgreesAt(s', id, topic) { assert AgreesAt(s, id, topic); }
  }

  lemma BufferAgrees(s: Srv, fd: int, b: Bytes)
    requires Agrees(s)
    ensures Agrees(s.(rBuffer := s.rBuffer[fd := b]))
  {
    QuietAgrees(s, s.(rBuffer := s.rBuffer[fd := b]));
  }

  lemma DisconnectAgrees(s: Srv, i: nat, deleteId: bool)
    requires Agrees(s) && i < |s.slots|
    ensures Agrees(Disconnect(s, i, deleteId))
  {
    var s' := Disconnect(s, i, deleteId);
    hide BoundTo, Flag, Expected, DeliveredTo;
    forall x: Id, topic: Topic ensures AgreesAt(s', x, topic) {
      assert AgreesAt(s, x, topic);
      if deleteId { LogPush(s.log, Down(Get(s.fdToId, s.slots[i], [])), x, topic); }
    }
  }

  lemma ConnectAgrees(s: Srv, fd: int, i: nat, id: Id)
    requires Agrees(s) && i < |s.slots|
    ensures Agrees(HandleMsg(s, fd, i, Connect(id)))
  {
    var s' := HandleMsg(s, fd, i, Connect(id));
    if id in s.idToFd {
      DisconnectAgrees(s, i, false);
    } else {
      hide BoundTo, Flag, Expected, DeliveredTo;
      forall x: Id, topic: Topic ensures AgreesAt(s', x, topic) {
        assert AgreesAt(s, x, topic);
        LogPush(s.log, Up(id, fd), x, topic);
      }
    }
  }

  /** A subscription or unsubscription of a bound connection. */
  lemma SubscriptionAgrees(s: Srv, fd: int, i: nat, msg: Msg)
    requires Agrees(s) && i < |s.slots| && fd in s.fdToId && !msg.Connect?
    ensures Agrees(HandleMsg(s, fd, i, msg))
  {
    var s' := HandleMsg(s, fd, i, msg);
    var id := s.fdToId[fd];
    hide BoundTo, Flag, Expected, DeliveredTo;
    forall x: Id, topic: Topic ensures AgreesAt(s', x, topic) {
      assert AgreesAt(s, x, topic);
      SubscribersAfter(s, fd, i, msg, topic);
      var e := if msg.Subscribe? then SetFlag(id, fd, msg.topic, msg.sf) else ClearFlag(id, fd, msg.topic);
      LogPush(s.log, e, x, topic);
    }
  }

  lemma SubscribersAfter(s: Srv, fd: int, i: nat, msg: Msg, topic: Topic)
    requires i < |s.slots| && fd in s.fdToId && !msg.Connect?
    ensures var s' := HandleMsg(s, fd, i, msg);
            var id := s.fdToId[fd];
            var plain, stored := SubscribersOf(s, false, topic), SubscribersOf(s, true, topic);
            && SubscribersOf(s', false, topic) ==
               (if topic != msg.topic then plain
                else if msg == Subscribe(topic, false) then plain + {id} else plain - {id})
            && SubscribersOf(s', true, topic) ==
               (if topic != msg.topic then stored
                else if msg == Subscribe(topic, true) then stored + {id} else stored - {id})
  {
  }

  lemma {:induction false} ParseAgrees(s: Srv, fd: int, i: nat)
    requires Agrees(s) && i < |s.slots| && fd >= 0
    requires Buffered(s, fd) != [] && Tolerable(Buffered(s, fd))
    ensures Agrees(ParseTcp(s, fd, i))
    decreases |Buffered(s, fd)|
  {
    var buf := Buffered(s, fd);
    hide Agrees, AgreesAt, WithSubscribers, SubscribersOf;
    if SizeOf(buf[0]).None? {
      BufferAgrees(s, fd, buf[1..]);
      var s0 := s.(rBuffer := s.rBuffer[fd := buf[1..]]);
      DisconnectAgrees(s0, i, fd in s.fdToId);
      if buf[1..] != [] { ParseAgrees(Disconnect(s0, i, fd in s.fdToId), fd, i); }
    } else if Complete(buf) {
      if buf[0] != TCP_CONNECT && fd !in s.fdToId {
        BufferAgrees(s, fd, buf[1..]);
        DisconnectAgrees(s.(rBuffer := s.rBuffer[fd := buf[1..]]), i, false);
      } else {
        BufferAgrees(s, fd, Rest(buf));
        var s0 := s.(rBuffer := s.rBuffer[fd := Rest(buf)]);
        var msg := Decode(First(buf));
        if msg.Connect? { ConnectAgrees(s0, fd, i, msg.id); } else { SubscriptionAgrees(s0, fd, i, msg); }
        if Rest(buf) != [] { ParseAgrees(HandleMsg(s0, fd, i, msg), fd, i); }
      }
    }
  }

  lemma FanOutAgrees(s: Srv, w: Wrapper)
    requires Agrees(s) && ProperWrapper(w)
    ensures Agrees(FanOut(s, w))
  {
    var s' := FanOut(s, w);
    hide BoundTo, Flag, Expected, DeliveredTo;
    forall x: Id, topic: Topic ensures AgreesAt(s', x, topic) {
      assert AgreesAt(s, x, topic);
      assert AgreesAt(s, x, TopicOf(w));
      LogPush(s.log, Published(TopicOf(w), w), x, topic);
      QueuedAfter(s, w, x);
    }
  }

  lemma QueuedAfter(s: Srv, w: Wrapper, id: Id)
    requires ProperWrapper(w)
    requires id !in SubscribersOf(s, false, TopicOf(w)) || id !in SubscribersOf(s, true, TopicOf(w))
    ensures Queued(FanOut(s, w), id) ==
            if id in SubscribersOf(s, true, TopicOf(w)) || (id in SubscribersOf(s, false, TopicOf(w)) && id in s.idToFd)
            then Queued(s, id) + [w] else Queued(s, id)
  {
  }

  lemma SendAgrees(s: Srv, i: nat)
    requires Agrees(s) && i < |s.slots|
    ensures Agrees(SendOne(s, i))
  {
    hide BoundTo, Flag, Expected, DeliveredTo;
    if SendOne(s, i) != s {
      forall x: Id, topic: Topic ensures AgreesAt(SendOne(s, i), x, topic) {
        assert AgreesAt(s, x, topic);
        SendAgreesAt(s, i, x, topic);
      }
    }
  }

  lemma SendAgreesAt(s: Srv, i: nat, x: Id, topic: Topic)
    requires AgreesAt(s, x, topic) && i < |s.slots| && SendOne(s, i) != s
    ensures AgreesAt(SendOne(s, i), x, topic)
  {
    hide BoundTo, Flag, Expected, DeliveredTo;
    var fd := s.slots[i];
    var id := s.fdToId[fd];
    var q := Queued(s, id);
    LogPush(s.log, Delivered(id, fd, q[0]), x, topic);
    if x == id {
      assert (DeliveredTo(s.log, id) + [q[0]]) + q[1..] == DeliveredTo(s.log, id) + q;
    }
  }

  /** Whatever the connections send, every step keeps the state in agreement with the log. */
  lemma StepAgrees(s: Srv, input: Input)
    requires Agrees(s) && Possible(s, input)
    ensures Agrees(Step(s, input))
  {
    hide Agrees;
    match input
    case Accept(fd) => QuietAgrees(s, AddCon(s, fd));
    case Receive(i, chunk) =>
      if chunk != [] {
        var fd := s.slots[i];
        BufferAgrees(s, fd, Buffered(s, fd) + chunk);
        ParseAgrees(s.(rBuffer := s.rBuffer[fd := Buffered(s, fd) + chunk]), fd, i);
      }
    case HangUp(i) =>
      var s1 := s.(empties := s.empties + [i]);
      QuietAgrees(s, s1);
      DisconnectAgrees(s1, i, s.slots[i] in s.fdToId);
    case Datagram(w) => FanOutAgrees(s, w);
    case Writable(i) => SendAgrees(s, i);
  }

  // ----- when received bytes keep the tables ---------------------------------------------------

  /** Where a connection is: nothing handled yet, bound to an identifier, or closed by the parser, which goes on with
      the bytes behind the message that made it do so. */
  datatype Stage = Fresh | Bound(id: Id) | Closed

  ghost predicate IsAt(s: Srv, fd: int, i: nat, stage: Stage) {
    && 2 <= i < |s.slots| && fd >= 0
    && match stage
       case Fresh => s.slots[i] == fd && fd !in s.fdToId
       case Bound(id) => s.slots[i] == fd && fd in s.fdToId && s.fdToId[fd] == id
       case Closed => s.slots[i] == -1 && fd !in s.fdToId && fd !in s.slots
  }

  /** No TCP_CONNECT is handled on a bound connection, and none with a free identifier on a closed one. */
  predicate Clean(taken: set<Id>, stage: Stage, stream: Bytes)
    requires Tolerable(stream)
    decreases |stream|
  {
    if stream == [] then true
    else if SizeOf(stream[0]).None? then Clean(if stage.Bound? then taken - {stage.id} else taken, Closed, stream[1..])
    else if !Complete(stream) then true
    else if stream[0] != TCP_CONNECT then stage.Bound? ==> Clean(taken, stage, Rest(stream))
    else
      var id := Decode(First(stream)).id;
      match stage
      case Fresh =>
        if id in taken then Clean(taken, Closed, Rest(stream)) else Clean(taken + {id}, Bound(id), Rest(stream))
      case Bound(_) => false
      case Closed => id in taken && Clean(taken, Closed, Rest(stream))
  }

  /** The connection is bound and closed at once, or an identifier is left behind without a connection. */
  ghost predicate Broken(s: Srv, fd: int, i: nat, lost: Id) {
    && 2 <= i < |s.slots| && fd >= 0 && -1 !in s.fdToId
    && (s.slots[i] == fd || s.slots[i] == -1)
    && (forall j | 0 <= j < |s.slots| && j != i :: s.slots[j] != fd)
    && (|| (s.slots[i] == -1 && fd in s.fdToId)
        || (lost in s.idToFd && s.idToFd[lost] == fd && !(fd in s.fdToId && s.fdToId[fd] == lost)))
  }

  lemma BrokenIsNoTable(s: Srv, fd: int, i: nat, lost: Id)
    requires Broken(s, fd, i, lost)
    ensures !Table(s)
  {
  }

  /** There is no way back while the parser goes on. */
  lemma {:induction false} BrokenStays(s: Srv, fd: int, i: nat, lost: Id)
    requires Broken(s, fd, i, lost) && Buffered(s, fd) != [] && Tolerable(Buffered(s, fd))
    ensures Broken(ParseTcp(s, fd, i), fd, i, lost)
    decreases |Buffered(s, fd)|
  {
    var buf := Buffered(s, fd);
    if SizeOf(buf[0]).None? {
      var s1 := Disconnect(s.(rBuffer := s.rBuffer[fd := buf[1..]]), i, fd in s.fdToId);
      if buf[1..] != [] { BrokenStays(s1, fd, i, lost); }
    } else if Complete(buf) && (buf[0] == TCP_CONNECT || fd in s.fdToId) {
      var s0 := s.(rBuffer := s.rBuffer[fd := Rest(buf)]);
      var msg := Decode(First(buf));
      BrokenHandles(s0, fd, i, lost, msg);
      if Rest(buf) != [] { BrokenStays(HandleMsg(s0, fd, i, msg), fd, i, lost); }
    }
  }

  lemma BrokenHandles(s: Srv, fd: int, i: nat, lost: Id, msg: Msg)
    requires Broken(s, fd, i, lost)
    ensures Broken(HandleMsg(s, fd, i, msg), fd, i, lost)
  {
    hide WithSubscribers, SubscribersOf;
  }

  lemma ParseBroken(s: Srv, fd: int, i: nat, lost: Id)
    requires Broken(s, fd, i, lost) && Tolerable(Buffered(s, fd))
    ensures !Table(s)
    ensures Buffered(s, fd) != [] ==> !Table(ParseTcp(s, fd, i))
  {
    BrokenIsNoTable(s, fd, i, lost);
    if Buffered(s, fd) != [] {
      BrokenStays(s, fd, i, lost);
      BrokenIsNoTable(ParseTcp(s, fd, i), fd, i, lost);
    }
  }

  /** A byte that starts no message: the identifier goes with the connection. */
  lemma ClosingKeepsTable(s: Srv, fd: int, i: nat, stage: Stage)
    requires Table(s) && IsAt(s, fd, i, stage)
    ensures var s' := Disconnect(s, i, fd in s.fdToId);
            && Table(s') && IsAt(s', fd, i, Closed)
            && s'.idToFd.Keys == (if stage.Bound? then s.idToFd.Keys - {stage.id} else s.idToFd.Keys)
  {
    DisconnectKeepsTable(s, i, fd in s.fdToId);
  }

  lemma SubscriptionKeepsTable(s: Srv, fd: int, i: nat, msg: Msg)
    requires Table(s) && i < |s.slots| && fd in s.fdToId && !msg.Connect?
    ensures Table(HandleMsg(s, fd, i, msg))
  {
    hide WithSubscribers, SubscribersOf;
    TableDepends(s, HandleMsg(s, fd, i, msg));
  }

  /** A TCP_CONNECT, by the stage of its connection. */
  lemma ConnectAtStage(s: Srv, fd: int, i: nat, stage: Stage, id: Id)
    requires Table(s) && IsAt(s, fd, i, stage)
    ensures var s' := HandleMsg(s, fd, i, Connect(id));
            match stage
            case Fresh =>
              && Table(s')
              && (if id in s.idToFd then IsAt(s', fd, i, Closed) && s'.idToFd == s.idToFd
                  else IsAt(s', fd, i, Bound(id)) && s'.idToFd.Keys == s.idToFd.Keys + {id})
            case Bound(own) => Broken(s', fd, i, own)
            case Closed => if id in s.idToFd then Table(s') && IsAt(s', fd, i, Closed) && s'.idToFd == s.idToFd
                           else Broken(s', fd, i, id)
  {
    if stage.Fresh? && id !in s.idToFd {
      BindKeepsTable(s, fd, i, id);
    } else if !stage.Bound? && id in s.idToFd {
      DisconnectKeepsTable(s, i, false);
    }
  }

  /** Received bytes keep the tables consistent exactly when they are clean. */
  lemma {:induction false} ParseKeepsTableExactly(s: Srv, fd: int, i: nat, stage: Stage)
    requires Table(s) && IsAt(s, fd, i, stage)
    requires Buffered(s, fd) != [] && Tolerable(Buffered(s, fd))
    ensures Table(ParseTcp(s, fd, i)) <==> Clean(s.idToFd.Keys, stage, Buffered(s, fd))
    decreases |Buffered(s, fd)|
  {
    var buf := Buffered(s, fd);
    hide Table, WithSubscribers, SubscribersOf, Broken;
    if SizeOf(buf[0]).None? {
      var s0 := s.(rBuffer := s.rBuffer[fd := buf[1..]]);
      TableDepends(s, s0);
      ClosingKeepsTable(s0, fd, i, stage);
      if buf[1..] != [] { ParseKeepsTableExactly(Disconnect(s0, i, fd in s.fdToId), fd, i, Closed); }
    } else if !Complete(buf) {
    } else if buf[0] != TCP_CONNECT && fd !in s.fdToId {
      var s0 := s.(rBuffer := s.rBuffer[fd := buf[1..]]);
      TableDepends(s, s0);
      ClosingKeepsTable(s0, fd, i, stage);
    } else {
      var s0 := s.(rBuffer := s.rBuffer[fd := Rest(buf)]);
      TableDepends(s, s0);
      var msg := Decode(First(buf));
      var s1 := HandleMsg(s0, fd, i, msg);
      if buf[0] != TCP_CONNECT {
        SubscriptionKeepsTable(s0, fd, i, msg);
        if Rest(buf) != [] { ParseKeepsTableExactly(s1, fd, i, stage); }
      } else {
        ConnectAtStage(s0, fd, i, stage, msg.id);
        if stage.Bound? {
          ParseBroken(s1, fd, i, stage.id);
        } else if stage.Closed? && msg.id !in s.idToFd {
          ParseBroken(s1, fd, i, msg.id);
        } else if Rest(buf) != [] {
          ParseKeepsTableExactly(s1, fd, i, if msg.id in s.idToFd then Closed else Bound(msg.id));
        }
      }
    }
  }

  /** The stage of the connection of an open slot. */
  function StageOf(s: Srv, fd: int): Stage {
    if fd in s.fdToId then Bound(s.fdToId[fd]) else Fresh
  }

  predicate CleanInput(s: Srv, input: Input)
    requires Offered(s, input)
  {
    match input
    case Receive(i, chunk) =>
      chunk == [] || Clean(s.idToFd.Keys, StageOf(s, s.slots[i]), Buffered(s, s.slots[i]) + chunk)
    case _ => true
  }

  /** Consistent tables stay so exactly when the input is clean. */
  lemma StepKeepsTableExactly(s: Srv, input: Input)
    requires Table(s) && Offered(s, input)
    ensures Possible(s, input)
    ensures Table(Step(s, input)) <==> CleanInput(s, input)
  {
    hide WithSubscribers, SubscribersOf;
    match input
    case Accept(fd) => AddConKeepsTable(s, fd);
    case Receive(i, chunk) =>
      if chunk != [] {
        var fd := s.slots[i];
        var s1 := s.(rBuffer := s.rBuffer[fd := Buffered(s, fd) + chunk]);
        TableDepends(s, s1);
        ParseKeepsTableExactly(s1, fd, i, StageOf(s, fd));
      }
    case HangUp(i) => HangUpKeepsTable(s, i);
    case Datagram(w) => TableDepends(s, FanOut(s, w));
    case Writable(i) => TableDepends(s, SendOne(s, i));
  }

  // ----- runs ---------------------------------------------------------------------------

  ghost predicate AllOffered(s: Srv, inputs: seq<Input>)
    requires Slots(s)
    decreases |inputs|
  {
    inputs == [] || (Offered(s, inputs[0]) && AllOffered(Next(s, inputs[0]), inputs[1..]))
  }

  ghost function Run(s: Srv, inputs: seq<Input>): (s': Srv)
    requires Slots(s) && AllOffered(s, inputs)
    ensures Slots(s')
    decreases |inputs|
  {
    if inputs == [] then s else Run(Next(s, inputs[0]), inputs[1..])
  }

  ghost predicate AllClean(s: Srv, inputs: seq<Input>)
    requires Slots(s) && AllOffered(s, inputs)
    decreases |inputs|
  {
    inputs == [] || (CleanInput(s, inputs[0]) && AllClean(Next(s, inputs[0]), inputs[1..]))
  }

  /** The identifiers are consistent in every state of the run. */
  ghost predicate IdentifiersThroughout(s: Srv, inputs: seq<Input>)
    requires Slots(s) && AllOffered(s, inputs)
    decreases |inputs|
  {
    Identifiers(s) && (inputs != [] ==> IdentifiersThroughout(Next(s, inputs[0]), inputs[1..]))
  }

  lemma {:induction false} RunAgrees(s: Srv, inputs: seq<Input>)
    requires Slots(s) && Agrees(s) && AllOffered(s, inputs)
    ensures Agrees(Run(s, inputs))
    decreases |inputs|
  {
    hide Slots, Agrees, Offered, Step;
    if inputs != [] {
      StepKeepsSlots(s, inputs[0]);
      StepAgrees(s, inputs[0]);
      RunAgrees(Next(s, inputs[0]), inputs[1..]);
    }
  }

  lemma {:induction false} RunKeepsIdentifiersExactly(s: Srv, inputs: seq<Input>)
    requires Table(s) && AllOffered(s, inputs)
    ensures IdentifiersThroughout(s, inputs) <==> AllClean(s, inputs)
    ensures AllClean(s, inputs) ==> Table(Run(s, inputs))
    decreases |inputs|
  {
    hide Slots, Identifiers, CleanInput, Offered, Step;
    if inputs != [] {
      StepKeepsTableExactly(s, inputs[0]);
      if CleanInput(s, inputs[0]) { RunKeepsIdentifiersExactly(Next(s, inputs[0]), inputs[1..]); }
    }
  }

  /** The state after initialisation. */
  function Start(sdTcp: int, sdUdp: int): Srv {
    Srv(map[], map[], map[], map[], [map[], map[]], [sdTcp, sdUdp], 10, [], [])
  }

  /** On every run, whatever the connections send: no two live slots hold the same descriptor, the free list holds
      distinct closed slots, and every subscriber was handed, or has waiting, exactly the news published while it
      wanted them. And in all its states the two identifier maps are inverse and each bound descriptor has a live slot
      exactly when no bound connection sends a TCP_CONNECT, and no connection one with a free identifier behind a
      message that closed it. */
  lemma EveryRun(sdTcp: int, sdUdp: int, inputs: seq<Input>)
    requires sdTcp >= 0 && sdUdp >= 0 && sdTcp != sdUdp
    requires AllOffered(Start(sdTcp, sdUdp), inputs)
    ensures Slots(Run(Start(sdTcp, sdUdp), inputs)) && Agrees(Run(Start(sdTcp, sdUdp), inputs))
    ensures IdentifiersThroughout(Start(sdTcp, sdUdp), inputs) <==> AllClean(Start(sdTcp, sdUdp), inputs)
  {
    var s := Start(sdTcp, sdUdp);
    forall id: Id, topic: Topic ensures AgreesAt(s, id, topic) { }
    RunAgrees(s, inputs);
    RunKeepsIdentifiersExactly(s, inputs);
  }

  // ----- where deliveries go -----------------------------------------------------------------

  /** The delivery at position k went to the descriptor that the identifier was bound to. */
  predicate GoesHome(log: seq<LogEvent>, k: nat)
    requires k < |log| && log[k].Delivered?
  {
    BoundTo(log[..k], log[k].id) == Some(log[k].fd)
  }

  /** So do all deliveries, but perhaps those to the empty identifier. */
  ghost predicate AllGoHome(log: seq<LogEvent>, evenEmpty: bool) {
    forall k | 0 <= k < |log| && log[k].Delivered? && (evenEmpty || log[k].id != []) :: GoesHome(log, k)
  }

  /** The log grows, and not by a delivery. */
  predicate GrowsQuietly(log: seq<LogEvent>, log': seq<LogEvent>) {
    log <= log' && forall k | |log| <= k < |log'| :: !log'[k].Delivered?
  }

  lemma QuietGoesHome(log: seq<LogEvent>, log': seq<LogEvent>, evenEmpty: bool)
    requires AllGoHome(log, evenEmpty) && GrowsQuietly(log, log')
    ensures AllGoHome(log', evenEmpty)
  {
    forall k | 0 <= k < |log'| && log'[k].Delivered? && (evenEmpty || log'[k].id != []) ensures GoesHome(log', k) {
      assert k < |log| && log'[k] == log[k] && log'[..k] == log[..k];
      assert GoesHome(log, k);
    }
  }

  /** A descriptor with a name other than the empty one is the one that the name is bound to. */
  ghost predicate NamesAreBound(s: Srv) {
    forall fd | fd in s.fdToId ::
      fd >= 0 && (s.fdToId[fd] != [] ==> s.fdToId[fd] in s.idToFd && s.idToFd[s.fdToId[fd]] == fd)
  }

  lemma DisconnectKeepsNames(s: Srv, i: nat, deleteId: bool)
    requires NamesAreBound(s) && i < |s.slots|
    ensures NamesAreBound(Disconnect(s, i, deleteId)) && GrowsQuietly(s.log, Disconnect(s, i, deleteId).log)
  {
  }

  lemma HandleKeepsNames(s: Srv, fd: int, i: nat, msg: Msg)
    requires NamesAreBound(s) && i < |s.slots| && fd >= 0
    ensures NamesAreBound(HandleMsg(s, fd, i, msg)) && GrowsQuietly(s.log, HandleMsg(s, fd, i, msg).log)
  {
    hide WithSubscribers, SubscribersOf;
  }

  lemma {:induction false} ParseKeepsNames(s: Srv, fd: int, i: nat)
    requires NamesAreBound(s) && i < |s.slots| && fd >= 0
    requires Buffered(s, fd) != [] && Tolerable(Buffered(s, fd))
    ensures NamesAreBound(ParseTcp(s, fd, i)) && GrowsQuietly(s.log, ParseTcp(s, fd, i).log)
    decreases |Buffered(s, fd)|
  {
    var buf := Buffered(s, fd);
    hide NamesAreBound, WithSubscribers, SubscribersOf;
    if SizeOf(buf[0]).None? {
      var s0 := s.(rBuffer := s.rBuffer[fd := buf[1..]]);
      SameNames(s, s0);
      DisconnectKeepsNames(s0, i, fd in s.fdToId);
      if buf[1..] != [] { ParseKeepsNames(Disconnect(s0, i, fd in s.fdToId), fd, i); }
    } else if Complete(buf) {
      if buf[0] != TCP_CONNECT && fd !in s.fdToId {
        var s0 := s.(rBuffer := s.rBuffer[fd := buf[1..]]);
        SameNames(s, s0);
        DisconnectKeepsNames(s0, i, false);
      } else {
        var s0 := s.(rBuffer := s.rBuffer[fd := Rest(buf)]);
        var msg := Decode(First(buf));
        SameNames(s, s0);
        HandleKeepsNames(s0, fd, i, msg);
        if Rest(buf) != [] { ParseKeepsNames(HandleMsg(s0, fd, i, msg), fd, i); }
      }
    }
  }

  lemma SameNames(s: Srv, s': Srv)
    requires NamesAreBound(s) && s'.idToFd == s.idToFd && s'.fdToId == s.fdToId
    ensures NamesAreBound(s')
  {
  }

  /** The delivery that a writable connection gets goes home exactly when the two maps agree on it. */
  lemma SendGoesHome(s: Srv, i: nat)
    requires Agrees(s) && i < |s.slots| && SendOne(s, i) != s
    ensures s.slots[i] in s.fdToId
    ensures var s', id := SendOne(s, i), s.fdToId[s.slots[i]];
            && |s'.log| == |s.log| + 1 && s.log <= s'.log && s'.log[|s.log|].Delivered? && s'.log[|s.log|].id == id
            && (GoesHome(s'.log, |s.log|) <==> id in s.idToFd && s.idToFd[id] == s.slots[i])
  {
    var s' := SendOne(s, i);
    var id := s.fdToId[s.slots[i]];
    assert AgreesAt(s, id, []);
    assert s'.log[..|s.log|] == s.log;
  }

  /** Only a writable connection gets deliveries. */
  lemma OthersAreQuiet(s: Srv, input: Input)
    requires Possible(s, input) && NamesAreBound(s) && !input.Writable?
    ensures NamesAreBound(Step(s, input)) && GrowsQuietly(s.log, Step(s, input).log)
  {
    hide NamesAreBound, PushAll, ParseTcp;
    match input
    case Accept(fd) => SameNames(s, AddCon(s, fd));
    case Receive(i, chunk) =>
      if chunk != [] {
        var fd := s.slots[i];
        var s1 := s.(rBuffer := s.rBuffer[fd := Buffered(s, fd) + chunk]);
        SameNames(s, s1);
        ParseKeepsNames(s1, fd, i);
      }
    case HangUp(i) =>
      var s1 := s.(empties := s.empties + [i]);
      SameNames(s, s1);
      DisconnectKeepsNames(s1, i, s.slots[i] in s.fdToId);
    case Datagram(w) => SameNames(s, FanOut(s, w));
  }

  lemma StepGoesHome(s: Srv, input: Input, evenEmpty: bool)
    requires Slots(s) && Agrees(s) && Offered(s, input) && NamesAreBound(s) && (evenEmpty ==> Inverse(s))
    requires AllGoHome(s.log, evenEmpty)
    ensures NamesAreBound(Next(s, input)) && AllGoHome(Next(s, input).log, evenEmpty)
  {
    StepKeepsSlots(s, input);
    hide Slots, Agrees, NamesAreBound, AllGoHome, Offered, Inverse, ReceiveChunk, AddCon, FanOut, HangUpSlot;
    if input.Writable? {
      if SendOne(s, input.i) != s { WritableGoesHome(s, input.i, evenEmpty); }
    } else {
      OthersAreQuiet(s, input);
      QuietGoesHome(s.log, Next(s, input).log, evenEmpty);
    }
  }

  lemma WritableGoesHome(s: Srv, i: nat, evenEmpty: bool)
    requires Agrees(s) && i < |s.slots| && SendOne(s, i) != s && NamesAreBound(s) && (evenEmpty ==> Inverse(s))
    requires AllGoHome(s.log, evenEmpty)
    ensures NamesAreBound(SendOne(s, i)) && AllGoHome(SendOne(s, i).log, evenEmpty)
  {
    SendGoesHome(s, i);
    var log, log' := s.log, SendOne(s, i).log;
    hide Agrees, SendOne;
    forall k | 0 <= k < |log'| && log'[k].Delivered? && (evenEmpty || log'[k].id != []) ensures GoesHome(log', k) {
      if k < |log| {
        assert log'[k] == log[k] && log'[..k] == log[..k];
        assert GoesHome(log, k);
      }
    }
  }

  lemma {:induction false} RunGoesHome(s: Srv, inputs: seq<Input>, evenEmpty: bool)
    requires Slots(s) && Agrees(s) && AllOffered(s, inputs) && NamesAreBound(s) && AllGoHome(s.log, evenEmpty)
    requires evenEmpty ==> Table(s) && AllClean(s, inputs)
    ensures AllGoHome(Run(s, inputs).log, evenEmpty)
    decreases |inputs|
  {
    hide Slots, Agrees, NamesAreBound, AllGoHome, Offered, CleanInput, Step, BoundAreLive, Inverse;
    if inputs != [] {
      StepKeepsSlots(s, inputs[0]);
      StepAgrees(s, inputs[0]);
      StepGoesHome(s, inputs[0], evenEmpty);
      if evenEmpty { StepKeepsTableExactly(s, inputs[0]); }
      RunGoesHome(Next(s, inputs[0]), inputs[1..], evenEmpty);
    }
  }

  /** On every run each delivery to an identifier other than the empty one goes to the descriptor that the identifier
      is bound to at that time; on clean runs those to the empty one do so too. */
  lemma EveryDelivery(sdTcp: int, sdUdp: int, inputs: seq<Input>)
    requires sdTcp >= 0 && sdUdp >= 0 && sdTcp != sdUdp
    requires AllOffered(Start(sdTcp, sdUdp), inputs)
    ensures AllGoHome(Run(Start(sdTcp, sdUdp), inputs).log, AllClean(Start(sdTcp, sdUdp), inputs))
  {
    var s := Start(sdTcp, sdUdp);
    forall id: Id, topic: Topic ensures AgreesAt(s, id, topic) { }
    RunGoesHome(s, inputs, AllClean(s, inputs));
  }

  // ----- subscribers that keep to the protocol ------------------------------------------------

  /** What a subscriber sends on one connection: TCP_CONNECT once and first, then subscriptions and
      unsubscriptions. `bound` says that the TCP_CONNECT was already taken off the stream. */
  predicate LegalStream(bound: bool, stream: Bytes)
    decreases |stream|
  {
    stream == [] ||
    (&& SizeOf(stream[0]).Some?
     && (stream[0] == TCP_CONNECT <==> !bound)
     && (Complete(stream) ==> WellFormed(First(stream)) && LegalStream(true, Rest(stream))))
  }

  lemma {:induction false} LegalIsTolerable(bound: bool, stream: Bytes)
    requires LegalStream(bound, stream)
    ensures Tolerable(stream) && ValidStream(stream)
    decreases |stream|
  {
    if stream != [] && Complete(stream) { LegalIsTolerable(true, Rest(stream)); }
  }

  /** Such a stream is clean from the start of the connection on, accepted or not. */
  lemma {:induction false} LegalIsClean(taken: set<Id>, stage: Stage, stream: Bytes)
    requires LegalStream(!stage.Fresh?, stream)
    ensures Tolerable(stream) && Clean(taken, stage, stream)
    decreases |stream|
  {
    LegalIsTolerable(!stage.Fresh?, stream);
    if stream != [] && Complete(stream) {
      var msg := Decode(First(stream));
      if stage.Fresh? {
        LegalIsClean(taken, Closed, Rest(stream));
        LegalIsClean(taken + {msg.id}, Bound(msg.id), Rest(stream));
      } else {
        LegalIsClean(taken, stage, Rest(stream));
      }
    }
  }

  // ----- slots that are never used again -------------------------------------------------------

  /** A closed connection slot that is not in the free list. */
  predicate Leaked(s: Srv, i: nat) {
    2 <= i < |s.slots| && s.slots[i] == -1 && i !in s.empties
  }

  /** The parser closes the connection: it meets a byte that starts no message, before the identifier a message
      other than TCP_CONNECT, or a TCP_CONNECT with an identifier in use. */
  predicate Closes(taken: set<Id>, bound: bool, stream: Bytes)
    requires Tolerable(stream)
    decreases |stream|
  {
    if stream == [] then false
    else if SizeOf(stream[0]).None? then true
    else if !Complete(stream) then false
    else if stream[0] != TCP_CONNECT then !bound || Closes(taken, true, Rest(stream))
    else
      var id := Decode(First(stream)).id;
      id in taken || Closes(taken + {id}, true, Rest(stream))
  }

  predicate Closing(s: Srv, input: Input)
    requires Offered(s, input)
  {
    input.Receive? && input.chunk != [] &&
    Closes(s.idToFd.Keys, s.slots[input.i] in s.fdToId, Buffered(s, s.slots[input.i]) + input.chunk)
  }

  /** What a message of an open connection does to its slot and its identifier. */
  lemma HandleSlot(s: Srv, fd: int, i: nat, msg: Msg)
    requires i < |s.slots| && s.slots[i] == fd >= 0 && (msg.Connect? || fd in s.fdToId)
    ensures var s' := HandleMsg(s, fd, i, msg);
            && Buffered(s', fd) == Buffered(s, fd)
            && (msg.Connect? && msg.id in s.idToFd ==> s'.slots == s.slots[i := -1])
            && (msg.Connect? && msg.id !in s.idToFd ==>
                  s'.slots == s.slots && s'.idToFd.Keys == s.idToFd.Keys + {msg.id} && fd in s'.fdToId)
            && (!msg.Connect? ==> s'.slots == s.slots && s'.idToFd == s.idToFd && s'.fdToId == s.fdToId)
  {
    hide WithSubscribers, SubscribersOf;
  }

  lemma {:induction false} ParseCloses(s: Srv, fd: int, i: nat)
    requires i < |s.slots| && fd >= 0 && s.slots[i] == fd
    requires Buffered(s, fd) != [] && Tolerable(Buffered(s, fd))
    ensures |ParseTcp(s, fd, i).slots| == |s.slots|
    ensures ParseTcp(s, fd, i).slots[i] == -1 <==> Closes(s.idToFd.Keys, fd in s.fdToId, Buffered(s, fd))
    decreases |Buffered(s, fd)|
  {
    var buf := Buffered(s, fd);
    ParseSlots(s, fd, i);
    if SizeOf(buf[0]).None? {
      var s1 := Disconnect(s.(rBuffer := s.rBuffer[fd := buf[1..]]), i, fd in s.fdToId);
      if buf[1..] != [] { ParseSlots(s1, fd, i); }
    } else if Complete(buf) && (buf[0] == TCP_CONNECT || fd in s.fdToId) {
      var s0 := s.(rBuffer := s.rBuffer[fd := Rest(buf)]);
      var msg := Decode(First(buf));
      HandleSlot(s0, fd, i, msg);
      hide HandleMsg;
      var s1 := HandleMsg(s0, fd, i, msg);
      if Rest(buf) != [] {
        if s1.slots[i] == fd { ParseCloses(s1, fd, i); } else { ParseSlots(s1, fd, i); }
      }
    }
  }

  /** An input makes a slot leak exactly when it makes the parser close its connection; no other step does, and a
      leaked slot stays so. */
  lemma StepLeaksExactly(s: Srv, input: Input, j: nat)
    requires Slots(s) && Offered(s, input)
    ensures Leaked(Next(s, input), j) <==> Leaked(s, j) || (Closing(s, input) && input.i == j)
  {
    match input
    case Accept(fd) => AddConSlots(s, fd, if s.empties != [] then s.empties[0] else |s.slots|);
    case Receive(i, chunk) =>
      if chunk != [] {
        var fd := s.slots[i];
        var s1 := s.(rBuffer := s.rBuffer[fd := Buffered(s, fd) + chunk]);
        ParseSlots(s1, fd, i);
        ParseCloses(s1, fd, i);
      }
    case HangUp(i) =>
    case Datagram(w) =>
    case Writable(i) =>
  }

  /** The parser closes the connection of slot j somewhere on the run. */
  ghost predicate ClosesOnRun(s: Srv, inputs: seq<Input>, j: nat)
    requires Slots(s) && AllOffered(s, inputs)
    decreases |inputs|
  {
    inputs != [] &&
    ((Closing(s, inputs[0]) && inputs[0].i == j) || ClosesOnRun(Next(s, inputs[0]), inputs[1..], j))
  }

  /** The slots that are never used again, although the free list is there so that places are reused, are exactly
      those whose connection the parser closed. */
  lemma {:induction false} RunLeaksExactly(s: Srv, inputs: seq<Input>, j: nat)
    requires Slots(s) && AllOffered(s, inputs)
    ensures Leaked(Run(s, inputs), j) <==> Leaked(s, j) || ClosesOnRun(s, inputs, j)
    decreases |inputs|
  {
    hide Slots, Offered, Step, Closing, Leaked;
    if inputs != [] {
      StepLeaksExactly(s, inputs[0], j);
      RunLeaksExactly(Next(s, inputs[0]), inputs[1..], j);
    }
  }

  /** From the start on, a slot has leaked exactly when the parser closed its connection. */
  lemma EveryLeak(sdTcp: int, sdUdp: int, inputs: seq<Input>, j: nat)
    requires sdTcp >= 0 && sdUdp >= 0 && sdTcp != sdUdp
    requires AllOffered(Start(sdTcp, sdUdp), inputs)
    ensures Leaked(Run(Start(sdTcp, sdUdp), inputs), j) <==> ClosesOnRun(Start(sdTcp, sdUdp), inputs, j)
  {
    RunLeaksExactly(Start(sdTcp, sdUdp), inputs, j);
  }

  /** On a clean stream the parser closes the connection exactly at a byte that starts no message, or when the first
      message is not a TCP_CONNECT with a free identifier. */
  lemma {:induction false} CleanCloses(taken: set<Id>, stage: Stage, stream: Bytes)
    requires Tolerable(stream) && Clean(taken, stage, stream) && !stage.Closed?
    ensures Closes(taken, stage.Bound?, stream) <==>
            || !ValidStream(stream)
            || (stage.Fresh? && Complete(stream)
                && (stream[0] != TCP_CONNECT || Decode(First(stream)).id in taken))
    decreases |stream|
  {
    if Complete(stream) {
      var msg := Decode(First(stream));
      if stream[0] != TCP_CONNECT {
        if stage.Bound? { CleanCloses(taken, stage, Rest(stream)); }
      } else if msg.id !in taken {
        CleanCloses(taken + {msg.id}, Bound(msg.id), Rest(stream));
      }
    }
  }

  /** With subscribers that keep to the protocol, a connection is closed by the parser exactly when it is turned away
      because its identifier is in use. */
  lemma {:induction false} OnlyRejectionsClose(taken: set<Id>, stage: Stage, stream: Bytes)
    requires !stage.Closed? && LegalStream(stage.Bound?, stream)
    ensures Tolerable(stream)
    ensures Closes(taken, stage.Bound?, stream) <==>
            stage.Fresh? && Complete(stream) && Decode(First(stream)).id in taken
  {
    LegalIsTolerable(stage.Bound?, stream);
    LegalIsClean(taken, stage, stream);
    CleanCloses(taken, stage, stream);
  }
}
