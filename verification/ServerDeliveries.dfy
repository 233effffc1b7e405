/** That the server does what its inputs ask for: news are published and delivered, places are reused. */
module ServerDeliveries {
  import opened Machine
  import opened Collections
  import opened Wire
  import opened PubSub
  import opened ServerRuns

  // ----- deliveries -----------------------------------------------------------------------

  /** A writable connection gets the first of the news that wait for its identifier, and nothing else changes. */
  lemma WritableGetsFirst(s: Srv, i: nat, x: Id, topic: Topic)
    requires i < |s.slots| && s.slots[i] >= 0 && s.slots[i] in s.fdToId
    requires Queued(s, s.fdToId[s.slots[i]]) != []
    ensures var fd := s.slots[i];
            var id := s.fdToId[fd];
            var s', q := SendOne(s, i), Queued(s, id);
            && s'.log == s.log + [Delivered(id, fd, q[0])]
            && DeliveredTo(s'.log, id) == DeliveredTo(s.log, id) + [q[0]] && Queued(s', id) == q[1..]
            && (x != id ==> DeliveredTo(s'.log, x) == DeliveredTo(s.log, x) && Queued(s', x) == Queued(s, x))
            && s'.slots == s.slots && s'.fdToId == s.fdToId && s'.idToFd == s.idToFd && s'.subs == s.subs
  {
    var id := s.fdToId[s.slots[i]];
    LogPush(s.log, Delivered(id, s.slots[i], Queued(s, id)[0]), id, topic);
    LogPush(s.log, Delivered(id, s.slots[i], Queued(s, id)[0]), x, topic);
    hide DeliveredTo;
  }

  /** What was handed to send for the identifier, then what waits. */
  function Total(s: Srv, id: Id): seq<Wrapper> { DeliveredTo(s.log, id) + Queued(s, id) }

  lemma DisconnectSendsNothing(s: Srv, i: nat, deleteId: bool, id: Id)
    requires i < |s.slots|
    ensures var s' := Disconnect(s, i, deleteId);
            DeliveredTo(s'.log, id) == DeliveredTo(s.log, id) && s'.wBuffer == s.wBuffer
  {
    if deleteId { LogPush(s.log, Down(Get(s.fdToId, s.slots[i], [])), id, []); }
  }

  lemma HandleSendsNothing(s: Srv, fd: int, i: nat, msg: Msg, id: Id)
    requires i < |s.slots| && (msg.Connect? || fd in s.fdToId)
    ensures var s' := HandleMsg(s, fd, i, msg);
            DeliveredTo(s'.log, id) == DeliveredTo(s.log, id) && s'.wBuffer == s.wBuffer
  {
    hide DeliveredTo, WithSubscribers, SubscribersOf;
    match msg
    case Connect(x) =>
      if x in s.idToFd { DisconnectSendsNothing(s, i, false, id); } else { LogPush(s.log, Up(x, fd), id, []); }
    case Subscribe(topic, sf) => LogPush(s.log, SetFlag(s.fdToId[fd], fd, topic, sf), id, []);
    case Unsubscribe(topic) => LogPush(s.log, ClearFlag(s.fdToId[fd], fd, topic), id, []);
  }

  lemma {:induction false} ParseSendsNothing(s: Srv, fd: int, i: nat, id: Id)
    requires i < |s.slots| && fd >= 0 && Buffered(s, fd) != [] && Tolerable(Buffered(s, fd))
    ensures var s' := ParseTcp(s, fd, i);
            DeliveredTo(s'.log, id) == DeliveredTo(s.log, id) && s'.wBuffer == s.wBuffer
    decreases |Buffered(s, fd)|
  {
    var buf := Buffered(s, fd);
    hide DeliveredTo, WithSubscribers, SubscribersOf;
    if SizeOf(buf[0]).None? {
      var s0 := s.(rBuffer := s.rBuffer[fd := buf[1..]]);
      DisconnectSendsNothing(s0, i, fd in s.fdToId, id);
      if buf[1..] != [] { ParseSendsNothing(Disconnect(s0, i, fd in s.fdToId), fd, i, id); }
    } else if Complete(buf) {
      if buf[0] != TCP_CONNECT && fd !in s.fdToId {
        DisconnectSendsNothing(s.(rBuffer := s.rBuffer[fd := buf[1..]]), i, false, id);
      } else {
        var s0 := s.(rBuffer := s.rBuffer[fd := Rest(buf)]);
        var msg := Decode(First(buf));
        HandleSendsNothing(s0, fd, i, msg, id);
        if Rest(buf) != [] { ParseSendsNothing(HandleMsg(s0, fd, i, msg), fd, i, id); }
      }
    }
  }

  lemma FanOutQueues(s: Srv, w: Wrapper, id: Id)
    requires ProperWrapper(w)
    ensures Queued(s, id) <= Queued(FanOut(s, w), id)
    ensures DeliveredTo(FanOut(s, w).log, id) == DeliveredTo(s.log, id)
  {
    LogPush(s.log, Published(TopicOf(w), w), id, []);
    hide DeliveredTo;
  }

  lemma QuietTotal(s: Srv, s': Srv, id: Id)
    requires DeliveredTo(s'.log, id) == DeliveredTo(s.log, id) && s'.wBuffer == s.wBuffer
    ensures Total(s', id) == Total(s, id)
  {
  }

  /** No step takes news back, drops one from a queue without handing it to send, or changes their order. */
  lemma StepAddsToTotal(s: Srv, input: Input, id: Id)
    requires Slots(s) && Offered(s, input)
    ensures Total(s, id) <= Total(Next(s, input), id)
    ensures DeliveredTo(s.log, id) <= DeliveredTo(Next(s, input).log, id)
  {
    StepKeepsSlots(s, input);
    hide DeliveredTo, Slots, PushAll, ParseTcp, SendOne;
    match input
    case Accept(fd) =>
    case Receive(i, chunk) =>
      if chunk != [] {
        var fd := s.slots[i];
        ParseSendsNothing(s.(rBuffer := s.rBuffer[fd := Buffered(s, fd) + chunk]), fd, i, id);
      }
    case HangUp(i) => DisconnectSendsNothing(s.(empties := s.empties + [i]), i, s.slots[i] in s.fdToId, id);
    case Datagram(w) => FanOutQueues(s, w, id);
    case Writable(i) => SendAddsToTotal(s, i, id);
  }

  lemma SendAddsToTotal(s: Srv, i: nat, id: Id)
    requires i < |s.slots|
    ensures Total(s, id) <= Total(SendOne(s, i), id)
    ensures DeliveredTo(s.log, id) <= DeliveredTo(SendOne(s, i).log, id)
  {
    hide DeliveredTo;
    if SendOne(s, i) != s {
      WritableGetsFirst(s, i, id, []);
      if id == s.fdToId[s.slots[i]] {
        var q := Queued(s, id);
        assert (DeliveredTo(s.log, id) + [q[0]]) + q[1..] == DeliveredTo(s.log, id) + q;
      }
    }
  }

  /** How often slot i is writable. */
  function Writables(inputs: seq<Input>, i: nat): nat {
    if inputs == [] then 0 else (if inputs[0] == Writable(i) then 1 else 0) + Writables(inputs[1..], i)
  }

  /** The connection in slot i has the identifier. */
  predicate HasName(s: Srv, i: nat, id: Id) {
    i < |s.slots| && s.slots[i] >= 0 && s.slots[i] in s.fdToId && s.fdToId[s.slots[i]] == id
  }

  ghost predicate NamedThroughout(s: Srv, inputs: seq<Input>, i: nat, id: Id)
    requires Slots(s) && AllOffered(s, inputs)
    decreases |inputs|
  {
    HasName(s, i, id) && (inputs != [] ==> NamedThroughout(Next(s, inputs[0]), inputs[1..], i, id))
  }

  lemma {:induction false} DueIsDelivered(s: Srv, inputs: seq<Input>, i: nat, id: Id, due: seq<Wrapper>)
    requires Slots(s) && AllOffered(s, inputs) && NamedThroughout(s, inputs, i, id)
    requires due <= Total(s, id) && |due| <= |DeliveredTo(s.log, id)| + Writables(inputs, i)
    ensures due <= DeliveredTo(Run(s, inputs).log, id)
    decreases |inputs|
  {
    hide Slots, Offered, DeliveredTo;
    if inputs == [] {
      assert due == Total(s, id)[..|due|] == DeliveredTo(s.log, id)[..|due|];
    } else {
      var s1 := Next(s, inputs[0]);
      StepAddsToTotal(s, inputs[0], id);
      assert due <= Total(s1, id);
      if |due| <= |DeliveredTo(s.log, id)| {
        DueIsDelivered(s1, inputs[1..], i, id, due);
      } else {
        if inputs[0] == Writable(i) { OneMoreDelivered(s, i, id, |due|); }
        DueIsDelivered(s1, inputs[1..], i, id, due);
      }
    }
  }

  lemma OneMoreDelivered(s: Srv, i: nat, id: Id, n: nat)
    requires Slots(s) && Offered(s, Writable(i)) && HasName(s, i, id)
    requires |DeliveredTo(s.log, id)| < n <= |Total(s, id)|
    ensures |DeliveredTo(Next(s, Writable(i)).log, id)| == |DeliveredTo(s.log, id)| + 1
  {
    WritableGetsFirst(s, i, id, []);
    hide Slots, DeliveredTo;
  }

  /** What waits for an identifier is handed to send, in order, once its connection was writable as often as there are
      news waiting, whatever happens in between. */
  lemma EventuallyDelivered(s: Srv, inputs: seq<Input>, i: nat, id: Id)
    requires Slots(s) && AllOffered(s, inputs) && NamedThroughout(s, inputs, i, id)
    requires Writables(inputs, i) >= |Queued(s, id)|
    ensures Total(s, id) <= DeliveredTo(Run(s, inputs).log, id)
  {
    DueIsDelivered(s, inputs, i, id, Total(s, id));
  }

  /** n times writable. */
  function TimesWritable(i: nat, n: nat): seq<Input> {
    if n == 0 then [] else [Writable(i)] + TimesWritable(i, n - 1)
  }

  /** If nothing else happens, the queue is empty then, and all that was expected was handed to send. */
  lemma {:induction false} WritableDrains(s: Srv, i: nat, id: Id, n: nat)
    requires Slots(s) && Agrees(s) && HasName(s, i, id) && n == |Queued(s, id)|
    ensures AllOffered(s, TimesWritable(i, n))
    ensures var s' := Run(s, TimesWritable(i, n));
            Queued(s', id) == [] && DeliveredTo(s'.log, id) == Expected(s'.log, id)
    decreases n
  {
    hide Slots, DeliveredTo, Expected;
    if n == 0 {
      assert AgreesAt(s, id, []);
      assert DeliveredTo(s.log, id) + [] == DeliveredTo(s.log, id);
    } else {
      var s1 := Next(s, Writable(i));
      StepKeepsSlots(s, Writable(i));
      StepAgrees(s, Writable(i));
      WritableGetsFirst(s, i, id, []);
      hide Agrees, Step;
      WritableDrains(s1, i, id, n - 1);
      assert TimesWritable(i, n)[1..] == TimesWritable(i, n - 1);
    }
  }

  // ----- news -------------------------------------------------------------------------------

  /** The topic of a datagram that starts with a text of at most 50 bytes, ended by a zero if it is shorter. */
  lemma TopicOfText(w: Wrapper, text: Bytes)
    requires ProperWrapper(w) && 0 !in text && |text| <= 50
    requires w.news[..|text|] == text && (|text| < 50 ==> w.news[|text|] == 0)
    ensures TopicOf(w) == text
  {
    CStringOfText(w.news[..50], text);
  }

  /** The news that the inputs bring, with their topics. */
  function NewsIn(inputs: seq<Input>): seq<(Topic, Wrapper)> {
    if inputs == [] then []
    else
      (match inputs[0]
       case Datagram(w) => if ProperWrapper(w) then [(TopicOf(w), w)] else []
       case _ => [])
      + NewsIn(inputs[1..])
  }

  function PublishedIn(log: seq<LogEvent>): seq<(Topic, Wrapper)> {
    if log == [] then []
    else
      var front, e := PublishedIn(log[..|log| - 1]), log[|log| - 1];
      if e.Published? then front + [(e.topic, e.news)] else front
  }

  lemma PublishedPush(log: seq<LogEvent>, e: LogEvent)
    ensures PublishedIn(log + [e]) == if e.Published? then PublishedIn(log) + [(e.topic, e.news)] else PublishedIn(log)
  {
  }

  lemma DisconnectPublishesNothing(s: Srv, i: nat, deleteId: bool)
    requires i < |s.slots|
    ensures PublishedIn(Disconnect(s, i, deleteId).log) == PublishedIn(s.log)
  {
    if deleteId { PublishedPush(s.log, Down(Get(s.fdToId, s.slots[i], []))); }
  }

  lemma HandlePublishesNothing(s: Srv, fd: int, i: nat, msg: Msg)
    requires i < |s.slots| && (msg.Connect? || fd in s.fdToId)
    ensures PublishedIn(HandleMsg(s, fd, i, msg).log) == PublishedIn(s.log)
  {
    hide PublishedIn, WithSubscribers, SubscribersOf;
    match msg
    case Connect(x) =>
      if x in s.idToFd { DisconnectPublishesNothing(s, i, false); } else { PublishedPush(s.log, Up(x, fd)); }
    case Subscribe(topic, sf) => PublishedPush(s.log, SetFlag(s.fdToId[fd], fd, topic, sf));
    case Unsubscribe(topic) => PublishedPush(s.log, ClearFlag(s.fdToId[fd], fd, topic));
  }

  lemma {:induction false} ParsePublishesNothing(s: Srv, fd: int, i: nat)
    requires i < |s.slots| && fd >= 0 && Buffered(s, fd) != [] && Tolerable(Buffered(s, fd))
    ensures PublishedIn(ParseTcp(s, fd, i).log) == PublishedIn(s.log)
    decreases |Buffered(s, fd)|
  {
    var buf := Buffered(s, fd);
    hide PublishedIn, WithSubscribers, SubscribersOf;
    if SizeOf(buf[0]).None? {
      var s0 := s.(rBuffer := s.rBuffer[fd := buf[1..]]);
      DisconnectPublishesNothing(s0, i, fd in s.fdToId);
      if buf[1..] != [] { ParsePublishesNothing(Disconnect(s0, i, fd in s.fdToId), fd, i); }
    } else if Complete(buf) {
      if buf[0] != TCP_CONNECT && fd !in s.fdToId {
        DisconnectPublishesNothing(s.(rBuffer := s.rBuffer[fd := buf[1..]]), i, false);
      } else {
        var s0 := s.(rBuffer := s.rBuffer[fd := Rest(buf)]);
        var msg := Decode(First(buf));
        HandlePublishesNothing(s0, fd, i, msg);
        if Rest(buf) != [] { ParsePublishesNothing(HandleMsg(s0, fd, i, msg), fd, i); }
      }
    }
  }

  lemma AcceptLogsNothing(s: Srv, fd: int)
    requires Slots(s) && Offered(s, Accept(fd))
    ensures Next(s, Accept(fd)).log == s.log
  {
    hide Slots;
  }

  lemma StepPublishesInput(s: Srv, input: Input)
    requires Slots(s) && Offered(s, input)
    ensures PublishedIn(Next(s, input).log) == PublishedIn(s.log) + NewsIn([input])
  {
    StepKeepsSlots(s, input);
    assert [input][1..] == [];
    hide PublishedIn, Slots, PushAll, ParseTcp, SendOne, AddCon;
    match input
    case Accept(fd) => AcceptLogsNothing(s, fd);
    case Receive(i, chunk) =>
      if chunk != [] {
        var fd := s.slots[i];
        ParsePublishesNothing(s.(rBuffer := s.rBuffer[fd := Buffered(s, fd) + chunk]), fd, i);
      }
    case HangUp(i) => DisconnectPublishesNothing(s.(empties := s.empties + [i]), i, s.slots[i] in s.fdToId);
    case Datagram(w) => PublishedPush(s.log, Published(TopicOf(w), w));
    case Writable(i) => SendPublishesNothing(s, i);
  }

  lemma SendPublishesNothing(s: Srv, i: nat)
    requires i < |s.slots|
    ensures PublishedIn(SendOne(s, i).log) == PublishedIn(s.log)
  {
    hide PublishedIn;
    if SendOne(s, i) != s {
      var id := s.fdToId[s.slots[i]];
      PublishedPush(s.log, Delivered(id, s.slots[i], Queued(s, id)[0]));
    }
  }

  lemma OneInputNews(inputs: seq<Input>)
    requires inputs != []
    ensures NewsIn(inputs) == NewsIn([inputs[0]]) + NewsIn(inputs[1..])
  {
    assert [inputs[0]][1..] == [];
  }

  /** On every run exactly the datagrams that came in are published, in order, under their topics. */
  lemma {:induction false} RunPublishesInputs(s: Srv, inputs: seq<Input>)
    requires Slots(s) && AllOffered(s, inputs)
    ensures PublishedIn(Run(s, inputs).log) == PublishedIn(s.log) + NewsIn(inputs)
    decreases |inputs|
  {
    hide Slots, Offered, Next, PublishedIn;
    if inputs != [] {
      StepPublishesInput(s, inputs[0]);
      RunPublishesInputs(Next(s, inputs[0]), inputs[1..]);
      OneInputNews(inputs);
      Collections.Associate(PublishedIn(s.log), NewsIn([inputs[0]]), NewsIn(inputs[1..]));
    }
  }

  // ----- places ---------------------------------------------------------------------------------

  /** A new connection takes the place that has been free for longest, or a new one if there is none. */
  lemma AcceptTakesPlace(s: Srv, fd: int, j: nat)
    requires Slots(s) && Offered(s, Accept(fd)) && j < |Next(s, Accept(fd)).slots| && Next(s, Accept(fd)).slots[j] == fd
    ensures if s.empties == [] then j == |s.slots| && Next(s, Accept(fd)).empties == []
            else j < |s.slots| && s.empties == [j] + Next(s, Accept(fd)).empties
  {
    AddConSlots(s, fd, if s.empties != [] then s.empties[0] else |s.slots|);
  }

  /** The place of an open descriptor. */
  ghost function PlaceOf(s: Srv, fd: int): (j: nat)
    requires fd in s.slots
    ensures j < |s.slots| && s.slots[j] == fd
  {
    var j :| 0 <= j < |s.slots| && s.slots[j] == fd;
    j
  }

  lemma AcceptedIsOpen(s: Srv, fd: int)
    requires Slots(s) && Offered(s, Accept(fd))
    ensures fd in Next(s, Accept(fd)).slots
  {
    AddConSlots(s, fd, if s.empties != [] then s.empties[0] else |s.slots|);
  }

  /** The place, if it is not a new one, that an accepted connection takes. */
  ghost function ReusedBy(s: Srv, input: Input): seq<nat>
    requires Slots(s) && Offered(s, input)
  {
    match input
    case Accept(fd) =>
      AcceptedIsOpen(s, fd);
      var place := PlaceOf(Next(s, input), fd);
      if place < |s.slots| then [place] else []
    case _ => []
  }

  /** The places, not new ones, that the connections accepted on a run take. */
  ghost function Reused(s: Srv, inputs: seq<Input>): seq<nat>
    requires Slots(s) && AllOffered(s, inputs)
    decreases |inputs|
  {
    if inputs == [] then [] else ReusedBy(s, inputs[0]) + Reused(Next(s, inputs[0]), inputs[1..])
  }

  /** The places where connections hang up. */
  function HungUp(inputs: seq<Input>): seq<nat> {
    if inputs == [] then [] else (if inputs[0].HangUp? then [inputs[0].i] else []) + HungUp(inputs[1..])
  }

  lemma OthersKeepFree(s: Srv, input: Input)
    requires Slots(s) && Offered(s, input) && !input.Accept?
    ensures Next(s, input).empties == s.empties + HungUp([input])
  {
    assert [input][1..] == [];
    match input
    case Receive(i, chunk) =>
      if chunk != [] {
        var d := s.slots[i];
        ParseSlots(s.(rBuffer := s.rBuffer[d := Buffered(s, d) + chunk]), d, i);
      }
    case HangUp(i) =>
    case Datagram(w) =>
    case Writable(i) =>
  }

  /** On every run places are reused in the order in which they became free. */
  lemma {:induction false} PlacesAreReusedInOrder(s: Srv, inputs: seq<Input>)
    requires Slots(s) && AllOffered(s, inputs)
    ensures s.empties + HungUp(inputs) == Reused(s, inputs) + Run(s, inputs).empties
    decreases |inputs|
  {
    hide Slots, Offered, Next;
    if inputs == [] {
      assert s.empties + [] == [] + s.empties;
    } else {
      var s' := Next(s, inputs[0]);
      PlacesAreReusedInOrder(s', inputs[1..]);
      StepReuses(s, inputs[0]);
      var taken := ReusedBy(s, inputs[0]);
      assert Reused(s, inputs) == taken + Reused(s', inputs[1..]);
      assert HungUp(inputs) == HungUp([inputs[0]]) + HungUp(inputs[1..]) by { assert [inputs[0]][1..] == []; }
      hide HungUp, ReusedBy, Reused, Run;
      Collections.Associate(s.empties, HungUp([inputs[0]]), HungUp(inputs[1..]));
      Collections.Associate(taken, s'.empties, HungUp(inputs[1..]));
      Collections.Associate(taken, Reused(s', inputs[1..]), Run(s', inputs[1..]).empties);
    }
  }

  lemma StepReuses(s: Srv, input: Input)
    requires Slots(s) && Offered(s, input)
    ensures s.empties + HungUp([input]) == ReusedBy(s, input) + Next(s, input).empties
  {
    hide Slots, Offered, Next;
    assert [input][1..] == [];
    if input.Accept? {
      AcceptedIsOpen(s, input.fd);
      AcceptTakesPlace(s, input.fd, PlaceOf(Next(s, input), input.fd));
    } else {
      OthersKeepFree(s, input);
    }
  }

  /** The array after k doublings. */
  function Capacity(k: nat): nat { if k == 0 then 10 else 2 * Capacity(k - 1) }

  /** The array was doubled k times, each time because it was full. */
  predicate IsTight(s: Srv, k: nat) {
    s.currentSize == Capacity(k) && (k > 0 ==> Capacity(k - 1) < |s.slots|)
  }

  lemma StepKeepsTight(s: Srv, input: Input, k: nat) returns (l: nat)
    requires Slots(s) && Offered(s, input) && IsTight(s, k)
    ensures IsTight(Next(s, input), l)
  {
    l := k;
    match input
    case Accept(fd) => if |s.slots| == s.currentSize && s.empties == [] { l := k + 1; }
    case Receive(i, chunk) =>
      if chunk != [] {
        var d := s.slots[i];
        ParseSlots(s.(rBuffer := s.rBuffer[d := Buffered(s, d) + chunk]), d, i);
      }
    case HangUp(i) =>
    case Datagram(w) =>
    case Writable(i) =>
  }

  /** On every run the array has 10 places or the fewest doublings of that which its slots needed. */
  lemma {:induction false} RunKeepsTight(s: Srv, inputs: seq<Input>, k: nat) returns (l: nat)
    requires Slots(s) && AllOffered(s, inputs) && IsTight(s, k)
    ensures IsTight(Run(s, inputs), l)
    decreases |inputs|
  {
    hide Slots, Offered, Next, IsTight;
    if inputs == [] {
      l := k;
    } else {
      var m := StepKeepsTight(s, inputs[0], k);
      l := RunKeepsTight(Next(s, inputs[0]), inputs[1..], m);
    }
  }
}
