/** The state of the publish/subscribe server and its steps, on values. */
module PubSub {
  import opened Machine
  import opened Collections
  import opened Wire

  /** What happened so far, for the statements about whole runs. */
  datatype LogEvent =
    | Up(id: Id, fd: int)
    | Down(id: Id)
    | SetFlag(id: Id, fd: int, topic: Topic, sf: bool)
    | ClearFlag(id: Id, fd: int, topic: Topic)
    | Published(topic: Topic, news: Wrapper)
    | Delivered(id: Id, fd: int, news: Wrapper)

  /** The subscribers of each topic without and with store-and-forward. */
  type Subscribers = s: seq<map<Topic, set<Id>>> | |s| == 2 witness [map[], map[]]

  /** `server_data`; `slots` is the used part of `fds`, of which `currentSize` entries are allocated. */
  datatype Srv = Srv(
    idToFd: map<Id, int>,
    fdToId: map<int, Id>,
    rBuffer: map<int, Bytes>,
    wBuffer: map<Id, seq<Wrapper>>,
    subs: Subscribers,
    slots: seq<int>,
    currentSize: nat,
    empties: seq<nat>,
    log: seq<LogEvent>)

  function Index(sf: bool): nat { if sf then 1 else 0 }

  function SubscribersOf(s: Srv, sf: bool, topic: Topic): set<Id> {
    Get(s.subs[Index(sf)], topic, {})
  }

  function Buffered(s: Srv, fd: int): Bytes { Get(s.rBuffer, fd, []) }

  function Queued(s: Srv, id: Id): seq<Wrapper> { Get(s.wBuffer, id, []) }

  // ----- connections ---------------------------------------------------------------

  /** `add_con`, when accept returned fd. */
  function AddCon(s: Srv, fd: int): Srv
    requires s.empties != [] ==> s.empties[0] < |s.slots|
  {
    var size := if |s.slots| == s.currentSize && s.empties == [] then 2 * s.currentSize else s.currentSize;
    if s.empties != [] then
      s.(currentSize := size, slots := s.slots[s.empties[0] := fd], empties := s.empties[1..])
    else s.(currentSize := size, slots := s.slots + [fd])
  }

  /** `disconnect`. The slot is marked as closed before its number is used to find the buffer to
      clear, so it is always the buffer of -1 that is cleared. */
  function Disconnect(s: Srv, i: nat, deleteId: bool): Srv
    requires i < |s.slots|
  {
    var fd := s.slots[i];
    var id := Get(s.fdToId, fd, []);
    var s1 := if deleteId then s.(idToFd := s.idToFd - {id}, fdToId := s.fdToId - {fd}, log := s.log + [Down(id)])
              else s;
    s1.(slots := s1.slots[i := -1], rBuffer := s1.rBuffer[-1 := []])
  }

  // ----- messages ------------------------------------------------------------------

  function WithSubscribers(subs: Subscribers, sf: bool, topic: Topic, ids: set<Id>): Subscribers {
    subs[Index(sf) := subs[Index(sf)][topic := ids]]
  }

  /** One complete message of the connection fd in slot i. */
  function HandleMsg(s: Srv, fd: int, i: nat, msg: Msg): Srv
    requires i < |s.slots|
  {
    match msg
    case Connect(id) =>
      if id in s.idToFd then Disconnect(s, i, false)
      else s.(idToFd := s.idToFd[id := fd], fdToId := s.fdToId[fd := id], log := s.log + [Up(id, fd)])
    case Subscribe(topic, sf) =>
      if fd !in s.fdToId then Disconnect(s, i, false)
      else
        var id := s.fdToId[fd];
        var cleared := WithSubscribers(s.subs, !sf, topic, SubscribersOf(s, !sf, topic) - {id});
        s.(subs := WithSubscribers(cleared, sf, topic, SubscribersOf(s, sf, topic) + {id}),
           log := s.log + [SetFlag(id, fd, topic, sf)])
    case Unsubscribe(topic) =>
      if fd !in s.fdToId then Disconnect(s, i, false)
      else
        var id := s.fdToId[fd];
        var cleared := WithSubscribers(s.subs, false, topic, SubscribersOf(s, false, topic) - {id});
        s.(subs := WithSubscribers(cleared, true, topic, SubscribersOf(s, true, topic) - {id}),
           log := s.log + [ClearFlag(id, fd, topic)])
  }

  /** The texts in the complete messages that the parser can meet are terminated, and flags are boolean. */
  predicate Tolerable(stream: Bytes)
    decreases |stream|
  {
    if stream == [] then true
    else if SizeOf(stream[0]).None? then Tolerable(stream[1..])
    else if Complete(stream) then WellFormed(First(stream)) && Tolerable(Rest(stream))
    else true
  }

  /** `parse_tcp_buffer`. */
  function ParseTcp(s: Srv, fd: int, i: nat): Srv
    requires i < |s.slots| && fd >= 0 && Buffered(s, fd) != [] && Tolerable(Buffered(s, fd))
    decreases |Buffered(s, fd)|
  {
    var buf := Buffered(s, fd);
    if SizeOf(buf[0]).None? then
      var s1 := Disconnect(s.(rBuffer := s.rBuffer[fd := buf[1..]]), i, fd in s.fdToId);
      if buf[1..] == [] then s1 else ParseTcp(s1, fd, i)
    else if !Complete(buf) then s
    else if buf[0] != TCP_CONNECT && fd !in s.fdToId then
      Disconnect(s.(rBuffer := s.rBuffer[fd := buf[1..]]), i, false)
    else
      var s1 := HandleMsg(s.(rBuffer := s.rBuffer[fd := Rest(buf)]), fd, i, Decode(First(buf)));
      if Rest(buf) == [] then s1 else ParseTcp(s1, fd, i)
  }

  // ----- news ----------------------------------------------------------------------

  /** The topic of a datagram: its first 50 bytes up to a zero. */
  function TopicOf(w: Wrapper): Topic
    requires ProperWrapper(w)
  {
    CString(w.news[..50])
  }

  /** One more message at the end of the queues of some subscribers. */
  function PushAll(m: map<Id, seq<Wrapper>>, ids: set<Id>, w: Wrapper): map<Id, seq<Wrapper>> {
    map id | id in m.Keys + ids :: if id in ids then Get(m, id, []) + [w] else m[id]
  }

  /** The fan-out of one datagram: first the connected subscribers without store-and-forward, then all with it. */
  function FanOut(s: Srv, w: Wrapper): Srv
    requires ProperWrapper(w)
  {
    var topic := TopicOf(w);
    var first := PushAll(s.wBuffer, SubscribersOf(s, false, topic) * s.idToFd.Keys, w);
    s.(wBuffer := PushAll(first, SubscribersOf(s, true, topic), w), log := s.log + [Published(topic, w)])
  }

  // ----- the event loop --------------------------------------------------------------

  datatype Input =
    | Accept(fd: int)
    | Receive(i: nat, chunk: Bytes)
    | HangUp(i: nat)
    | Datagram(news: Wrapper)
    | Writable(i: nat)

  /** What the operating system and the event loop guarantee about an input. */
  predicate Possible(s: Srv, input: Input) {
    match input
    case Accept(fd) => fd >= 0 && (s.empties != [] ==> s.empties[0] < |s.slots|)
    case Receive(i, chunk) => i < |s.slots| && s.slots[i] >= 0 && Tolerable(Buffered(s, s.slots[i]) + chunk)
    case HangUp(i) => i < |s.slots| && s.slots[i] >= 0
    case Datagram(w) => ProperWrapper(w)
    case Writable(i) => i < |s.slots|
  }

  /** The bytes that recv returned, appended to the connection's buffer and parsed. */
  function ReceiveChunk(s: Srv, i: nat, chunk: Bytes): Srv
    requires Possible(s, Receive(i, chunk))
  {
    var fd := s.slots[i];
    if chunk == [] then s
    else ParseTcp(s.(rBuffer := s.rBuffer[fd := Buffered(s, fd) + chunk]), fd, i)
  }

  /** The connection in slot i was closed by its peer. */
  function HangUpSlot(s: Srv, i: nat): Srv
    requires i < |s.slots|
  {
    Disconnect(s.(empties := s.empties + [i]), i, s.slots[i] in s.fdToId)
  }

  /** The connection in slot i can take one message. */
  function SendOne(s: Srv, i: nat): Srv
    requires i < |s.slots|
  {
    var fd := s.slots[i];
    if fd < 0 || fd !in s.fdToId then s
    else
      var id := s.fdToId[fd];
      var q := Queued(s, id);
      if q == [] then s
      else s.(wBuffer := s.wBuffer[id := q[1..]], log := s.log + [Delivered(id, fd, q[0])])
  }

  function Step(s: Srv, input: Input): Srv
    requires Possible(s, input)
  {
    match input
    case Accept(fd) => AddCon(s, fd)
    case Receive(i, chunk) => ReceiveChunk(s, i, chunk)
    case HangUp(i) => HangUpSlot(s, i)
    case Datagram(w) => FanOut(s, w)
    case Writable(i) => SendOne(s, i)
  }
}
