/** The server as the program runs it: `server_data` and its handlers, which
    update it in place. */
module Server {
  import opened Machine
  import opened Wrappers
  import opened Collections
  import opened Wire
  import opened PubSub

  const INITIAL_CON_COUNT: nat := 10

  class Server {
    var idToFd: map<Id, int>
    var fdToId: map<int, Id>
    var rBuffer: map<int, Bytes>
    var wBuffer: map<Id, seq<Wrapper>>
    var subs: Subscribers
    var fds: array<int>
    var nfds: nat
    var empties: seq<nat>
    ghost var log: seq<LogEvent>

    ghost predicate Valid()
      reads this
    {
      nfds <= fds.Length && 0 < fds.Length && forall k | 0 <= k < |empties| :: empties[k] < nfds
    }

    ghost function State(): Srv
      reads this, fds
      requires nfds <= fds.Length
    {
      Srv(idToFd, fdToId, rBuffer, wBuffer, subs, fds[..nfds], fds.Length, empties, log)
    }

    /** `init_tcp`, `init_udp` and `init_misc`. */
    constructor (sdTcp: int, sdUdp: int)
      ensures Valid() && fresh(fds)
      ensures State() == Srv(map[], map[], map[], map[], [map[], map[]], [sdTcp, sdUdp], INITIAL_CON_COUNT, [], [])
    {
      idToFd, fdToId, rBuffer, wBuffer := map[], map[], map[], map[];
      subs := [map[], map[]];
      empties, log := [], [];
      fds := new int[INITIAL_CON_COUNT];
      nfds := 2;
      new;
      fds[0] := sdTcp;
      fds[1] := sdUdp;
    }

    /** `add_con`, when accept returned fd. */
    method AddConnection(fd: int)
      requires Valid()
      modifies this, fds
      ensures Valid() && (fds == old(fds) || fresh(fds))
      ensures State() == AddCon(old(State()), fd)
    {
      if nfds == fds.Length && |empties| == 0 {
        Reallocate(2 * fds.Length);
      }
      var index;
      if empties != [] {
        index := empties[0];
        empties := empties[1..];
      } else {
        index := nfds;
        nfds := nfds + 1;
      }
      fds[index] := fd;
    }

    /** `realloc`: what is not copied holds arbitrary values. */
    method Reallocate(size: nat)
      requires Valid() && size >= fds.Length
      modifies this`fds
      ensures Valid() && fresh(fds) && fds.Length == size
      ensures fds[..nfds] == old(fds[..nfds])
    {
      var larger := new int[size];
      var current, n := fds, nfds;
      for k := 0 to n
        invariant larger[..k] == current[..k]
      {
        larger[k] := current[k];
      }
      fds := larger;
    }

    /** `disconnect`. */
    method DisconnectSlot(i: nat, deleteId: bool)
      requires Valid() && i < nfds
      modifies this, fds
      ensures Valid() && fds == old(fds) && nfds == old(nfds)
      ensures State() == Disconnect(old(State()), i, deleteId)
    {
      if deleteId {
        var id := Get(fdToId, fds[i], []);
        idToFd := idToFd - {id};
        fdToId := fdToId - {fds[i]};
        log := log + [Down(id)];
      }
      fds[i] := -1;
      rBuffer := rBuffer[fds[i] := []];
    }

    /** The branch for TCP_CONNECT, once the message is complete. */
    method Bind(fd: int, i: nat, id: Id)
      requires Valid() && i < nfds
      modifies this, fds
      ensures Valid() && fds == old(fds) && nfds == old(nfds)
      ensures State() == HandleMsg(old(State()), fd, i, Connect(id))
    {
      if id in idToFd {
        DisconnectSlot(i, false);
      } else {
        idToFd := idToFd[id := fd];
        fdToId := fdToId[fd := id];
        log := log + [Up(id, fd)];
      }
    }

    /** The branch for TCP_SUB, once the message is complete and its sender known. */
    method SetSubscription(fd: int, i: nat, topic: Topic, sf: bool)
      requires Valid() && i < nfds && fd in fdToId
      modifies this`subs, this`log
      ensures State() == HandleMsg(old(State()), fd, i, Subscribe(topic, sf))
    {
      var id := fdToId[fd];
      var k := (Index(sf) + 1) % 2;
      subs := subs[k := subs[k][topic := Get(subs[k], topic, {}) - {id}]];
      subs := subs[Index(sf) := subs[Index(sf)][topic := Get(subs[Index(sf)], topic, {}) + {id}]];
      log := log + [SetFlag(id, fd, topic, sf)];
    }

    /** The branch for TCP_UNSUB, once the message is complete and its sender known. */
    method ClearSubscription(fd: int, i: nat, topic: Topic)
      requires Valid() && i < nfds && fd in fdToId
      modifies this`subs, this`log
      ensures State() == HandleMsg(old(State()), fd, i, Unsubscribe(topic))
    {
      var id := fdToId[fd];
      for k := 0 to 2
        invariant |subs| == 2 && log == old(log)
        invariant subs[0] == if k > 0 then old(subs)[0][topic := Get(old(subs)[0], topic, {}) - {id}] else old(subs)[0]
        invariant subs[1] == if k > 1 then old(subs)[1][topic := Get(old(subs)[1], topic, {}) - {id}] else old(subs)[1]
      {
        subs := subs[k := subs[k][topic := Get(subs[k], topic, {}) - {id}]];
      }
      assert subs == old(subs)[0 := subs[0]][1 := subs[1]];
      log := log + [ClearFlag(id, fd, topic)];
    }

    /** The front of `parse_tcp_buffer`: the type byte and, if it is all there, the rest of the message.
        Without the rest the type byte is placed back. */
    method TakeFrame(fd: int) returns (frame: Option<Bytes>)
      requires fd in rBuffer && rBuffer[fd] != [] && SizeOf(rBuffer[fd][0]).Some?
      modifies this`rBuffer
      ensures var buf := old(rBuffer)[fd];
              if Complete(buf) then frame == Some(First(buf)) && rBuffer == old(rBuffer)[fd := Rest(buf)]
              else frame == None && rBuffer == old(rBuffer)
    {
      ghost var buf := rBuffer[fd];
      var q := new Deque(rBuffer[fd]);
      var extra := new Deque([]);
      var kind := ReadData(q, 1, extra);
      var size := SizeOf(kind[0]).value - 1;
      if |q.data| < size {
        PlaceBack(q, extra);
        assert q.data == buf;
        rBuffer := rBuffer[fd := q.data];
        return None;
      }
      var body := ReadData(q, size, extra);
      assert kind + body == First(buf) && q.data == Rest(buf);
      rBuffer := rBuffer[fd := q.data];
      return Some(kind + body);
    }

    /** `parse_tcp_buffer`. */
    method ParseTcpBuffer(fd: int, i: nat)
      requires Valid() && i < nfds && fd >= 0
      requires fd in rBuffer && rBuffer[fd] != [] && Tolerable(rBuffer[fd])
      modifies this, fds
      ensures Valid() && fds == old(fds) && nfds == old(nfds)
      ensures State() == ParseTcp(old(State()), fd, i)
      decreases |rBuffer[fd]|
    {
      hide WithSubscribers, CString, SubscribersOf;
      var kind := rBuffer[fd][0];
      if SizeOf(kind).None? {
        rBuffer := rBuffer[fd := rBuffer[fd][1..]];
        DisconnectSlot(i, fd in fdToId);
      } else if !Complete(rBuffer[fd]) {
        var frame := TakeFrame(fd);
        return;
      } else if kind != TCP_CONNECT && fd !in fdToId {
        rBuffer := rBuffer[fd := rBuffer[fd][1..]];
        DisconnectSlot(i, false);
        return;
      } else {
        var frame := TakeFrame(fd);
        match Decode(frame.value)
        case Connect(id) => Bind(fd, i, id);
        case Subscribe(topic, sf) => SetSubscription(fd, i, topic, sf);
        case Unsubscribe(topic) => ClearSubscription(fd, i, topic);
      }
      if rBuffer[fd] != [] {
        ParseTcpBuffer(fd, i);
      }
    }

    /** The receiving half of the event loop's body; recv returned the chunk. */
    method ReceiveBytes(i: nat, chunk: Bytes)
      requires Valid() && i < nfds && Possible(State(), Receive(i, chunk))
      modifies this, fds
      ensures Valid() && fds == old(fds) && nfds == old(nfds)
      ensures State() == ReceiveChunk(old(State()), i, chunk)
    {
      if chunk == [] { return; }
      AppendChunk(fds[i], chunk);
      ParseTcpBuffer(fds[i], i);
    }

    method AppendChunk(fd: int, chunk: Bytes)
      modifies this`rBuffer
      ensures rBuffer == old(rBuffer)[fd := Get(old(rBuffer), fd, []) + chunk]
    {
      if fd !in rBuffer { rBuffer := rBuffer[fd := []]; }
      ghost var before := rBuffer[fd];
      assert before + chunk[..0] == before;
      for j := 0 to |chunk|
        invariant fd in rBuffer && rBuffer == old(rBuffer)[fd := before + chunk[..j]]
      {
        assert (before + chunk[..j]) + [chunk[j]] == before + chunk[..j + 1];
        rBuffer := rBuffer[fd := rBuffer[fd] + [chunk[j]]];
      }
      assert chunk[..|chunk|] == chunk;
    }

    /** The peer of slot i closed the connection. */
    method HangUp(i: nat)
      requires Valid() && i < nfds
      modifies this, fds
      ensures Valid() && fds == old(fds) && nfds == old(nfds)
      ensures State() == HangUpSlot(old(State()), i)
    {
      empties := empties + [i];
      DisconnectSlot(i, fds[i] in fdToId);
    }

    /** The sending half of the event loop's body. */
    method SendFromQueue(i: nat)
      requires Valid() && i < nfds
      modifies this
      ensures Valid() && fds == old(fds) && nfds == old(nfds)
      ensures State() == SendOne(old(State()), i)
    {
      if fds[i] < 0 || fds[i] !in fdToId { return; }
      var id := fdToId[fds[i]];
      var queue := Get(wBuffer, id, []);
      if queue == [] { return; }
      var news := queue[0];
      queue := queue[1..];
      wBuffer := wBuffer[id := queue];
      log := log + [Delivered(id, fds[i], news)];
    }

    /** The handling of one datagram. */
    method Publish(w: Wrapper)
      requires Valid() && ProperWrapper(w)
      modifies this
      ensures Valid() && fds == old(fds) && nfds == old(nfds)
      ensures State() == FanOut(old(State()), w)
    {
      var topic := TopicOf(w);
      PushToConnected(Get(subs[0], topic, {}), w, false);
      PushToConnected(Get(subs[1], topic, {}), w, true);
      log := log + [Published(topic, w)];
    }

    /** The inner loop of the fan-out, over the subscribers of one set. */
    method PushToConnected(ids: set<Id>, w: Wrapper, all: bool)
      modifies this`wBuffer
      ensures wBuffer == PushAll(old(wBuffer), if all then ids else ids * idToFd.Keys, w)
    {
      PushNone(wBuffer, w);
      hide PushAll;
      var todo := ids;
      ghost var pushed: set<Id> := {};
      while todo != {}
        invariant idToFd == old(idToFd) && todo <= ids
        invariant forall x :: x in pushed <==> x in ids && x !in todo && (all || x in idToFd)
        invariant wBuffer == PushAll(old(wBuffer), pushed, w)
        decreases |todo|
      {
        var id :| id in todo;
        todo := todo - {id};
        if all || id in idToFd {
          PushOneMore(old(wBuffer), pushed, id, w);
          wBuffer := wBuffer[id := Get(wBuffer, id, []) + [w]];
          pushed := pushed + {id};
        }
      }
      assert pushed == if all then ids else ids * idToFd.Keys;
    }
  }

  lemma PushNone(m: map<Id, seq<Wrapper>>, w: Wrapper)
    ensures PushAll(m, {}, w) == m
  {
  }

  lemma PushOneMore(m: map<Id, seq<Wrapper>>, ids: set<Id>, id: Id, w: Wrapper)
    requires id !in ids
    ensures PushAll(m, ids + {id}, w) == PushAll(m, ids, w)[id := Get(PushAll(m, ids, w), id, []) + [w]]
  {
  }
}
