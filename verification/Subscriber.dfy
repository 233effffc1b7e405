/** The sending side of a subscriber, and what the server makes of it. */
module Subscriber {
  import opened Machine
  import opened Wire
  import opened PubSub
  import opened ServerRuns
  import opened ServerStreams

  /** The commands a user can give: subscriptions and unsubscriptions. */
  predicate IsCommand(m: OutMsg) {
    Sendable(m) && m.kind != TCP_CONNECT
  }

  class Subscriber {
    const hello: OutMsg          // the tcp_con_msg with the subscriber's identifier
    var sentId: bool
    var bufferW: seq<OutMsg>
    ghost var commands: seq<OutMsg>   // all that were given
    ghost var sent: seq<OutMsg>       // all that went out

    /** What went out is the identification and then the commands in order; the others wait. */
    ghost predicate Valid()
      reads this
    {
      && Sendable(hello) && hello.kind == TCP_CONNECT
      && (forall i | 0 <= i < |commands| :: IsCommand(commands[i]))
      && |bufferW| <= |commands|
      && bufferW == commands[|commands| - |bufferW|..]
      && (if sentId then sent == [hello] + commands[..|commands| - |bufferW|]
          else sent == [] && |bufferW| == |commands|)
    }

    constructor (hello: OutMsg)
      requires Sendable(hello) && hello.kind == TCP_CONNECT
      ensures Valid() && this.hello == hello && commands == [] && sent == []
    {
      this.hello := hello;
      sentId, bufferW, commands, sent := false, [], [], [];
    }

    /** A command was read from the user. */
    method Give(m: OutMsg)
      requires Valid() && IsCommand(m)
      modifies this
      ensures Valid() && commands == old(commands) + [m] && sent == old(sent)
    {
      bufferW := bufferW + [m];
      commands := commands + [m];
    }

    /** The socket is writable: the identification goes first, then one waiting command at a time. */
    method OnWritable()
      requires Valid()
      modifies this
      ensures Valid() && commands == old(commands)
      ensures if !old(sentId) then sent == [hello]
              else if old(bufferW) == [] then sent == old(sent)
              else sent == old(sent) + [old(bufferW)[0]]
    {
      if !sentId {
        sent := sent + [hello];
        sentId := true;
      } else if bufferW != [] {
        var msg := bufferW[0];
        bufferW := bufferW[1..];
        sent := sent + [msg];
      }
    }
  }

  /** The stream of a bound connection. */
  lemma {:induction false} CommandsAreLegal(ms: seq<OutMsg>)
    requires forall i | 0 <= i < |ms| :: IsCommand(ms[i])
    ensures LegalStream(true, EncodeAll(ms))
  {
    if ms != [] {
      var frame := Encode(ms[0]);
      EncodeDecode(ms[0]);
      assert Complete(frame) && First(frame) == frame && Rest(frame) == [];
      FirstOfLonger(frame, EncodeAll(ms[1..]));
      assert [] + EncodeAll(ms[1..]) == EncodeAll(ms[1..]);
      CommandsAreLegal(ms[1..]);
    }
  }

  /** What a subscriber has sent at any time is what the server's invariants assume of a connection, and the
      server decodes it to the identification followed by the commands. */
  lemma {:induction false} SentIsLegal(hello: OutMsg, ms: seq<OutMsg>)
    requires Sendable(hello) && hello.kind == TCP_CONNECT
    requires forall i | 0 <= i < |ms| :: IsCommand(ms[i])
    ensures LegalStream(false, EncodeAll([hello] + ms))
    ensures ValidStream(EncodeAll([hello] + ms))
    ensures Messages(EncodeAll([hello] + ms)) == [Connect(CString(hello.text))] + Meanings(ms)
  {
    var all := [hello] + ms;
    var frame := Encode(hello);
    assert all[1..] == ms;
    EncodeDecode(hello);
    assert Complete(frame) && First(frame) == frame && Rest(frame) == [];
    FirstOfLonger(frame, EncodeAll(ms));
    assert [] + EncodeAll(ms) == EncodeAll(ms);
    CommandsAreLegal(ms);
    EncodeAllDecodes(all);
  }

  /** A legal stream stays legal while it arrives in pieces: after the messages of the first piece, its leftover
      and the second piece are again what is expected, now of a bound connection if there was a message. */
  lemma {:induction false} LegalInPieces(bound: bool, a: Bytes, b: Bytes)
    requires LegalStream(bound, a + b)
    ensures LegalStream(bound, a) && ValidStream(a)
    ensures LegalStream(bound || Complete(a), Leftover(a) + b)
    decreases |a|
  {
    if a != [] {
      assert (a + b)[0] == a[0];
      if Complete(a) {
        FirstOfLonger(a, b);
        LegalInPieces(true, Rest(a), b);
      }
    }
  }

  /** The subscriptions that the handling of the messages leads to are those of the commands. */
  lemma {:induction false} CommandsAreAccepted(s: Srv, fd: int, ms: seq<OutMsg>)
    requires fd in s.fdToId && |s.slots| > 0
    requires forall i | 0 <= i < |ms| :: IsCommand(ms[i])
    ensures Accepted(s, fd, Meanings(ms))
    decreases |ms|
  {
    if ms != [] {
      HandleWithBuffer(s, fd, 0, Meaning(ms[0]), []);
      CommandsAreAccepted(HandleMsg(s, fd, 0, Meaning(ms[0])), fd, ms[1..]);
      assert Meanings(ms)[1..] == Meanings(ms[1..]);
    }
  }

  /** From the subscriber's socket to the server's state: if the identifier is free, then however the bytes of the
      identification and the commands are cut into chunks, the server ends in the state of a new connection
      that issued exactly these commands in order, with nothing left over. */
  lemma {:induction false} EndToEnd(s: Srv, i: nat, hello: OutMsg, ms: seq<OutMsg>, chunks: seq<Bytes>)
    requires i < |s.slots| && s.slots[i] >= 0 && Buffered(s, s.slots[i]) == []
    requires Sendable(hello) && hello.kind == TCP_CONNECT && CString(hello.text) !in s.idToFd
    requires forall k | 0 <= k < |ms| :: IsCommand(ms[k])
    requires forall k | 0 <= k < |chunks| :: chunks[k] != []
    requires Concat(chunks) == EncodeAll([hello] + ms)
    ensures CanReceiveChunks(s, i, chunks)
    ensures ReceiveChunks(s, i, chunks) ==
            WithBuffer(HandleAll(s, s.slots[i], i, [Connect(CString(hello.text))] + Meanings(ms)), s.slots[i], [])
  {
    var fd := s.slots[i];
    var msgs := [Connect(CString(hello.text))] + Meanings(ms);
    SentIsLegal(hello, ms);
    EncodeAllDecodes([hello] + ms);
    var s1 := HandleMsg(s, fd, 0, msgs[0]);
    CommandsAreAccepted(s1, fd, ms);
    assert msgs[1..] == Meanings(ms);
    assert [] + Concat(chunks) == Concat(chunks);
    assert ([hello] + ms)[0] == hello;
    assert Concat(chunks) != [];
    ChunkingIndependence(s, i, chunks);
  }
}
