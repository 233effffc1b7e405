/** The byte streams between the subscribers and the server. */
module Wire {
  import opened Machine
  import opened Wrappers
  import Collections

  // ----- deques ------------------------------------------------------------------

  class Deque {
    var data: Bytes

    constructor (data: Bytes)
      ensures this.data == data
    {
      this.data := data;
    }
  }

  /** `read_data`: moves size bytes from the front of q, noting them in extra. */
  method ReadData(q: Deque, size: nat, extra: Deque) returns (a: Bytes)
    requires q != extra && size <= |q.data|
    modifies q, extra
    ensures a == old(q.data)[..size] && q.data == old(q.data)[size..]
    ensures extra.data == old(extra.data) + a
  {
    a := [];
    for i := 0 to size
      invariant a == old(q.data)[..i] && q.data == old(q.data)[i..]
      invariant extra.data == old(extra.data) + a
    {
      a := a + [q.data[0]];
      extra.data := extra.data + [q.data[0]];
      q.data := q.data[1..];
    }
  }

  /** `place_back`: puts the noted bytes back in front. */
  method PlaceBack(q: Deque, extra: Deque)
    requires q != extra
    modifies q, extra
    ensures q.data == old(extra.data) + old(q.data) && extra.data == []
  {
    while extra.data != []
      invariant extra.data + q.data == old(extra.data) + old(q.data)
      decreases |extra.data|
    {
      var last := |extra.data| - 1;
      q.data := [extra.data[last]] + q.data;
      extra.data := extra.data[..last];
    }
  }

  /** Reading and placing back leaves the deque as it was. */
  method ReadAndPlaceBack(q: Deque, first: nat, second: nat)
    requires first + second <= |q.data|
    modifies q
    ensures q.data == old(q.data)
  {
    var extra := new Deque([]);
    var a := ReadData(q, first, extra);
    var b := ReadData(q, second, extra);
    PlaceBack(q, extra);
  }

  /** `has_terminator`. */
  predicate HasTerminator(a: Bytes) { 0 in a }

  /** The C string at the start of a. */
  function CString(a: Bytes): (s: Bytes)
    ensures 0 !in s && s <= a
    ensures HasTerminator(a) ==> |s| < |a| && a[|s|] == 0
  {
    if a == [] || a[0] == 0 then [] else [a[0]] + CString(a[1..])
  }

  // ----- messages of the subscribers -----------------------------------------------

  const TCP_CONNECT: UInt8 := 1
  const TCP_SUB: UInt8 := 2
  const TCP_UNSUB: UInt8 := 3

  /** sizeof(tcp_con_msg) and sizeof(tcp_sub_msg). */
  const CON_SIZE: nat := 12
  const SUB_SIZE: nat := 53

  type Id = Bytes
  type Topic = Bytes

  datatype Msg =
    | Connect(id: Id)
    | Subscribe(topic: Topic, sf: bool)
    | Unsubscribe(topic: Topic)

  /** The size of the message that starts with the given byte. */
  function SizeOf(first: UInt8): Option<nat> {
    if first == TCP_CONNECT then Some(CON_SIZE)
    else if first == TCP_SUB || first == TCP_UNSUB then Some(SUB_SIZE)
    else None
  }

  /** Terminated texts, and a boolean flag where it matters. */
  predicate WellFormed(frame: Bytes) {
    && frame != [] && SizeOf(frame[0]) == Some(|frame|)
    && (frame[0] == TCP_CONNECT ==> HasTerminator(frame[1..CON_SIZE]))
    && (frame[0] != TCP_CONNECT ==> HasTerminator(frame[1..SUB_SIZE - 1]))
    && (frame[0] == TCP_SUB ==> frame[SUB_SIZE - 1] <= 1)
  }

  function Decode(frame: Bytes): Msg
    requires WellFormed(frame)
  {
    if frame[0] == TCP_CONNECT then Connect(CString(frame[1..CON_SIZE]))
    else if frame[0] == TCP_SUB then Subscribe(CString(frame[1..SUB_SIZE - 1]), frame[SUB_SIZE - 1] == 1)
    else Unsubscribe(CString(frame[1..SUB_SIZE - 1]))
  }

  /** The stream starts with a complete message. */
  predicate Complete(stream: Bytes) {
    stream != [] && SizeOf(stream[0]).Some? && SizeOf(stream[0]).value <= |stream|
  }

  function First(stream: Bytes): (frame: Bytes)
    requires Complete(stream)
    ensures 0 < |frame| <= |stream|
  {
    stream[..SizeOf(stream[0]).value]
  }

  function Rest(stream: Bytes): (rest: Bytes)
    requires Complete(stream)
    ensures |rest| < |stream|
  {
    stream[SizeOf(stream[0]).value..]
  }

  /** Every message of the stream is well-formed, the last one perhaps not yet complete. */
  predicate ValidStream(stream: Bytes)
    decreases |stream|
  {
    if Complete(stream) then WellFormed(First(stream)) && ValidStream(Rest(stream))
    else stream == [] || SizeOf(stream[0]).Some?
  }

  /** The complete messages of a stream. */
  function Messages(stream: Bytes): seq<Msg>
    requires ValidStream(stream)
    decreases |stream|
  {
    if Complete(stream) then [Decode(First(stream))] + Messages(Rest(stream)) else []
  }

  /** The bytes behind the complete messages. */
  function Leftover(stream: Bytes): (rest: Bytes)
    requires ValidStream(stream)
    ensures !Complete(rest) && ValidStream(rest) && |rest| <= |stream|
    decreases |stream|
  {
    if Complete(stream) then Leftover(Rest(stream)) else stream
  }

  lemma FirstOfLonger(a: Bytes, b: Bytes)
    requires Complete(a)
    ensures Complete(a + b) && First(a + b) == First(a) && Rest(a + b) == Rest(a) + b
  {
  }

  /** Decoding a stream in two pieces: the messages of the first piece, then those of its leftover and the
      second piece. */
  lemma {:induction false} MessagesAppend(a: Bytes, b: Bytes)
    requires ValidStream(a) && ValidStream(a + b)
    ensures ValidStream(Leftover(a) + b)
    ensures Messages(a + b) == Messages(a) + Messages(Leftover(a) + b)
    ensures Leftover(a + b) == Leftover(Leftover(a) + b)
    decreases |a|
  {
    hide WellFormed, Decode;
    if Complete(a) {
      FirstOfLonger(a, b);
      StreamStep(a);
      StreamStep(a + b);
      MessagesAppend(Rest(a), b);
      hide Complete, First, Rest, Messages, Leftover;
      Collections.Associate([Decode(First(a))], Messages(Rest(a)), Messages(Leftover(Rest(a)) + b));
    }
  }

  lemma StreamStep(a: Bytes)
    requires Complete(a) && ValidStream(a)
    ensures ValidStream(Rest(a)) && WellFormed(First(a))
    ensures Messages(a) == [Decode(First(a))] + Messages(Rest(a)) && Leftover(a) == Leftover(Rest(a))
  {
  }

  /** A prefix of a valid stream is valid. */
  lemma {:induction false} PrefixIsValid(a: Bytes, b: Bytes)
    requires ValidStream(a + b)
    ensures ValidStream(a)
    decreases |a|
  {
    if Complete(a) {
      FirstOfLonger(a, b);
      PrefixIsValid(Rest(a), b);
    } else if a != [] {
      assert (a + b)[0] == a[0];
    }
  }

  /** And a valid prefix with a valid continuation of its leftover is a valid stream. */
  lemma {:induction false} ValidAppend(a: Bytes, b: Bytes)
    requires ValidStream(a) && ValidStream(Leftover(a) + b)
    ensures ValidStream(a + b)
    decreases |a|
  {
    if Complete(a) {
      FirstOfLonger(a, b);
      ValidAppend(Rest(a), b);
    }
  }

  // ----- what a subscriber sends -----------------------------------------------------

  /** What the fields of a `tcp_con_msg` or `tcp_sub_msg` may hold, bytes behind a terminator included. */
  datatype OutMsg = OutMsg(kind: UInt8, text: Bytes, sf: UInt8)

  predicate Sendable(m: OutMsg) {
    && HasTerminator(m.text)
    && (m.kind == TCP_CONNECT ==> |m.text| == CON_SIZE - 1)
    && (m.kind != TCP_CONNECT ==> (m.kind == TCP_SUB || m.kind == TCP_UNSUB) && |m.text| == SUB_SIZE - 2)
    && (m.kind == TCP_SUB ==> m.sf <= 1)
  }

  function Encode(m: OutMsg): (frame: Bytes) {
    if m.kind == TCP_CONNECT then [m.kind] + m.text else [m.kind] + m.text + [m.sf]
  }

  function Meaning(m: OutMsg): Msg {
    if m.kind == TCP_CONNECT then Connect(CString(m.text))
    else if m.kind == TCP_SUB then Subscribe(CString(m.text), m.sf == 1)
    else Unsubscribe(CString(m.text))
  }

  function EncodeAll(ms: seq<OutMsg>): Bytes {
    if ms == [] then [] else Encode(ms[0]) + EncodeAll(ms[1..])
  }

  function Meanings(ms: seq<OutMsg>): seq<Msg> {
    if ms == [] then [] else [Meaning(ms[0])] + Meanings(ms[1..])
  }

  lemma EncodeDecode(m: OutMsg)
    requires Sendable(m)
    ensures WellFormed(Encode(m)) && Decode(Encode(m)) == Meaning(m)
  {
    var frame := Encode(m);
    if m.kind == TCP_CONNECT {
      assert frame[1..CON_SIZE] == m.text;
    } else {
      assert frame[1..SUB_SIZE - 1] == m.text;
    }
  }

  lemma {:induction false} CStringOfText(a: Bytes, text: Bytes)
    requires 0 !in text && |text| <= |a| && a[..|text|] == text && (|text| < |a| ==> a[|text|] == 0)
    ensures CString(a) == text
  {
    if text != [] {
      assert a[0] == a[..|text|][0] == text[0] && text[0] in text;
      assert a[1..][..|text| - 1] == text[1..];
      CStringOfText(a[1..], text[1..]);
    }
  }

  /** The layout of the three messages: type 1 and an identifier in 11 bytes, type 2 or 3, a topic in 51 bytes and the
      flag, which is 1 for store-and-forward. */
  lemma FrameLayout(text: Bytes, sf: UInt8)
    requires 0 !in text && sf <= 1
    ensures |text| <= 10 ==>
              var frame := [1] + text + Zeros(11 - |text|);
              WellFormed(frame) && Decode(frame) == Connect(text)
    ensures |text| <= 50 ==>
              var frame := [2] + text + Zeros(51 - |text|) + [sf];
              WellFormed(frame) && Decode(frame) == Subscribe(text, sf == 1)
    ensures |text| <= 50 ==>
              var frame := [3] + text + Zeros(51 - |text|) + [sf];
              WellFormed(frame) && Decode(frame) == Unsubscribe(text)
  {
    if |text| <= 10 {
      var frame := [1] + text + Zeros(11 - |text|);
      PaddedText(text, 11);
      assert frame[1..CON_SIZE] == text + Zeros(11 - |text|);
    }
    if |text| <= 50 {
      PaddedText(text, 51);
      var sub, unsub := [2] + text + Zeros(51 - |text|) + [sf], [3] + text + Zeros(51 - |text|) + [sf];
      assert sub[1..SUB_SIZE - 1] == text + Zeros(51 - |text|) == unsub[1..SUB_SIZE - 1];
    }
  }

  function Zeros(n: nat): (b: Bytes)
    ensures |b| == n && forall i | 0 <= i < n :: b[i] == 0
  {
    seq(n, _ => 0)
  }

  lemma PaddedText(text: Bytes, size: nat)
    requires 0 !in text && |text| < size
    ensures var a := text + Zeros(size - |text|);
            HasTerminator(a) && CString(a) == text
  {
    var a := text + Zeros(size - |text|);
    assert a[|text|] == 0;
    CStringOfText(a, text);
  }

  /** What is sent is decoded to the same messages, in order and with nothing left over. */
  lemma {:induction false} EncodeAllDecodes(ms: seq<OutMsg>)
    requires forall i | 0 <= i < |ms| :: Sendable(ms[i])
    ensures ValidStream(EncodeAll(ms)) && Messages(EncodeAll(ms)) == Meanings(ms) && Leftover(EncodeAll(ms)) == []
  {
    if ms != [] {
      var frame := Encode(ms[0]);
      EncodeDecode(ms[0]);
      assert First(frame) == frame && Rest(frame) == [];
      FirstOfLonger(frame, EncodeAll(ms[1..]));
      assert [] + EncodeAll(ms[1..]) == EncodeAll(ms[1..]);
      EncodeAllDecodes(ms[1..]);
    }
  }

  // ----- news on the way to a subscriber ------------------------------------------------

  /** sizeof(udp_news), and the bytes of the wrapper around it. */
  const NEWS_SIZE: nat := 1551
  const WRAPPING: nat := 10

  /** `udp_news_wrapper`; `news` is the whole structure, of which `len` covers the received part. */
  datatype Wrapper = Wrapper(len: nat, addr: UInt32, port: UInt16, news: Bytes)

  predicate ProperWrapper(w: Wrapper) {
    |w.news| == NEWS_SIZE && WRAPPING <= w.len <= WRAPPING + NEWS_SIZE
  }

  /** The packed structure in memory. */
  function Memory(w: Wrapper): (m: Bytes)
    requires ProperWrapper(w)
    ensures |m| == WRAPPING + NEWS_SIZE
  {
    Store32(w.len) + Store32(w.addr) + Store16(w.port) + w.news
  }

  /** `send(fd, &news, news.len, 0)`. */
  function OnWire(w: Wrapper): (b: Bytes)
    requires ProperWrapper(w)
    ensures |b| == w.len
  {
    Memory(w)[..w.len]
  }

  /** What `receive_msg` reads off the buffer. */
  datatype Received = Received(addr: UInt32, port: UInt16, payload: Bytes)

  function Contents(w: Wrapper): Received
    requires ProperWrapper(w)
  {
    Received(w.addr, w.port, w.news[..w.len - WRAPPING])
  }

  /** `len - sizeof(len) > buffer.size()` in `size_t` arithmetic, where a small len wraps around. */
  predicate Incomplete(len: UInt32, remaining: nat) {
    (SignExtended(len) - 4) % TWO_64 > remaining
  }

  /** An `int` converted to `size_t`. */
  function SignExtended(len: UInt32): int {
    if len < 0x8000_0000 then len else len + TWO_64 - TWO_32
  }

  /** With a buffer of less than 2 GB: the message is not all there, or its length is less than that of the length
      field. */
  lemma IncompleteMeans(len: UInt32, remaining: nat)
    requires remaining < 0x8000_0000 - 4
    ensures Incomplete(len, remaining) <==> len < 4 || len > remaining + 4
  {
  }

  /** The receiving side of a subscriber. */
  class Receiver {
    var buffer: Deque

    constructor ()
      ensures fresh(buffer) && buffer.data == []
    {
      buffer := new Deque([]);
    }

    /** `receive_msg`, up to the printing. A length field that names at most 9 bytes would read outside the
        structure; callers must not buffer one. */
    method ReceiveMsg() returns (r: Option<Received>)
      requires |buffer.data| >= 4
      requires var len := Load32(buffer.data[..4]);
               Incomplete(len, |buffer.data| - 4) || WRAPPING <= len <= WRAPPING + NEWS_SIZE
      modifies buffer
      ensures buffer == old(buffer)
      ensures r == Extracted(old(buffer.data)).0 && buffer.data == Extracted(old(buffer.data)).1
    {
      var extra := new Deque([]);
      ghost var all := buffer.data;
      var lenBytes := ReadData(buffer, 4, extra);
      var len := Load32(lenBytes);
      if Incomplete(len, |buffer.data|) {
        PlaceBack(buffer, extra);
        assert buffer.data == all;
        return None;
      }
      var addr := ReadData(buffer, 4, extra);
      var port := ReadData(buffer, 2, extra);
      var payload := ReadData(buffer, len - WRAPPING, extra);
      assert addr == all[4..8] && port == all[8..10] && payload == all[10..len];
      return Some(Received(Load32(addr), Load16(port), payload));
    }
  }

  /** One call of `receive_msg` on a buffer: what is received and what stays in the buffer. */
  function Extracted(buffer: Bytes): (Option<Received>, Bytes)
    requires |buffer| >= 4
    requires var len := Load32(buffer[..4]);
             Incomplete(len, |buffer| - 4) || WRAPPING <= len <= WRAPPING + NEWS_SIZE
  {
    var len := Load32(buffer[..4]);
    if Incomplete(len, |buffer| - 4) then (None, buffer)
    else (Some(Received(Load32(buffer[4..8]), Load16(buffer[8..10]), buffer[10..len])), buffer[len..])
  }

  /** With four bytes buffered the next call is defined. */
  predicate CanReceive(buffer: Bytes) {
    |buffer| >= 4 &&
    var len := Load32(buffer[..4]);
    Incomplete(len, |buffer| - 4) || WRAPPING <= len <= WRAPPING + NEWS_SIZE
  }

  lemma WireParts(w: Wrapper, tail: Bytes)
    requires ProperWrapper(w)
    ensures var b := OnWire(w) + tail;
            && b[..4] == Store32(w.len) && b[4..8] == Store32(w.addr) && b[8..10] == Store16(w.port)
            && b[10..w.len] == w.news[..w.len - WRAPPING] && b[w.len..] == tail
  {
    var m := Memory(w);
    assert m[..4] == Store32(w.len) && m[4..8] == Store32(w.addr) && m[8..10] == Store16(w.port);
    assert m[10..] == w.news;
    var b := OnWire(w) + tail;
    assert b[..4] == m[..4] && b[4..8] == m[4..8] && b[8..10] == m[8..10];
    assert b[10..w.len] == m[10..w.len];
  }

  /** A whole message in front of anything is received as it was sent. */
  lemma ReceiveOne(w: Wrapper, tail: Bytes)
    requires ProperWrapper(w)
    ensures CanReceive(OnWire(w) + tail)
    ensures Extracted(OnWire(w) + tail) == (Some(Contents(w)), tail)
  {
    WireParts(w, tail);
  }

  /** A part of a message, four bytes or more, is left in the buffer. */
  lemma ReceivePart(w: Wrapper, n: nat)
    requires ProperWrapper(w) && 4 <= n < w.len
    ensures CanReceive(OnWire(w)[..n])
    ensures Extracted(OnWire(w)[..n]) == (None, OnWire(w)[..n])
  {
    WireParts(w, []);
    assert OnWire(w)[..n][..4] == (OnWire(w) + [])[..4];
  }

  predicate AllProper(ws: seq<Wrapper>) { forall i | 0 <= i < |ws| :: ProperWrapper(ws[i]) }

  function WireAll(ws: seq<Wrapper>): Bytes
    requires AllProper(ws)
  {
    if ws == [] then [] else OnWire(ws[0]) + WireAll(ws[1..])
  }

  function AllContents(ws: seq<Wrapper>): seq<Received>
    requires AllProper(ws)
  {
    if ws == [] then [] else [Contents(ws[0])] + AllContents(ws[1..])
  }

  /** n calls of `receive_msg` in a row. */
  predicate CanReceiveAll(buffer: Bytes, n: nat)
    decreases n
  {
    n == 0 || (CanReceive(buffer) && CanReceiveAll(Extracted(buffer).1, n - 1))
  }

  function ReceiveAll(buffer: Bytes, n: nat): (seq<Received>, Bytes)
    requires CanReceiveAll(buffer, n)
    decreases n
  {
    if n == 0 then ([], buffer)
    else
      var (r, rest) := Extracted(buffer);
      var (rs, end) := ReceiveAll(rest, n - 1);
      ((if r.Some? then [r.value] else []) + rs, end)
  }

  /** Any sequence of news that the server sends is received in order: the same addresses, ports and
      payloads, and what was behind it stays in the buffer. */
  lemma {:induction false} WireRoundTrip(ws: seq<Wrapper>, tail: Bytes)
    requires AllProper(ws)
    ensures CanReceiveAll(WireAll(ws) + tail, |ws|)
    ensures ReceiveAll(WireAll(ws) + tail, |ws|) == (AllContents(ws), tail)
  {
    if ws == [] {
      assert WireAll(ws) + tail == tail;
    } else {
      assert WireAll(ws) + tail == OnWire(ws[0]) + (WireAll(ws[1..]) + tail);
      ReceiveOne(ws[0], WireAll(ws[1..]) + tail);
      WireRoundTrip(ws[1..], tail);
    }
  }

  // ----- arrivals and receptions in any order ---------------------------------------------

  /** What happens to a subscriber's buffer: bytes arrive, or `receive_msg` is called. */
  datatype BufferEvent = Arrives(bytes: Bytes) | Call

  function Arrived(events: seq<BufferEvent>): Bytes {
    if events == [] then []
    else (if events[0].Arrives? then events[0].bytes else []) + Arrived(events[1..])
  }

  /** Every call finds at least four bytes. */
  predicate FourBytesEach(buffer: Bytes, events: seq<BufferEvent>)
    decreases |events|
  {
    events == [] ||
    match events[0]
    case Arrives(b) => FourBytesEach(buffer + b, events[1..])
    case Call => |buffer| >= 4 && (CanReceive(buffer) ==> FourBytesEach(Extracted(buffer).1, events[1..]))
  }

  predicate CanPlay(buffer: Bytes, events: seq<BufferEvent>)
    decreases |events|
  {
    events == [] ||
    match events[0]
    case Arrives(b) => CanPlay(buffer + b, events[1..])
    case Call => CanReceive(buffer) && CanPlay(Extracted(buffer).1, events[1..])
  }

  /** What is received, and what is in the buffer at the end. */
  function Play(buffer: Bytes, events: seq<BufferEvent>): (seq<Received>, Bytes)
    requires CanPlay(buffer, events)
    decreases |events|
  {
    if events == [] then ([], buffer)
    else
      match events[0]
      case Arrives(b) => Play(buffer + b, events[1..])
      case Call =>
        var (r, rest) := Extracted(buffer);
        var (rs, end) := Play(rest, events[1..]);
        ((if r.Some? then [r.value] else []) + rs, end)
  }

  /** What was received is the first of the news in order, and what is buffered or still to come are the others. */
  predicate IsSplit(ws: seq<Wrapper>, received: seq<Received>, rest: Bytes)
    requires AllProper(ws)
  {
    && |received| <= |ws|
    && received == AllContents(ws[..|received|])
    && rest == WireAll(ws[|received|..])
  }

  /** So it is however the arrival of the news is interleaved with the calls; and once all has come and fewer than
      four bytes are buffered, everything was received. */
  lemma {:induction false} AnyInterleaving(ws: seq<Wrapper>, buffer: Bytes, events: seq<BufferEvent>, later: Bytes)
    requires AllProper(ws) && buffer + (Arrived(events) + later) == WireAll(ws)
    requires FourBytesEach(buffer, events)
    ensures CanPlay(buffer, events)
    ensures var (received, rest) := Play(buffer, events);
            && IsSplit(ws, received, rest + later)
            && (later == [] && |rest| < 4 ==> received == AllContents(ws))
    decreases |events|
  {
    InterleavingSplits(ws, buffer, events, later);
    hide Play, WireAll;
    var (received, rest) := Play(buffer, events);
    if later == [] && |rest| < 4 {
      assert rest + later == rest;
      NothingMissing(ws[|received|..]);
      assert ws[..|received|] == ws;
    }
  }

  lemma NothingMissing(ws: seq<Wrapper>)
    requires AllProper(ws) && |WireAll(ws)| < 4
    ensures ws == []
  {
  }

  lemma {:induction false} InterleavingSplits(ws: seq<Wrapper>, buffer: Bytes, events: seq<BufferEvent>, later: Bytes)
    requires AllProper(ws) && buffer + (Arrived(events) + later) == WireAll(ws)
    requires FourBytesEach(buffer, events)
    ensures CanPlay(buffer, events)
    ensures IsSplit(ws, Play(buffer, events).0, Play(buffer, events).1 + later)
    decreases |events|
  {
    hide Extracted, CanReceive, WireAll, OnWire, IsSplit;
    if events == [] {
      assert [] + later == later;
      SplitNone(ws);
    } else {
      var coming := Arrived(events[1..]) + later;
      match events[0]
      case Arrives(b) =>
        assert buffer + (b + Arrived(events[1..]) + later) == (buffer + b) + coming;
        InterleavingSplits(ws, buffer + b, events[1..], later);
      case Call =>
        assert Arrived(events) == Arrived(events[1..]);
        OneCall(ws, buffer, coming);
        var (r, rest) := Extracted(buffer);
        if r.None? {
          InterleavingSplits(ws, rest, events[1..], later);
          assert [] + Play(rest, events[1..]).0 == Play(rest, events[1..]).0;
        } else {
          InterleavingSplits(ws[1..], rest, events[1..], later);
          SplitOne(ws, Play(rest, events[1..]).0, Play(rest, events[1..]).1 + later);
        }
    }
  }

  lemma SplitNone(ws: seq<Wrapper>)
    requires AllProper(ws)
    ensures IsSplit(ws, [], WireAll(ws))
  {
    assert ws[0..] == ws;
  }

  lemma SplitOne(ws: seq<Wrapper>, received: seq<Received>, rest: Bytes)
    requires AllProper(ws) && ws != [] && IsSplit(ws[1..], received, rest)
    ensures IsSplit(ws, [Contents(ws[0])] + received, rest)
  {
    TakeOne(ws, |received|);
  }

  lemma TakeOne(ws: seq<Wrapper>, n: nat)
    requires AllProper(ws) && n < |ws|
    ensures AllContents(ws[..n + 1]) == [Contents(ws[0])] + AllContents(ws[1..][..n])
    ensures ws[1..][n..] == ws[n + 1..]
  {
    assert ws[..n + 1][1..] == ws[1..][..n];
  }

  /** One call on the front of the news still to be received. */
  lemma OneCall(ws: seq<Wrapper>, buffer: Bytes, later: Bytes)
    requires AllProper(ws) && buffer + later == WireAll(ws) && |buffer| >= 4
    ensures CanReceive(buffer) && ws != []
    ensures var (r, rest) := Extracted(buffer);
            if r.None? then rest == buffer
            else r.value == Contents(ws[0]) && rest + later == WireAll(ws[1..])
  {
    var first := OnWire(ws[0]);
    if |buffer| < |first| {
      assert buffer == (buffer + later)[..|buffer|] == first[..|buffer|];
      ReceivePart(ws[0], |buffer|);
    } else {
      var tail := buffer[|first|..];
      assert buffer == first + tail by { assert (buffer + later)[..|first|] == first; }
      assert tail + later == WireAll(ws)[|first|..];
      ReceiveOne(ws[0], tail);
    }
  }
}
