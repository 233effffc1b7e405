/** The ARP part of the router: what has been learned, what waits for an answer
    and what has been sent. */
module Arp {
  import opened Machine
  import opened Wrappers
  import opened RouteTable
  import opened CellQueue
  import Collections

  type Mac = seq<UInt8>

  datatype Packet = Packet(dhost: Mac, shost: Mac, iface: int, body: seq<UInt8>)

  datatype Entry = Entry(ip: UInt32, mac: Mac)

  /** `packet_with_best`: a packet and the route chosen for it. */
  datatype Routed = Routed(packet: Packet, route: Route)

  datatype ArpPacket = ArpPacket(op: UInt16, sha: Mac, spa: UInt32, tha: Mac, tpa: UInt32)

  const ARP_REQUEST: UInt16 := 1
  const ARP_REPLY: UInt16 := 2

  datatype Event =
    | Accepted(item: Routed)            // handed to do_arp, link-layer source already set
    | Sent(item: Routed)                // put on the wire
    | Asked(request: ArpPacket)         // an ARP request was sent
    | Replied(reply: ArpPacket)         // an ARP reply was sent
    | Learned(entry: Entry)

  datatype ArpState = ArpState(entries: seq<Entry>, pending: seq<Routed>, history: seq<Event>)

  // ----- the steps on values --------------------------------------------------------

  /** The address in the last entry for ip, since `do_arp` scans the whole list. */
  function Latest(entries: seq<Entry>, ip: UInt32): Option<Mac> {
    if entries == [] then None
    else
      var last := entries[|entries| - 1];
      if last.ip == ip then Some(last.mac) else Latest(entries[..|entries| - 1], ip)
  }

  function Addressed(item: Routed, mac: Mac): Routed {
    item.(packet := item.packet.(dhost := mac))
  }

  /** `create_arp`; the target's hardware address is left as it was in memory. */
  function Request(route: Route, mac: Mac, ip: UInt32, junk: Mac): ArpPacket {
    ArpPacket(Swap16(ARP_REQUEST), mac, ip, junk, route.nextHop)
  }

  /** The request rewritten in place into the reply of the host with address mac. */
  function Reply(a: ArpPacket, mac: Mac): ArpPacket {
    ArpPacket(Swap16(ARP_REPLY), mac, a.tpa, a.sha, a.spa)
  }

  /** An interface as `get_interface_mac` and `get_interface_ip` describe it. */
  datatype Interface = Interface(mac: Mac, ip: UInt32)

  /** `do_arp` for a packet that leaves by the given interface. */
  function DoArp(s: ArpState, m: Packet, route: Route, out: Interface, junk: Mac): ArpState {
    var item := Routed(m.(iface := route.iface, shost := out.mac), route);
    match Latest(s.entries, route.nextHop)
    case Some(dhost) => s.(history := s.history + [Accepted(item), Sent(Addressed(item, dhost))])
    case None => s.(pending := s.pending + [item],
                     history := s.history + [Accepted(item), Asked(Request(route, out.mac, out.ip, junk))])
  }

  function FlushSent(items: seq<Routed>, entry: Entry): seq<Event> {
    if items == [] then []
    else if items[0].route.nextHop == entry.ip then
      [Sent(Addressed(items[0], entry.mac))] + FlushSent(items[1..], entry)
    else FlushSent(items[1..], entry)
  }

  function FlushKept(items: seq<Routed>, ip: UInt32): seq<Routed> {
    if items == [] then []
    else if items[0].route.nextHop == ip then FlushKept(items[1..], ip)
    else [items[0]] + FlushKept(items[1..], ip)
  }

  /** An ARP packet that is not a request for the router's own address. */
  function Learn(s: ArpState, entry: Entry): ArpState {
    ArpState(s.entries + [entry], FlushKept(s.pending, entry.ip),
             (s.history + [Learned(entry)]) + FlushSent(s.pending, entry))
  }

  /** The ARP branch of the main loop, for a packet that came in by the given interface. */
  function HandleArp(s: ArpState, a: ArpPacket, on: Interface): ArpState {
    if a.op == Swap16(ARP_REQUEST) && on.ip == a.tpa then s.(history := s.history + [Replied(Reply(a, on.mac))])
    else Learn(s, Entry(a.spa, a.sha))
  }

  // ----- the router -----------------------------------------------------------------

  class Router {
    var arpEntries: Queue<Entry>
    var messagesToSend: Queue<Routed>
    ghost var history: seq<Event>

    ghost predicate Valid()
      reads this, arpEntries, messagesToSend, arpEntries.cells, messagesToSend.cells
    {
      arpEntries.Valid() && messagesToSend.Valid()
    }

    ghost function State(): ArpState
      reads this, arpEntries, messagesToSend, arpEntries.cells, messagesToSend.cells
    {
      ArpState(arpEntries.Contents(), messagesToSend.Contents(), history)
    }

    constructor ()
      ensures Valid() && State() == ArpState([], [], [])
    {
      arpEntries := new Queue();
      messagesToSend := new Queue();
      history := [];
    }

    /** The scan of the ARP list, from the first cell to the last. */
    method Lookup(ip: UInt32) returns (r: Option<Mac>)
      requires Valid()
      ensures r == Latest(arpEntries.Contents(), ip)
    {
      r := None;
      var current := arpEntries.head;
      ghost var i := 0;
      ghost var entries := arpEntries.Contents();
      while current != null
        invariant i <= |entries|
        invariant if i < |entries| then current == arpEntries.cells[i] else current == null
        invariant r == Latest(entries[..i], ip)
        decreases |entries| - i
      {
        assert entries[..i + 1][..i] == entries[..i];
        if current.element.ip == ip { r := Some(current.element.mac); }
        current := current.next;
        i := i + 1;
      }
      assert entries[..i] == entries;
    }

    /** `do_arp`. */
    method ForwardPacket(m: Packet, route: Route, out: Interface, junk: Mac)
      requires Valid()
      modifies this, messagesToSend, messagesToSend.cells
      ensures Valid() && State() == DoArp(old(State()), m, route, out, junk)
      ensures arpEntries == old(arpEntries)
    {
      var dhost := Lookup(route.nextHop);
      hide Latest;
      var item := Routed(m.(iface := route.iface, shost := out.mac), route);
      ghost var entries := arpEntries.Contents();
      if dhost.None? {
        Hold(item);
        history := history + [Accepted(item), Asked(Request(route, out.mac, out.ip, junk))];
      } else {
        history := history + [Accepted(item), Sent(Addressed(item, dhost.value))];
      }
    }

    method Hold(item: Routed)
      requires Valid()
      modifies messagesToSend, messagesToSend.cells
      ensures Valid() && State() == old(State().(pending := State().pending + [item]))
    {
      messagesToSend.Enqueue(item);
    }

    /** The ARP branch of the main loop. */
    method ReceiveArp(a: ArpPacket, on: Interface)
      requires Valid()
      modifies this, arpEntries, arpEntries.cells, messagesToSend, messagesToSend.cells
      ensures Valid() && State() == HandleArp(old(State()), a, on)
    {
      if a.op == Swap16(ARP_REQUEST) && on.ip == a.tpa {
        history := history + [Replied(Reply(a, on.mac))];
        return;
      }
      var entry := Entry(a.spa, a.sha);
      arpEntries.Enqueue(entry);
      history := history + [Learned(entry)];
      Flush(entry);
    }

    /** Sends what waits for the entry's address and keeps the rest. */
    method Flush(entry: Entry)
      requires Valid()
      modifies this, messagesToSend
      ensures Valid()
      ensures State() == old(ArpState(State().entries, FlushKept(State().pending, entry.ip),
                                      State().history + FlushSent(State().pending, entry)))
    {
      var kept, sent := Drain(messagesToSend, entry);
      history := history + sent;
      messagesToSend := kept;
    }
  }

  /** The loop that empties the queue of waiting packets into a new queue. */
  method Drain(q: Queue<Routed>, entry: Entry) returns (kept: Queue<Routed>, sent: seq<Event>)
    requires q.Valid()
    modifies q
    ensures fresh(kept) && kept.Valid() && forall i | 0 <= i < |kept.cells| :: fresh(kept.cells[i])
    ensures kept.Contents() == FlushKept(old(q.Contents()), entry.ip)
    ensures sent == FlushSent(old(q.Contents()), entry)
  {
    hide FlushSent, FlushKept;
    kept := new Queue();
    sent := [];
    ghost var all := q.Contents();
    while q.head != null
      invariant fresh(kept) && kept.Valid() && forall i | 0 <= i < |kept.cells| :: fresh(kept.cells[i])
      invariant q.Valid() && forall i | 0 <= i < |q.cells| :: q.cells[i] in old(q.cells)
      invariant kept.Contents() + FlushKept(q.Contents(), entry.ip) == FlushKept(all, entry.ip)
      invariant sent + FlushSent(q.Contents(), entry) == FlushSent(all, entry)
      decreases |q.Contents()|
    {
      FlushRound(sent, kept.Contents(), q.Contents(), entry, FlushSent(all, entry), FlushKept(all, entry.ip));
      var x := q.Dequeue();
      if x.route.nextHop == entry.ip {
        sent := sent + [Sent(Addressed(x, entry.mac))];
      } else {
        kept.Enqueue(x);
      }
    }
    assert q.Contents() == [];
    FlushEnd(entry);
  }

  lemma FlushRound(h: seq<Event>, kept: seq<Routed>, items: seq<Routed>, entry: Entry,
                   allSent: seq<Event>, allKept: seq<Routed>)
    requires items != []
    requires h + FlushSent(items, entry) == allSent && kept + FlushKept(items, entry.ip) == allKept
    ensures var resolved := items[0].route.nextHop == entry.ip;
            var h' := if resolved then h + [Sent(Addressed(items[0], entry.mac))] else h;
            var kept' := if resolved then kept else kept + [items[0]];
            h' + FlushSent(items[1..], entry) == allSent && kept' + FlushKept(items[1..], entry.ip) == allKept
  {
  }

  lemma FlushEnd(entry: Entry)
    ensures FlushSent([], entry) == [] && FlushKept([], entry.ip) == []
  {
  }

  // ----- the invariant of every run ---------------------------------------------------

  /** A packet with its link-layer destination forgotten. */
  function Unaddressed(item: Routed): Routed { Addressed(item, []) }

  /** The accepted packets with next hop ip, in order. */
  function AcceptedFor(h: seq<Event>, ip: UInt32): seq<Routed> {
    if h == [] then []
    else
      var front, e := AcceptedFor(h[..|h| - 1], ip), h[|h| - 1];
      if e.Accepted? && e.item.route.nextHop == ip then front + [Unaddressed(e.item)] else front
  }

  /** The sent packets with next hop ip, in order. */
  function SentFor(h: seq<Event>, ip: UInt32): seq<Routed> {
    if h == [] then []
    else
      var front, e := SentFor(h[..|h| - 1], ip), h[|h| - 1];
      if e.Sent? && e.item.route.nextHop == ip then front + [Unaddressed(e.item)] else front
  }

  function PendingFor(items: seq<Routed>, ip: UInt32): seq<Routed> {
    if items == [] then []
    else if items[0].route.nextHop == ip then [Unaddressed(items[0])] + PendingFor(items[1..], ip)
    else PendingFor(items[1..], ip)
  }

  /** The entries learned so far, oldest first. */
  function LearnedIn(h: seq<Event>): seq<Entry> {
    if h == [] then []
    else
      var front, e := LearnedIn(h[..|h| - 1]), h[|h| - 1];
      if e.Learned? then front + [e.entry] else front
  }

  /** Every packet on the wire carries the address learned last for its next hop. */
  predicate SentToLatest(h: seq<Event>) {
    forall i | 0 <= i < |h| && h[i].Sent? ::
      Latest(LearnedIn(h[..i]), h[i].item.route.nextHop) == Some(h[i].item.packet.dhost)
  }

  predicate NothingWaitsInVain(s: ArpState) {
    forall i | 0 <= i < |s.pending| :: Latest(s.entries, s.pending[i].route.nextHop) == None
  }

  ghost predicate Invariant(s: ArpState) {
    && s.entries == LearnedIn(s.history)
    && NothingWaitsInVain(s)
    && SentToLatest(s.history)
    && forall ip: UInt32 :: AcceptedFor(s.history, ip) == SentFor(s.history, ip) + PendingFor(s.pending, ip)
  }

  datatype Input =
    | FromIp(m: Packet, route: Route, out: Interface, junk: Mac)
    | FromArp(a: ArpPacket, on: Interface)

  function Step(s: ArpState, input: Input): ArpState {
    match input
    case FromIp(m, route, out, junk) => DoArp(s, m, route, out, junk)
    case FromArp(a, on) => HandleArp(s, a, on)
  }

  function Run(s: ArpState, inputs: seq<Input>): ArpState
    decreases |inputs|
  {
    if inputs == [] then s else Run(Step(s, inputs[0]), inputs[1..])
  }

  lemma HistoryPush(h: seq<Event>, e: Event, ip: UInt32)
    ensures AcceptedFor(h + [e], ip) ==
            if e.Accepted? && e.item.route.nextHop == ip then AcceptedFor(h, ip) + [Unaddressed(e.item)]
            else AcceptedFor(h, ip)
    ensures SentFor(h + [e], ip) ==
            if e.Sent? && e.item.route.nextHop == ip then SentFor(h, ip) + [Unaddressed(e.item)]
            else SentFor(h, ip)
    ensures LearnedIn(h + [e]) == if e.Learned? then LearnedIn(h) + [e.entry] else LearnedIn(h)
  {
  }

  lemma {:induction false} SentToLatestPush(h: seq<Event>, e: Event)
    requires SentToLatest(h)
    requires e.Sent? ==> Latest(LearnedIn(h), e.item.route.nextHop) == Some(e.item.packet.dhost)
    ensures SentToLatest(h + [e])
  {
    forall i | 0 <= i < |h + [e]| && (h + [e])[i].Sent?
      ensures Latest(LearnedIn((h + [e])[..i]), (h + [e])[i].item.route.nextHop)
           == Some((h + [e])[i].item.packet.dhost)
    {
      assert (h + [e])[..i] == h[..i];
    }
  }

  lemma LatestPush(entries: seq<Entry>, entry: Entry, ip: UInt32)
    ensures Latest(entries + [entry], ip) == if entry.ip == ip then Some(entry.mac) else Latest(entries, ip)
  {
  }

  lemma {:induction false} PendingPush(items: seq<Routed>, item: Routed, ip: UInt32)
    ensures PendingFor(items + [item], ip) ==
            if item.route.nextHop == ip then PendingFor(items, ip) + [Unaddressed(item)] else PendingFor(items, ip)
  {
    if items == [] {
      assert items + [item] == [item];
    } else {
      assert (items + [item])[1..] == items[1..] + [item];
      PendingPush(items[1..], item, ip);
    }
  }

  /** Without an entry for ip nothing was sent to it since; with one nothing waits for it. */
  lemma {:induction false} PendingNone(items: seq<Routed>, ip: UInt32)
    requires forall i | 0 <= i < |items| :: items[i].route.nextHop != ip
    ensures PendingFor(items, ip) == []
  {
    if items != [] { PendingNone(items[1..], ip); }
  }

  lemma DoArpKeepsInvariant(s: ArpState, m: Packet, route: Route, out: Interface, junk: Mac)
    requires Invariant(s)
    ensures Invariant(DoArp(s, m, route, out, junk))
  {
    var s' := DoArp(s, m, route, out, junk);
    var item := Routed(m.(iface := route.iface, shost := out.mac), route);
    var h1 := s.history + [Accepted(item)];
    var found := Latest(s.entries, route.nextHop);
    var e := if found.Some? then Sent(Addressed(item, found.value)) else Asked(Request(route, out.mac, out.ip, junk));
    assert s'.history == h1 + [e];
    HistoryPush(s.history, Accepted(item), 0);
    HistoryPush(h1, e, 0);
    SentToLatestPush(s.history, Accepted(item));
    SentToLatestPush(h1, e);
    forall ip: UInt32 ensures AcceptedFor(s'.history, ip) == SentFor(s'.history, ip) + PendingFor(s'.pending, ip) {
      DoArpProjection(s, item, found, e, ip);
    }
  }

  lemma DoArpProjection(s: ArpState, item: Routed, found: Option<Mac>, e: Event, ip: UInt32)
    requires NothingWaitsInVain(s) && found == Latest(s.entries, item.route.nextHop)
    requires AcceptedFor(s.history, ip) == SentFor(s.history, ip) + PendingFor(s.pending, ip)
    requires if found.Some? then e == Sent(Addressed(item, found.value)) else e.Asked?
    ensures var h := (s.history + [Accepted(item)]) + [e];
            AcceptedFor(h, ip) ==
            SentFor(h, ip) + PendingFor(if found.Some? then s.pending else s.pending + [item], ip)
  {
    hide AcceptedFor, SentFor, Latest;
    HistoryPush(s.history, Accepted(item), ip);
    HistoryPush(s.history + [Accepted(item)], e, ip);
    if found.None? {
      PendingPush(s.pending, item, ip);
      hide PendingFor;
      Collections.Associate(SentFor(s.history, ip), PendingFor(s.pending, ip), [Unaddressed(item)]);
    } else if ip == item.route.nextHop {
      PendingNone(s.pending, ip);
      hide PendingFor;
      assert Unaddressed(e.item) == Unaddressed(item);
      assert SentFor(s.history, ip) + [] == SentFor(s.history, ip);
    }
  }

  lemma LearnKeepsInvariant(s: ArpState, entry: Entry)
    requires Invariant(s)
    ensures Invariant(Learn(s, entry))
  {
    var s' := Learn(s, entry);
    var h1 := s.history + [Learned(entry)];
    HistoryPush(s.history, Learned(entry), 0);
    SentToLatestPush(s.history, Learned(entry));
    LatestPush(s.entries, entry, entry.ip);
    FlushHistory(h1, s.pending, entry);
    forall ip: UInt32 ensures AcceptedFor(s'.history, ip) == SentFor(s'.history, ip) + PendingFor(s'.pending, ip) {
      HistoryPush(s.history, Learned(entry), ip);
      FlushProjections(h1, s.pending, entry, ip);
      KeptProjection(s.pending, entry.ip, ip);
      if ip == entry.ip && Latest(s.entries, ip).Some? { PendingNone(s.pending, ip); }
    }
    KeptStillWait(s, entry);
  }

  lemma {:induction false} FlushHistory(h: seq<Event>, items: seq<Routed>, entry: Entry)
    requires SentToLatest(h) && Latest(LearnedIn(h), entry.ip) == Some(entry.mac)
    ensures SentToLatest(h + FlushSent(items, entry))
    ensures LearnedIn(h + FlushSent(items, entry)) == LearnedIn(h)
    decreases |items|
  {
    if items == [] {
      assert h + [] == h;
    } else if items[0].route.nextHop == entry.ip {
      var e := Sent(Addressed(items[0], entry.mac));
      assert FlushSent(items, entry) == [e] + FlushSent(items[1..], entry);
      hide FlushSent, SentToLatest, LearnedIn, Latest;
      SentToLatestPush(h, e);
      HistoryPush(h, e, entry.ip);
      FlushHistory(h + [e], items[1..], entry);
      Collections.Associate(h, [e], FlushSent(items[1..], entry));
    } else {
      FlushHistory(h, items[1..], entry);
    }
  }

  lemma {:induction false} FlushProjections(h: seq<Event>, items: seq<Routed>, entry: Entry, ip: UInt32)
    ensures AcceptedFor(h + FlushSent(items, entry), ip) == AcceptedFor(h, ip)
    ensures SentFor(h + FlushSent(items, entry), ip) ==
            if ip == entry.ip then SentFor(h, ip) + PendingFor(items, ip) else SentFor(h, ip)
    decreases |items|
  {
    if items == [] {
      assert h + [] == h;
    } else if items[0].route.nextHop == entry.ip {
      var e := Sent(Addressed(items[0], entry.mac));
      var rest := FlushSent(items[1..], entry);
      assert FlushSent(items, entry) == [e] + rest;
      assert PendingFor(items, entry.ip) == [Unaddressed(items[0])] + PendingFor(items[1..], entry.ip);
      FlushProjections(h + [e], items[1..], entry, ip);
      HistoryPush(h, e, ip);
      hide SentFor, AcceptedFor, FlushSent, PendingFor;
      Collections.Associate(h, [e], rest);
      Collections.Associate(SentFor(h, ip), [Unaddressed(items[0])], PendingFor(items[1..], ip));
    } else {
      FlushProjections(h, items[1..], entry, ip);
    }
  }

  lemma {:induction false} KeptProjection(items: seq<Routed>, skipped: UInt32, ip: UInt32)
    ensures PendingFor(FlushKept(items, skipped), ip) == if ip == skipped then [] else PendingFor(items, ip)
  {
    if items != [] {
      KeptProjection(items[1..], skipped, ip);
    }
  }

  lemma {:induction false} KeptAreOthers(items: seq<Routed>, ip: UInt32)
    ensures forall x | x in FlushKept(items, ip) :: x in items && x.route.nextHop != ip
  {
    if items != [] { KeptAreOthers(items[1..], ip); }
  }

  lemma KeptStillWait(s: ArpState, entry: Entry)
    requires NothingWaitsInVain(s)
    ensures NothingWaitsInVain(Learn(s, entry))
  {
    var kept := FlushKept(s.pending, entry.ip);
    KeptAreOthers(s.pending, entry.ip);
    forall i | 0 <= i < |kept| ensures Latest(s.entries + [entry], kept[i].route.nextHop) == None {
      assert kept[i] in kept;
      LatestPush(s.entries, entry, kept[i].route.nextHop);
    }
  }

  lemma ReplyKeepsInvariant(s: ArpState, reply: ArpPacket)
    requires Invariant(s)
    ensures Invariant(s.(history := s.history + [Replied(reply)]))
  {
    var e := Replied(reply);
    SentToLatestPush(s.history, e);
    HistoryPush(s.history, e, 0);
    forall x: UInt32
      ensures AcceptedFor(s.history + [e], x) == SentFor(s.history + [e], x) + PendingFor(s.pending, x)
    {
      HistoryPush(s.history, e, x);
    }
  }

  /** On every run from the start: no waiting packet has a known next hop; for each next hop the packets
      sent and then the packets waiting are the accepted ones, each once and in order of arrival; and each
      was sent to the hardware address learned last before it was sent. */
  lemma {:induction false} EveryRunKeepsInvariant(s: ArpState, inputs: seq<Input>)
    requires Invariant(s)
    ensures Invariant(Run(s, inputs))
    decreases |inputs|
  {
    if inputs != [] {
      match inputs[0] {
        case FromIp(m, route, out, junk) => DoArpKeepsInvariant(s, m, route, out, junk);
        case FromArp(a, on) =>
          ReplyKeepsInvariant(s, Reply(a, on.mac));
          LearnKeepsInvariant(s, Entry(a.spa, a.sha));
      }
      EveryRunKeepsInvariant(Step(s, inputs[0]), inputs[1..]);
    }
  }

  /** A whole exchange between two routers: a packet without a known next hop makes the first one ask; the
      second one, whose interface has that address, answers; the answer makes the first one send all that
      waited for it to the second one's hardware address, and wait no longer. */
  lemma ExchangeResolves(a: ArpState, b: ArpState, m: Packet, route: Route, out: Interface, junk: Mac, far: Interface)
    requires Latest(a.entries, route.nextHop) == None && far.ip == route.nextHop
    ensures var asked := DoArp(a, m, route, out, junk);
            var request := Request(route, out.mac, out.ip, junk);
            var reply := Reply(request, far.mac);
            var done := HandleArp(asked, reply, out);
            && asked.history == a.history + [Accepted(asked.pending[|a.pending|]), Asked(request)]
            && HandleArp(b, request, far) == b.(history := b.history + [Replied(reply)])
            && reply.tha == out.mac && reply.tpa == out.ip
            && Latest(done.entries, route.nextHop) == Some(far.mac)
            && PendingFor(done.pending, route.nextHop) == []
            && done.history == asked.history + [Learned(Entry(far.ip, far.mac))]
                               + FlushSent(asked.pending, Entry(far.ip, far.mac))
            && Sent(Addressed(asked.pending[|a.pending|], far.mac)) in done.history
  {
    var asked := DoArp(a, m, route, out, junk);
    var entry := Entry(far.ip, far.mac);
    LatestPush(asked.entries, entry, route.nextHop);
    KeptProjection(asked.pending, far.ip, far.ip);
    WaitingIsSent(asked.pending, entry, |a.pending|);
  }

  lemma {:induction false} WaitingIsSent(items: seq<Routed>, entry: Entry, i: nat)
    requires i < |items| && items[i].route.nextHop == entry.ip
    ensures Sent(Addressed(items[i], entry.mac)) in FlushSent(items, entry)
  {
    if i > 0 { WaitingIsSent(items[1..], entry, i - 1); }
  }

  lemma RunFromStart(inputs: seq<Input>)
    ensures Invariant(Run(ArpState([], [], []), inputs))
  {
    EveryRunKeepsInvariant(ArpState([], [], []), inputs);
  }

  // ----- what the inputs ask for ----------------------------------------------------------

  /** Entry k says that ip has the address, and no later entry is for ip. */
  predicate IsLastFor(entries: seq<Entry>, ip: UInt32, mac: Mac, k: int) {
    0 <= k < |entries| && entries[k] == Entry(ip, mac) && forall j | k < j < |entries| :: entries[j].ip != ip
  }

  /** `Latest` is the address in the last entry for ip. */
  lemma {:induction false} LatestIsLast(entries: seq<Entry>, ip: UInt32, mac: Mac)
    ensures Latest(entries, ip) == Some(mac) <==> exists k :: IsLastFor(entries, ip, mac, k)
    ensures Latest(entries, ip) == None <==> forall k | 0 <= k < |entries| :: entries[k].ip != ip
  {
    if entries != [] {
      var n := |entries| - 1;
      var front := entries[..n];
      LatestIsLast(front, ip, mac);
      if entries[n] == Entry(ip, mac) { assert IsLastFor(entries, ip, mac, n); }
      if entries[n].ip != ip {
        forall k ensures IsLastFor(entries, ip, mac, k) <==> IsLastFor(front, ip, mac, k) {
          if IsLastFor(front, ip, mac, k) { assert entries[k] == front[k]; }
        }
      }
    }
  }

  /** 1 and 2 in network byte order. */
  const REQUEST_ON_WIRE: UInt16 := 0x0100
  const REPLY_ON_WIRE: UInt16 := 0x0200

  /** The packets that the inputs hand over for next hop ip: on the interface of the route, from its address, with
      the destination left open. */
  function HandedOver(inputs: seq<Input>, ip: UInt32): seq<Routed> {
    if inputs == [] then []
    else
      (match inputs[0]
       case FromIp(m, route, out, _) =>
         if route.nextHop == ip then [Routed(Packet([], out.mac, route.iface, m.body), route)] else []
       case FromArp(_, _) => [])
      + HandedOver(inputs[1..], ip)
  }

  predicate IsOwnRequest(a: ArpPacket, on: Interface) { a.op == REQUEST_ON_WIRE && a.tpa == on.ip }

  /** The senders of the ARP packets that are not requests for the receiving interface's address. */
  function Announced(inputs: seq<Input>): seq<Entry> {
    if inputs == [] then []
    else
      (match inputs[0]
       case FromIp(_, _, _, _) => []
       case FromArp(a, on) => if IsOwnRequest(a, on) then [] else [Entry(a.spa, a.sha)])
      + Announced(inputs[1..])
  }

  /** The answers to the others: from the interface's address to the sender. */
  function Answers(inputs: seq<Input>): seq<ArpPacket> {
    if inputs == [] then []
    else
      (match inputs[0]
       case FromIp(_, _, _, _) => []
       case FromArp(a, on) =>
         if IsOwnRequest(a, on) then [ArpPacket(REPLY_ON_WIRE, on.mac, on.ip, a.sha, a.spa)] else [])
      + Answers(inputs[1..])
  }

  /** The requests for next hops that are not known when a packet for them is handed over. */
  function Questions(entries: seq<Entry>, inputs: seq<Input>): seq<ArpPacket>
    decreases |inputs|
  {
    if inputs == [] then []
    else
      match inputs[0]
      case FromIp(_, route, out, junk) =>
        (if Latest(entries, route.nextHop) == None
         then [ArpPacket(REQUEST_ON_WIRE, out.mac, out.ip, junk, route.nextHop)] else [])
        + Questions(entries, inputs[1..])
      case FromArp(_, _) => Questions(entries + Announced(inputs[..1]), inputs[1..])
  }

  function RepliesIn(h: seq<Event>): seq<ArpPacket> {
    if h == [] then []
    else
      var front, e := RepliesIn(h[..|h| - 1]), h[|h| - 1];
      if e.Replied? then front + [e.reply] else front
  }

  function AsksIn(h: seq<Event>): seq<ArpPacket> {
    if h == [] then []
    else
      var front, e := AsksIn(h[..|h| - 1]), h[|h| - 1];
      if e.Asked? then front + [e.request] else front
  }

  lemma PacketsPush(h: seq<Event>, e: Event)
    ensures RepliesIn(h + [e]) == if e.Replied? then RepliesIn(h) + [e.reply] else RepliesIn(h)
    ensures AsksIn(h + [e]) == if e.Asked? then AsksIn(h) + [e.request] else AsksIn(h)
  {
  }

  /** Sending what waited adds nothing to what was accepted, learned, answered or asked. */
  lemma {:induction false} FlushIsOnlySent(h: seq<Event>, items: seq<Routed>, entry: Entry, ip: UInt32)
    ensures var h' := h + FlushSent(items, entry);
            && AcceptedFor(h', ip) == AcceptedFor(h, ip) && LearnedIn(h') == LearnedIn(h)
            && RepliesIn(h') == RepliesIn(h) && AsksIn(h') == AsksIn(h)
    decreases |items|
  {
    if items == [] {
      assert h + [] == h;
    } else if items[0].route.nextHop == entry.ip {
      var e := Sent(Addressed(items[0], entry.mac));
      FlushIsOnlySent(h + [e], items[1..], entry, ip);
      HistoryPush(h, e, ip);
      PacketsPush(h, e);
      hide AcceptedFor, LearnedIn, RepliesIn, AsksIn;
      Collections.Associate(h, [e], FlushSent(items[1..], entry));
    } else {
      FlushIsOnlySent(h, items[1..], entry, ip);
    }
  }

  /** What one input adds to the four projections of the history. */
  predicate Follows(s: ArpState, s': ArpState, ip: UInt32, accepted: seq<Routed>, learned: seq<Entry>,
                    replies: seq<ArpPacket>, asks: seq<ArpPacket>) {
    && AcceptedFor(s'.history, ip) == AcceptedFor(s.history, ip) + accepted
    && LearnedIn(s'.history) == LearnedIn(s.history) + learned
    && s'.entries == s.entries + learned
    && RepliesIn(s'.history) == RepliesIn(s.history) + replies
    && AsksIn(s'.history) == AsksIn(s.history) + asks
  }

  lemma PacketFollows(s: ArpState, m: Packet, route: Route, out: Interface, junk: Mac, ip: UInt32)
    ensures Follows(s, DoArp(s, m, route, out, junk), ip,
                    if route.nextHop == ip then [Routed(Packet([], out.mac, route.iface, m.body), route)] else [],
                    [], [],
                    if Latest(s.entries, route.nextHop) == None
                    then [ArpPacket(REQUEST_ON_WIRE, out.mac, out.ip, junk, route.nextHop)] else [])
  {
    hide AcceptedFor, LearnedIn, RepliesIn, AsksIn, Latest;
    var item := Routed(m.(iface := route.iface, shost := out.mac), route);
    var h1 := s.history + [Accepted(item)];
    var found := Latest(s.entries, route.nextHop);
    var e := if found.Some? then Sent(Addressed(item, found.value)) else Asked(Request(route, out.mac, out.ip, junk));
    assert DoArp(s, m, route, out, junk).history == h1 + [e];
    HistoryPush(s.history, Accepted(item), ip);
    HistoryPush(h1, e, ip);
    PacketsPush(s.history, Accepted(item));
    PacketsPush(h1, e);
  }

  lemma LearnFollows(s: ArpState, entry: Entry, ip: UInt32)
    ensures Follows(s, Learn(s, entry), ip, [], [entry], [], [])
  {
    hide AcceptedFor, LearnedIn, RepliesIn, AsksIn, FlushSent;
    HistoryPush(s.history, Learned(entry), ip);
    PacketsPush(s.history, Learned(entry));
    FlushIsOnlySent(s.history + [Learned(entry)], s.pending, entry, ip);
  }

  lemma ReplyFollows(s: ArpState, reply: ArpPacket, ip: UInt32)
    ensures Follows(s, s.(history := s.history + [Replied(reply)]), ip, [], [], [reply], [])
  {
    hide AcceptedFor, LearnedIn, RepliesIn, AsksIn;
    HistoryPush(s.history, Replied(reply), ip);
    PacketsPush(s.history, Replied(reply));
  }

  lemma StepFollowsInput(s: ArpState, input: Input, ip: UInt32)
    ensures Follows(s, Step(s, input), ip, HandedOver([input], ip), Announced([input]), Answers([input]),
                    Questions(s.entries, [input]))
  {
    assert [input][1..] == [] && [input][..1] == [input];
    hide Follows, DoArp, Learn, Latest;
    match input
    case FromIp(m, route, out, junk) => PacketFollows(s, m, route, out, junk, ip);
    case FromArp(a, on) =>
      if IsOwnRequest(a, on) {
        ReplyFollows(s, Reply(a, on.mac), ip);
      } else {
        LearnFollows(s, Entry(a.spa, a.sha), ip);
      }
  }

  lemma FirstInput(inputs: seq<Input>, entries: seq<Entry>, ip: UInt32)
    requires inputs != []
    ensures HandedOver(inputs, ip) == HandedOver([inputs[0]], ip) + HandedOver(inputs[1..], ip)
    ensures Announced(inputs) == Announced([inputs[0]]) + Announced(inputs[1..])
    ensures Answers(inputs) == Answers([inputs[0]]) + Answers(inputs[1..])
    ensures Questions(entries, inputs) ==
            Questions(entries, [inputs[0]]) + Questions(entries + Announced([inputs[0]]), inputs[1..])
  {
    assert [inputs[0]][1..] == [] && [inputs[0]][..1] == [inputs[0]] && inputs[..1] == [inputs[0]];
    assert entries + [] == entries;
  }

  /** On every run, whatever the state it starts in: exactly the packets handed over are accepted, exactly the others'
      announcements are learned, exactly the requests for an own address are answered, and exactly the next hops not
      known at the time are asked for, each in order. */
  lemma {:induction false} RunFollowsInputs(s: ArpState, inputs: seq<Input>, ip: UInt32)
    ensures var h := Run(s, inputs).history;
            && AcceptedFor(h, ip) == AcceptedFor(s.history, ip) + HandedOver(inputs, ip)
            && LearnedIn(h) == LearnedIn(s.history) + Announced(inputs)
            && Run(s, inputs).entries == s.entries + Announced(inputs)
            && RepliesIn(h) == RepliesIn(s.history) + Answers(inputs)
            && AsksIn(h) == AsksIn(s.history) + Questions(s.entries, inputs)
    decreases |inputs|
  {
    if inputs != [] {
      var s1 := Step(s, inputs[0]);
      StepFollowsInput(s, inputs[0], ip);
      RunFollowsInputs(s1, inputs[1..], ip);
      FirstInput(inputs, s.entries, ip);
      hide AcceptedFor, LearnedIn, RepliesIn, AsksIn, HandedOver, Announced, Answers, Questions, Step;
      Collections.Associate(AcceptedFor(s.history, ip), HandedOver([inputs[0]], ip), HandedOver(inputs[1..], ip));
      Collections.Associate(LearnedIn(s.history), Announced([inputs[0]]), Announced(inputs[1..]));
      Collections.Associate(s.entries, Announced([inputs[0]]), Announced(inputs[1..]));
      Collections.Associate(RepliesIn(s.history), Answers([inputs[0]]), Answers(inputs[1..]));
      Collections.Associate(AsksIn(s.history), Questions(s.entries, [inputs[0]]), Questions(s1.entries, inputs[1..]));
    }
  }

  /** From the start: for each next hop, the packets sent and then those waiting are exactly the packets handed over for
      it, in order, and what waits is for a next hop that nobody announced. */
  lemma RunDelivers(inputs: seq<Input>, ip: UInt32)
    ensures var s := Run(ArpState([], [], []), inputs);
            && SentFor(s.history, ip) + PendingFor(s.pending, ip) == HandedOver(inputs, ip)
            && ((exists e :: e in Announced(inputs) && e.ip == ip) ==> SentFor(s.history, ip) == HandedOver(inputs, ip))
  {
    var s := Run(ArpState([], [], []), inputs);
    RunFromStart(inputs);
    RunFollowsInputs(ArpState([], [], []), inputs, ip);
    assert [] + HandedOver(inputs, ip) == HandedOver(inputs, ip);
    assert [] + Announced(inputs) == Announced(inputs);
    if e :| e in Announced(inputs) && e.ip == ip {
      LatestIsLast(s.entries, ip, e.mac);
      forall i | 0 <= i < |s.pending| ensures s.pending[i].route.nextHop != ip { }
      PendingNone(s.pending, ip);
      assert SentFor(s.history, ip) + [] == SentFor(s.history, ip);
    }
  }
}
