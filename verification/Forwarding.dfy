/** The forwarding of IPv4 headers: checksum test, TTL update, error replies and
    the search for a route. */
module Forwarding {
  import opened Machine
  import opened Checksum
  import opened RouteTable

  const HEADER_SIZE: nat := 20
  const MAX_TTL: UInt8 := 62
  const ICMP_PROTOCOL: UInt8 := 1

  predicate IsHeader(h: Bytes) { |h| == HEADER_SIZE }

  // ----- fields -------------------------------------------------------------------

  function Ttl(h: Bytes): UInt8
    requires IsHeader(h)
  {
    h[8]
  }

  function Protocol(h: Bytes): UInt8
    requires IsHeader(h)
  {
    h[9]
  }

  /** `check`, as the host reads it. */
  function Check(h: Bytes): UInt16
    requires IsHeader(h)
  {
    Load16([h[10], h[11]])
  }

  function WithCheck(h: Bytes, v: UInt16): (r: Bytes)
    requires IsHeader(h)
    ensures IsHeader(r) && Check(r) == v
  {
    h[10 := v % 256][11 := v / 256]
  }

  function Source(h: Bytes): UInt32
    requires IsHeader(h)
  {
    Load32(h[12..16])
  }

  function Destination(h: Bytes): UInt32
    requires IsHeader(h)
  {
    Load32(h[16..20])
  }

  /** `ip_checksum` of the header with its check field cleared. */
  function HeaderValue(h: Bytes): UInt16
    requires IsHeader(h)
  {
    IpValue(WithCheck(h, 0))
  }

  predicate CheckIsRight(h: Bytes)
    requires IsHeader(h)
  {
    Check(h) == HeaderValue(h)
  }

  // ----- the TTL update -------------------------------------------------------------

  /** `actual_checksum - ~prev_ttl - new_ttl - 1` in `int` arithmetic, stored in 16 bits. */
  function UpdatedCheck(actual: UInt16, prevTtl: UInt8, newTtl: UInt8): UInt16 {
    var complement := -(prevTtl as int) - 1;
    (actual - complement - newTtl - 1) % TWO_16
  }

  function LowerTtl(h: Bytes): (r: Bytes)
    requires IsHeader(h)
    ensures IsHeader(r)
  {
    var newTtl := (Ttl(h) as int - 1) % 256;
    WithCheck(h[8 := newTtl], UpdatedCheck(HeaderValue(h), Ttl(h), newTtl))
  }

  /** The first half of `forward_ip`. */
  method VerifyAndLowerTtl(h: array<UInt8>, address: nat) returns (ok: bool)
    requires h.Length == HEADER_SIZE
    modifies h
    ensures ok == CheckIsRight(old(h[..]))
    ensures h[..] == if ok then LowerTtl(old(h[..])) else WithCheck(old(h[..]), 0)
  {
    hide IpValue;
    ghost var before: Bytes := h[..];
    var received := Load16([h[10], h[11]]);
    h[10], h[11] := 0, 0;
    assert h[..] == WithCheck(before, 0);
    var actual := IpChecksum(h[..], address);
    if received != actual { return false; }
    var prevTtl := h[8];
    h[8] := (h[8] as int - 1) % 256;
    var check := UpdatedCheck(actual, prevTtl, h[8]);
    h[10], h[11] := check % 256, check / 256;
    assert h[..] == LowerTtl(before);
    return true;
  }

  lemma {:induction false} LittleSumUpdate(data: Bytes, i: nat, b: UInt8)
    requires i < |data| && i % 2 == 0 && |data| % 2 == 0
    ensures LittleSum(data[i := b]) == LittleSum(data) - data[i] + b
  {
    if i == 0 {
      assert data[i := b][2..] == data[2..];
    } else {
      assert data[i := b][2..] == data[2..][i - 2 := b];
      LittleSumUpdate(data[2..], i - 2, b);
    }
  }

  /** The incremental update against a recomputation over the header with the lower TTL: with a positive
      TTL they are congruent modulo 65535, and the same unless the old value was 0xFFFE. */
  lemma TtlUpdate(h: Bytes)
    requires IsHeader(h) && CheckIsRight(h)
    ensures Congruent(Check(LowerTtl(h)), HeaderValue(LowerTtl(h))) <==> Ttl(h) >= 1 || Check(h) >= 255
    ensures CheckIsRight(LowerTtl(h)) <==> if Ttl(h) >= 1 then Check(h) != 0xFFFE else Check(h) >= 255
  {
    if Ttl(h) >= 1 { UpdatePositiveTtl(h); } else { UpdateZeroTtl(h); }
  }

  /** The sum of the little-endian words outside the check field. */
  function OtherWords(h: Bytes): nat
    requires IsHeader(h)
  {
    LittleSum(WithCheck(h, 0))
  }

  lemma HeaderValueIsResidue(h: Bytes)
    requires IsHeader(h)
    ensures HeaderValue(h) == 65535 - Residue(OtherWords(h))
  {
    IpValueIsLittle(WithCheck(h, 0));
  }

  lemma LowerTtlSum(h: Bytes, newTtl: UInt8)
    requires IsHeader(h) && newTtl == (if Ttl(h) == 0 then 255 else Ttl(h) - 1)
    ensures OtherWords(h) >= Ttl(h)
    ensures OtherWords(LowerTtl(h)) == OtherWords(h) - Ttl(h) + newTtl
    ensures Check(LowerTtl(h)) == UpdatedCheck(HeaderValue(h), Ttl(h), newTtl)
  {
    hide HeaderValue, LittleSum;
    var z := WithCheck(h, 0);
    assert (Ttl(h) as int - 1) % 256 == newTtl;
    assert WithCheck(LowerTtl(h), 0) == z[8 := newTtl];
    LittleSumUpdate(z, 8, newTtl);
    LittleSumPositive(z, 8);
  }

  lemma UpdatePositiveTtl(h: Bytes)
    requires IsHeader(h) && CheckIsRight(h) && Ttl(h) >= 1
    ensures Congruent(Check(LowerTtl(h)), HeaderValue(LowerTtl(h)))
    ensures CheckIsRight(LowerTtl(h)) <==> Check(h) != 0xFFFE
  {
    LowerTtlSum(h, Ttl(h) - 1);
    HeaderValueIsResidue(h);
    HeaderValueIsResidue(LowerTtl(h));
    hide HeaderValue, LowerTtl, OtherWords, Residue, Check, Congruent;
    ResidueShifted(OtherWords(h), -1);
    UpdateFromTtl(Residue(OtherWords(h)), HeaderValue(LowerTtl(h)), Check(LowerTtl(h)));
  }

  lemma UpdateZeroTtl(h: Bytes)
    requires IsHeader(h) && CheckIsRight(h) && Ttl(h) == 0
    ensures Congruent(Check(LowerTtl(h)), HeaderValue(LowerTtl(h))) <==> Check(h) >= 255
    ensures CheckIsRight(LowerTtl(h)) <==> Check(h) >= 255
  {
    LowerTtlSum(h, 255);
    HeaderValueIsResidue(h);
    HeaderValueIsResidue(LowerTtl(h));
    hide HeaderValue, LowerTtl, OtherWords, Residue, Check, Congruent;
    ResidueShifted(OtherWords(h), 255);
    UpdateFromZero(Residue(OtherWords(h)), HeaderValue(LowerTtl(h)), Check(LowerTtl(h)));
  }

  lemma {:induction false} LittleSumPositive(data: Bytes, i: nat)
    requires i < |data| && i % 2 == 0 && |data| % 2 == 0
    ensures LittleSum(data) >= data[i]
  {
    if i > 0 { LittleSumPositive(data[2..], i - 2); }
  }

  /** r moved by d within 1..65535. */
  function Around(r: int, d: int): int {
    if r + d > 65535 then r + d - 65535 else if r + d < 1 then r + d + 65535 else r + d
  }

  lemma ResidueShifted(n: nat, d: int)
    requires -255 <= d <= 255 && n + d >= 0
    ensures Residue(n + d) == Around(Residue(n), d)
  {
    var r := Residue(n);
    var k :| DiffersBy(r, n, k);
    var shifted := Around(r, d);
    CongruentBy(shifted, n + d, if r + d > 65535 then k - 1 else if r + d < 1 then k + 1 else k);
    ResidueUnique(shifted, n + d);
  }

  /** A positive TTL: the stored value is one more than the old one. */
  lemma UpdateFromTtl(r: int, recomputed: int, stored: int)
    requires 1 <= r <= 65535
    requires recomputed == 65535 - Around(r, -1)
    requires stored == (65535 - r + 1) % TWO_16
    ensures Congruent(stored, recomputed)
    ensures stored == recomputed <==> r != 1
  {
    assert stored == 65535 - r + 1;
    CongruentBy(stored, recomputed, if r == 1 then 1 else 0);
  }

  /** TTL 0 wraps to 255: the stored value is 255 less than the old one. */
  lemma UpdateFromZero(r: int, recomputed: int, stored: int)
    requires 1 <= r <= 65535
    requires recomputed == 65535 - Around(r, 255)
    requires stored == (65535 - r - 255) % TWO_16
    ensures Congruent(stored, recomputed) <==> 65535 - r >= 255
    ensures stored == recomputed <==> 65535 - r >= 255
  {
    if 65535 - r >= 255 {
      CongruentBy(stored, recomputed, 0);
    } else {
      assert stored == 65535 - r - 255 + TWO_16;
      assert stored == recomputed + 1;
      forall k ensures !DiffersBy(stored, recomputed, k) { }
    }
  }

  // ----- error replies ----------------------------------------------------------------

  /** The header fields that `create_error_icmp` writes; the total length is not put in network order. */
  function ErrorHeader(h: Bytes, myIp: UInt32): (r: Bytes)
    requires IsHeader(h)
    ensures IsHeader(r) && Source(r) == myIp && Destination(r) == Source(h)
    ensures Ttl(r) == MAX_TTL && Protocol(r) == ICMP_PROTOCOL
  {
    var mine := Store32(myIp);
    var r := h[16 := h[12]][17 := h[13]][18 := h[14]][19 := h[15]];
    var s := r[12 := mine[0]][13 := mine[1]][14 := mine[2]][15 := mine[3]];
    var u := s[9 := ICMP_PROTOCOL][2 := 86][3 := 0][8 := MAX_TTL];
    assert u[12..16] == mine && u[16..20] == h[12..16];
    u
  }

  /** An error reply, with its checksum computed afresh. */
  function Bounced(h: Bytes, myIp: UInt32): (r: Bytes)
    requires IsHeader(h)
    ensures IsHeader(r) && Source(r) == myIp && Destination(r) == Source(h)
    ensures CheckIsRight(r)
  {
    var e := ErrorHeader(h, myIp);
    var r := WithCheck(e, HeaderValue(e));
    assert WithCheck(r, 0) == WithCheck(e, 0);
    assert r[12..16] == e[12..16] && r[16..20] == e[16..20];
    r
  }

  function BouncedTimes(h: Bytes, myIp: UInt32, n: nat): (r: Bytes)
    requires IsHeader(h)
    ensures IsHeader(r)
    decreases n
  {
    if n == 0 then h else BouncedTimes(Bounced(h, myIp), myIp, n - 1)
  }

  /** `create_error_icmp`, as far as the header goes. */
  method CreateErrorIcmp(h: array<UInt8>, myIp: UInt32)
    requires h.Length == HEADER_SIZE
    modifies h
    ensures h[..] == ErrorHeader(old(h[..]), myIp)
  {
    ghost var before: Bytes := h[..];
    h[16], h[17], h[18], h[19] := h[12], h[13], h[14], h[15];
    ghost var r: Bytes := h[..];
    assert r == before[16 := before[12]][17 := before[13]][18 := before[14]][19 := before[15]];
    var mine := Store32(myIp);
    h[12], h[13], h[14], h[15] := mine[0], mine[1], mine[2], mine[3];
    ghost var s: Bytes := h[..];
    assert s == r[12 := mine[0]][13 := mine[1]][14 := mine[2]][15 := mine[3]];
    h[9] := ICMP_PROTOCOL;
    h[2], h[3] := 86, 0;
    h[8] := MAX_TTL;
    assert h[..] == s[9 := ICMP_PROTOCOL][2 := 86][3 := 0][8 := MAX_TTL];
  }

  /** The recomputation of the checksum that follows each call of `create_error_icmp`. */
  method Bounce(h: array<UInt8>, address: nat, myIp: UInt32)
    requires h.Length == HEADER_SIZE
    modifies h
    ensures h[..] == Bounced(old(h[..]), myIp)
  {
    CreateErrorIcmp(h, myIp);
    ghost var e := h[..];
    h[10], h[11] := 0, 0;
    assert h[..] == WithCheck(e, 0);
    var check := IpChecksum(h[..], address);
    h[10], h[11] := check % 256, check / 256;
    assert h[..] == WithCheck(e, HeaderValue(e));
  }

  // ----- the search for a route ---------------------------------------------------------

  /** How many replies it takes until the search finds a match for the destination; 3 stands for never. */
  function Rank(t: Table, h: Bytes, myIp: UInt32): nat
    requires t != [] && IsHeader(h)
  {
    if Found(t, Destination(h)) then 0
    else if Found(t, Source(h)) then 1
    else if Found(t, myIp) then 2
    else 3
  }

  /** `best_route_search`. */
  method BestRouteSearch(t: Table, h: array<UInt8>, address: nat, myIp: UInt32) returns (best: Route)
    requires t != [] && h.Length == HEADER_SIZE && Rank(t, h[..], myIp) < 3
    modifies h
    ensures best == t[BinarySearch(t, 0, |t| - 1, Destination(h[..]))] && Matches(best, Destination(h[..]))
    ensures h[..] == BouncedTimes(old(h[..]), myIp, Rank(t, old(h[..]), myIp))
    decreases Rank(t, h[..], myIp)
  {
    var ip := Load32(h[16..20]);
    assert h[..][16..20] == h[16..20];
    best := t[BinarySearch(t, 0, |t| - 1, ip)];
    if !Matches(best, ip) {
      ghost var before: Bytes := h[..];
      Bounce(h, address, myIp);
      RankDrops(t, before, myIp);
      best := BestRouteSearch(t, h, address, myIp);
    }
  }

  lemma RankDrops(t: Table, h: Bytes, myIp: UInt32)
    requires t != [] && IsHeader(h) && !Found(t, Destination(h))
    ensures Rank(t, Bounced(h, myIp), myIp) == if Rank(t, h, myIp) == 3 then 3 else Rank(t, h, myIp) - 1
  {
    hide Found;
  }

  /** After n replies the search finds a match exactly if n is the rank, or more: the recursion ends exactly when one
      is found for the destination, the sender or the interface address, and otherwise goes on for ever. */
  lemma {:induction false} SearchEnds(t: Table, h: Bytes, myIp: UInt32, n: nat)
    requires t != [] && IsHeader(h)
    ensures n < Rank(t, h, myIp) || Rank(t, h, myIp) == 3 ==> !Found(t, Destination(BouncedTimes(h, myIp, n)))
    ensures n == Rank(t, h, myIp) < 3 ==> Found(t, Destination(BouncedTimes(h, myIp, n)))
    decreases n
  {
    hide HeaderValue, Bounced, Found;
    if Rank(t, h, myIp) > 0 {
      RankDrops(t, h, myIp);
      if n > 0 { SearchEnds(t, Bounced(h, myIp), myIp, n - 1); }
    }
  }

  /** On a sorted table with one mask, what counts is whether there is a route. */
  lemma RankOnOneMask(t: Table, h: Bytes, myIp: UInt32)
    requires t != [] && Sorted(t) && CommonMask(t) && IsHeader(h)
    ensures Rank(t, h, myIp) < 3 <==>
            HasRoute(t, Destination(h)) || HasRoute(t, Source(h)) || HasRoute(t, myIp)
  {
    SearchIsComplete(t, Destination(h));
    SearchIsComplete(t, Source(h));
    SearchIsComplete(t, myIp);
    hide Found, HasRoute;
  }

  // ----- forward_ip -------------------------------------------------------------------

  /** An ICMP message for the router itself. */
  predicate IsForRouter(h: Bytes, myIp: UInt32)
    requires IsHeader(h)
  {
    Destination(h) == myIp && Protocol(h) == ICMP_PROTOCOL
  }

  /** The type and code behind the header are those of an echo request. */
  predicate IsEchoRequest(icmpType: UInt8, icmpCode: UInt8) { icmpType == 8 && icmpCode == 0 }

  /** The header that the search for a route starts from. `create_echo_reply` sets the TTL and leaves the addresses
      and the checksum. */
  function Prepared(h: Bytes, myIp: UInt32, icmpType: UInt8, icmpCode: UInt8): (r: Bytes)
    requires IsHeader(h)
    ensures IsHeader(r)
  {
    var lower := LowerTtl(h);
    if IsForRouter(h, myIp) then (if IsEchoRequest(icmpType, icmpCode) then lower[8 := MAX_TTL] else lower)
    else if Ttl(lower) == 0 then Bounced(lower, myIp)
    else lower
  }

  /** `tot_len`, as the host reads it. */
  function TotalLength(h: Bytes): UInt16
    requires IsHeader(h)
  {
    Load16([h[2], h[3]])
  }

  /** The bytes of TTL and checksum. */
  predicate IsTtlOrCheck(i: nat) { i == 8 || i == 10 || i == 11 }

  /** An expired packet goes back to its sender as an error message of the router, whose length field counts the
      Ethernet header (14 bytes), the ICMP header (8) and 64 bytes of payload, in host order. */
  lemma ExpiredGoesBack(h: Bytes, myIp: UInt32, icmpType: UInt8, icmpCode: UInt8)
    requires IsHeader(h) && Ttl(h) == 1 && !IsForRouter(h, myIp)
    ensures var p := Prepared(h, myIp, icmpType, icmpCode);
            && Source(p) == myIp && Destination(p) == Source(h)
            && Ttl(p) == 62 && Protocol(p) == 1 && CheckIsRight(p)
            && TotalLength(p) == 14 + 8 + 64
            && forall i | 0 <= i < 8 && i != 2 && i != 3 :: p[i] == h[i]
  {
    LowerTtlKeepsProtocol(h);
    LowerTtlKeepsBytes(h);
    hide HeaderValue;
  }

  lemma LowerTtlKeepsBytes(h: Bytes)
    requires IsHeader(h)
    ensures forall i | 0 <= i < HEADER_SIZE && !IsTtlOrCheck(i) :: LowerTtl(h)[i] == h[i]
  {
    hide HeaderValue;
  }

  /** Any other packet goes on to where it was addressed with nothing changed but TTL and checksum: the TTL is one
      lower, or 62 in the answer to an echo request (type 8, code 0) to the router. */
  lemma OthersGoOn(h: Bytes, myIp: UInt32, icmpType: UInt8, icmpCode: UInt8)
    requires IsHeader(h) && (Ttl(h) == 1 ==> IsForRouter(h, myIp))
    ensures var p := Prepared(h, myIp, icmpType, icmpCode);
            && (forall i | 0 <= i < HEADER_SIZE && !IsTtlOrCheck(i) :: p[i] == h[i])
            && Source(p) == Source(h) && Destination(p) == Destination(h) && Protocol(p) == Protocol(h)
            && Ttl(p) == (if Destination(h) == myIp && Protocol(h) == 1 && icmpType == 8 && icmpCode == 0 then 62
                          else if Ttl(h) == 0 then 255 else Ttl(h) - 1)
  {
    LowerTtlKeepsProtocol(h);
    LowerTtlKeepsBytes(h);
    hide HeaderValue, LowerTtl;
    var p := Prepared(h, myIp, icmpType, icmpCode);
    assert p[12..16] == h[12..16] && p[16..20] == h[16..20];
  }

  /** `forward_ip`; the ICMP type and code are those of the message behind the header. */
  method ForwardIp(t: Table, h: array<UInt8>, address: nat, myIp: UInt32, icmpType: UInt8, icmpCode: UInt8)
    returns (ok: bool, best: Route)
    requires t != [] && h.Length == HEADER_SIZE
    requires CheckIsRight(h[..]) ==> Rank(t, Prepared(h[..], myIp, icmpType, icmpCode), myIp) < 3
    modifies h
    ensures ok == CheckIsRight(old(h[..]))
    ensures ok ==>
              best == t[BinarySearch(t, 0, |t| - 1, Destination(h[..]))] && Matches(best, Destination(h[..]))
    ensures ok ==> h[..] == Forwarded(t, old(h[..]), myIp, icmpType, icmpCode)
  {
    hide HeaderValue, LowerTtl, Bounced, Found;
    best := t[0];
    var ip := Load32(h[16..20]);
    assert h[..][16..20] == h[16..20];
    ok := VerifyAndLowerTtl(h, address);
    if !ok { return; }
    LowerTtlKeepsProtocol(old(h[..]));
    if ip == myIp && h[9] == ICMP_PROTOCOL {
      if IsEchoRequest(icmpType, icmpCode) {
        h[8] := MAX_TTL;
        assert h[..] == LowerTtl(old(h[..]))[8 := MAX_TTL];
      }
    } else if h[8] == 0 {
      Bounce(h, address, myIp);
    }
    best := BestRouteSearch(t, h, address, myIp);
  }

  lemma LowerTtlKeepsProtocol(h: Bytes)
    requires IsHeader(h)
    ensures Protocol(LowerTtl(h)) == Protocol(h)
    ensures Source(LowerTtl(h)) == Source(h) && Destination(LowerTtl(h)) == Destination(h)
    ensures Ttl(LowerTtl(h)) == if Ttl(h) == 0 then 255 else Ttl(h) - 1
  {
    hide HeaderValue;
    assert LowerTtl(h)[12..16] == h[12..16] && LowerTtl(h)[16..20] == h[16..20];
  }

  function Forwarded(t: Table, h: Bytes, myIp: UInt32, icmpType: UInt8, icmpCode: UInt8): (r: Bytes)
    requires t != [] && IsHeader(h)
    ensures IsHeader(r)
  {
    var p := Prepared(h, myIp, icmpType, icmpCode);
    BouncedTimes(p, myIp, Rank(t, p, myIp))
  }

  lemma {:induction false} BouncedIsRight(h: Bytes, myIp: UInt32, n: nat)
    requires IsHeader(h) && (n > 0 || CheckIsRight(h))
    ensures CheckIsRight(BouncedTimes(h, myIp, n))
    decreases n
  {
    hide HeaderValue, Bounced;
    if n > 0 { BouncedIsRight(Bounced(h, myIp), myIp, n - 1); }
  }

  /** The checksum of an echo reply is updated for the lower TTL, but not for the TTL that the reply gets. */
  lemma EchoReplyCheck(h: Bytes)
    requires IsHeader(h) && CheckIsRight(h)
    ensures CheckIsRight(LowerTtl(h)[8 := MAX_TTL]) <==> Ttl(h) == MAX_TTL + 1 && Check(h) != 0xFFFE
  {
    var reply := LowerTtl(h)[8 := MAX_TTL];
    var newTtl: UInt8 := if Ttl(h) == 0 then 255 else Ttl(h) - 1;
    var d := MAX_TTL as int - Ttl(h);
    LowerTtlSum(h, newTtl);
    ReplySum(h, newTtl);
    HeaderValueIsResidue(h);
    HeaderValueIsResidue(reply);
    hide HeaderValue, LowerTtl, OtherWords, Residue, Check, UpdatedCheck, Around;
    ResidueShifted(OtherWords(h), d);
    ReplyFromTtl(Residue(OtherWords(h)), Ttl(h), newTtl);
  }

  lemma ReplyFromTtl(r: int, ttl: UInt8, newTtl: UInt8)
    requires 1 <= r <= 65535 && newTtl == (if ttl == 0 then 255 else ttl - 1)
    ensures UpdatedCheck(65535 - r, ttl, newTtl) == 65535 - Around(r, MAX_TTL as int - ttl) <==>
            ttl == MAX_TTL + 1 && 65535 - r != 0xFFFE
  {
    if ttl > 0 { assert UpdatedCheck(65535 - r, ttl, newTtl) == 65535 - r + 1; }
  }

  lemma ReplySum(h: Bytes, newTtl: UInt8)
    requires IsHeader(h) && newTtl == (if Ttl(h) == 0 then 255 else Ttl(h) - 1)
    ensures var reply := LowerTtl(h)[8 := MAX_TTL];
            && OtherWords(h) >= Ttl(h) && OtherWords(reply) == OtherWords(h) - Ttl(h) + MAX_TTL
            && Check(reply) == Check(LowerTtl(h))
  {
    hide HeaderValue, LittleSum;
    var z := WithCheck(h, 0);
    assert WithCheck(LowerTtl(h)[8 := MAX_TTL], 0) == z[8 := MAX_TTL];
    LittleSumUpdate(z, 8, MAX_TTL);
    LittleSumPositive(z, 8);
  }

  /** Exactly when the checksum of the header that is sent on is right: always after an error reply, for an echo
      reply when its TTL happens to be the lowered one, and otherwise unless the old checksum was 0xFFFE (or below
      255, for the TTL 0 that wraps around). */
  lemma {:induction false} ForwardedIsRight(t: Table, h: Bytes, myIp: UInt32, icmpType: UInt8, icmpCode: UInt8)
    requires t != [] && IsHeader(h) && CheckIsRight(h)
    ensures CheckIsRight(Forwarded(t, h, myIp, icmpType, icmpCode)) <==>
            || (!IsForRouter(h, myIp) && Ttl(h) == 1)
            || Rank(t, Prepared(h, myIp, icmpType, icmpCode), myIp) > 0
            || (if IsForRouter(h, myIp) && IsEchoRequest(icmpType, icmpCode)
                then Ttl(h) == MAX_TTL + 1 && Check(h) != 0xFFFE
                else if Ttl(h) >= 1 then Check(h) != 0xFFFE else Check(h) >= 255)
  {
    LowerTtlKeepsProtocol(h);
    hide HeaderValue, LowerTtl, Bounced, Found, CheckIsRight, Check;
    var p := Prepared(h, myIp, icmpType, icmpCode);
    if Rank(t, p, myIp) > 0 || (!IsForRouter(h, myIp) && Ttl(h) == 1) {
      BouncedIsRight(p, myIp, Rank(t, p, myIp));
    } else if IsForRouter(h, myIp) && IsEchoRequest(icmpType, icmpCode) {
      EchoReplyCheck(h);
    } else {
      TtlUpdate(h);
    }
  }

  // ----- inputs that show the exceptions ------------------------------------------------

  /** A header with a TTL, an identification, a sender and a destination, and zeros elsewhere. */
  function BareHeader(ttl: UInt8, id: UInt16, src: UInt32, dst: UInt32): (h: Bytes)
    ensures IsHeader(h) && Ttl(h) == ttl && Check(h) == 0 && Protocol(h) == 0
    ensures Source(h) == src && Destination(h) == dst
  {
    var h: Bytes := [0, 0, 0, 0] + Store16(id) + [0, 0, ttl, 0, 0, 0] + Store32(src) + Store32(dst);
    assert h[12..16] == Store32(src) && h[16..20] == Store32(dst);
    h
  }

  /** The two 16-bit words of an address. */
  function Halves(ip: UInt32): nat { ip % TWO_16 + ip / TWO_16 }

  function BareSum(ttl: UInt8, id: UInt16, src: UInt32, dst: UInt32): nat {
    id as int + ttl + Halves(src) + Halves(dst)
  }

  lemma WordFirst(word: Bytes, rest: Bytes)
    requires |word| == 2
    ensures LittleSum(word + rest) == Load16(word) as int + LittleSum(rest)
  {
    assert (word + rest)[2..] == rest;
  }

  lemma {:induction false} WordsOf32(ip: UInt32, rest: Bytes)
    ensures LittleSum(Store32(ip) + rest) == Halves(ip) + LittleSum(rest)
  {
    var b := Store32(ip);
    assert b + rest == b[..2] + (b[2..] + rest);
    WordFirst(b[..2], b[2..] + rest);
    WordFirst(b[2..], rest);
  }

  lemma BareHeaderSum(ttl: UInt8, id: UInt16, src: UInt32, dst: UInt32)
    ensures OtherWords(BareHeader(ttl, id, src, dst)) == BareSum(ttl, id, src, dst)
  {
    var h := BareHeader(ttl, id, src, dst);
    assert WithCheck(h, 0) == h;
    assert LittleSum([]) == 0;
    hide LittleSum;
    var addresses := Store32(src) + (Store32(dst) + []);
    WordsOf32(dst, []);
    WordsOf32(src, Store32(dst) + []);
    var back := [ttl, 0] + ([0, 0] + addresses);
    WordFirst([0, 0], addresses);
    WordFirst([ttl, 0], [0, 0] + addresses);
    WordFirst([0, 0], back);
    WordFirst(Store16(id), [0, 0] + back);
    WordFirst([0, 0], Store16(id) + ([0, 0] + back));
    WordFirst([0, 0], [0, 0] + (Store16(id) + ([0, 0] + back)));
    assert h == [0, 0] + ([0, 0] + (Store16(id) + ([0, 0] + back)));
  }

  /** The same with its checksum filled in. */
  function CheckedHeader(ttl: UInt8, id: UInt16, src: UInt32, dst: UInt32): (h: Bytes)
    ensures IsHeader(h) && Check(h) == 65535 - Residue(BareSum(ttl, id, src, dst))
    ensures Ttl(h) == ttl && Source(h) == src && Destination(h) == dst && Protocol(h) == 0
    ensures CheckIsRight(h)
  {
    var bare := BareHeader(ttl, id, src, dst);
    var h := WithCheck(bare, 65535 - Residue(BareSum(ttl, id, src, dst)));
    assert CheckIsRight(h) by {
      assert WithCheck(h, 0) == bare && WithCheck(bare, 0) == bare;
      BareHeaderSum(ttl, id, src, dst);
      HeaderValueIsResidue(h);
    }
    assert h[12..16] == bare[12..16] && h[16..20] == bare[16..20];
    h
  }

  // 10.0.0.1, 10.0.0.9, 192.168.0.7 and the network 172.16.0.0/24, in network byte order.
  const ROUTER: UInt32 := 0x0100_000A
  const SENDER: UInt32 := 0x0900_000A
  const TARGET: UInt32 := 0x0700_A8C0
  const ELSEWHERE: Route := Route(0x10AC, 1, 0xFF_FFFF, 0)

  /** The update goes wrong: a correct header with TTL 64 and checksum 0xFFFE is sent on by the default route with a
      wrong checksum. */
  lemma UpdateGoesWrong()
    ensures var t, h := [Route(0, 1, 0, 0)], CheckedHeader(64, 0x46F6, SENDER, TARGET);
            && Check(h) == 0xFFFE && !CheckIsRight(LowerTtl(h))
            && Rank(t, Prepared(h, ROUTER, 0, 0), ROUTER) == 0
            && !CheckIsRight(Forwarded(t, h, ROUTER, 0, 0))
  {
    hide HeaderValue, LowerTtl, CheckedHeader, BouncedTimes, CheckIsRight;
    var h := CheckedHeader(64, 0x46F6, SENDER, TARGET);
    assert BareSum(64, 0x46F6, SENDER, TARGET) == 0x1_0000;
    assert Residue(0x1_0000) == 1;
    TtlUpdate(h);
    LowerTtlKeepsProtocol(h);
    AndZero(TARGET);
    ForwardedIsRight([Route(0, 1, 0, 0)], h, ROUTER, 0, 0);
  }

  /** The recursion does not end: the table has one route, to a network that holds neither the destination of a correct
      header nor its sender nor the interface. */
  lemma SearchCanGoOn()
    ensures var h := CheckedHeader(64, 1, SENDER, TARGET);
            && Rank([ELSEWHERE], Prepared(h, ROUTER, 0, 0), ROUTER) == 3
            && forall n: nat :: !Found([ELSEWHERE], Destination(BouncedTimes(Prepared(h, ROUTER, 0, 0), ROUTER, n)))
  {
    hide HeaderValue, LowerTtl, CheckedHeader, BouncedTimes, CheckIsRight, And;
    var h := CheckedHeader(64, 1, SENDER, TARGET);
    LowerTtlKeepsProtocol(h);
    NotElsewhere(ROUTER);
    NotElsewhere(SENDER);
    NotElsewhere(TARGET);
    var p := Prepared(h, ROUTER, 0, 0);
    forall n: nat ensures !Found([ELSEWHERE], Destination(BouncedTimes(p, ROUTER, n))) {
      SearchEnds([ELSEWHERE], p, ROUTER, n);
    }
  }

  /** An address matches the route when its first three bytes are those of the network. */
  lemma NotElsewhere(ip: UInt32)
    requires ip % 0x100 != 0xAC
    ensures !Found([ELSEWHERE], ip)
  {
    hide And;
    AndFullByte(ip, 0xFFFF);
  }
}
