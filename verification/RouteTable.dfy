/** The routing table: its order and the binary search in it. */
module RouteTable {
  import opened Machine

  datatype Route = Route(prefix: UInt32, nextHop: UInt32, mask: UInt32, iface: int)

  type Table = seq<Route>

  /** `rtable_comp`: by prefix, then by mask. */
  function Compare(a: Route, b: Route): int {
    if a.prefix > b.prefix then 1
    else if a.prefix < b.prefix then -1
    else if a.mask > b.mask then 1
    else if a.mask < b.mask then -1
    else 0
  }

  /** What `qsort` needs of its comparison. */
  lemma CompareIsOrder(a: Route, b: Route, c: Route)
    ensures Compare(a, b) == -Compare(b, a)
    ensures Compare(a, b) <= 0 && Compare(b, c) <= 0 ==> Compare(a, c) <= 0
    ensures Compare(a, b) == 0 <==> a.prefix == b.prefix && a.mask == b.mask
    ensures Compare(a, b) < 0 <==> a.prefix < b.prefix || (a.prefix == b.prefix && a.mask < b.mask)
  {
  }

  predicate Sorted(t: Table) {
    forall i, j | 0 <= i < j < |t| :: Compare(t[i], t[j]) <= 0
  }

  predicate Matches(e: Route, ip: UInt32) { And(ip, e.mask) == e.prefix }

  /** What a linear scan would find out. */
  predicate HasRoute(t: Table, ip: UInt32) {
    exists i :: 0 <= i < |t| && Matches(t[i], ip)
  }

  /** `binary_search(&t[low], high, ip)`, where `high` is the distance to the last entry. */
  function BinarySearch(t: Table, low: nat, high: nat, ip: UInt32): (r: nat)
    requires low + high < |t|
    ensures low <= r <= low + high
    decreases high
  {
    if high == 0 then low
    else if high == 1 then (if Matches(t[low + 1], ip) then low + 1 else low)
    else
      var mid := low + high / 2;
      if t[mid].prefix > And(ip, t[mid].mask) then BinarySearch(t, low, mid - low, ip)
      else BinarySearch(t, mid, high - (mid - low), ip)
  }

  /** The entry that the search returns matches. */
  predicate Found(t: Table, ip: UInt32)
    requires t != []
  {
    Matches(t[BinarySearch(t, 0, |t| - 1, ip)], ip)
  }

  // ----- what the search finds, whatever the masks ------------------------------------

  /** The search goes on above an entry that it compares with. */
  predicate TurnsUp(e: Route, ip: UInt32) { e.prefix <= And(ip, e.mask) }

  /** The positions that are compared on the way to position i; they depend on the size of the table only. */
  function Probes(low: nat, high: nat, i: nat): (r: seq<nat>)
    requires low <= i <= low + high
    ensures forall m | m in r :: low < m < low + high
    decreases high
  {
    if high <= 1 then []
    else
      var mid := low + high / 2;
      [mid] + if i < mid then Probes(low, mid - low, i) else Probes(mid, high - (mid - low), i)
  }

  /** Every entry in the given positions sends the search towards position i. */
  predicate LeadTo(t: Table, ip: UInt32, probes: seq<nat>, i: nat)
    requires forall m | m in probes :: m < |t|
  {
    forall m | m in probes :: (m < i ==> TurnsUp(t[m], ip)) && (i < m ==> !TurnsUp(t[m], ip))
  }

  lemma LeadToStep(t: Table, ip: UInt32, mid: nat, rest: seq<nat>, i: nat)
    requires mid < |t| && forall m | m in rest :: m < |t|
    ensures LeadTo(t, ip, [mid] + rest, i) <==>
            LeadTo(t, ip, rest, i) && (mid < i ==> TurnsUp(t[mid], ip)) && (i < mid ==> !TurnsUp(t[mid], ip))
  {
    hide TurnsUp;
    if LeadTo(t, ip, [mid] + rest, i) {
      assert mid in [mid] + rest;
      assert forall m | m in rest :: m in [mid] + rest;
    }
  }

  /** One comparison of the search. */
  lemma SearchStep(t: Table, low: nat, high: nat, ip: UInt32) returns (mid: nat)
    requires 1 < high && low + high < |t|
    ensures low < mid == low + high / 2 < low + high
    ensures BinarySearch(t, low, high, ip) ==
            if TurnsUp(t[mid], ip) then BinarySearch(t, mid, low + high - mid, ip)
            else BinarySearch(t, low, mid - low, ip)
  {
    hide And;
    mid := low + high / 2;
  }

  lemma ProbesStep(low: nat, high: nat, mid: nat, i: nat)
    requires 1 < high && low < mid == low + high / 2 < low + high && low <= i <= low + high
    ensures Probes(low, high, i) ==
            [mid] + if i < mid then Probes(low, mid - low, i) else Probes(mid, low + high - mid, i)
  {
  }

  lemma LastWindow(t: Table, low: nat, high: nat, ip: UInt32, i: nat)
    requires high <= 1 && low <= i <= low + high < |t|
    ensures Matches(t[i], ip) ==> Matches(t[BinarySearch(t, low, high, ip)], ip)
    ensures LeadTo(t, ip, Probes(low, high, i), i)
  {
    hide And;
  }

  lemma {:induction false} MatchIsReached(t: Table, low: nat, high: nat, ip: UInt32, i: nat)
    requires low <= i <= low + high < |t| && Matches(t[i], ip) && LeadTo(t, ip, Probes(low, high, i), i)
    ensures Matches(t[BinarySearch(t, low, high, ip)], ip)
    decreases high
  {
    hide And, LeadTo, BinarySearch, Probes;
    if high <= 1 {
      LastWindow(t, low, high, ip, i);
    } else {
      var mid := SearchStep(t, low, high, ip);
      ProbesStep(low, high, mid, i);
      if i < mid {
        LeadToStep(t, ip, mid, Probes(low, mid - low, i), i);
        MatchIsReached(t, low, mid - low, ip, i);
      } else {
        LeadToStep(t, ip, mid, Probes(mid, low + high - mid, i), i);
        MatchIsReached(t, mid, low + high - mid, ip, i);
      }
    }
  }

  lemma {:induction false} ResultIsLedTo(t: Table, low: nat, high: nat, ip: UInt32)
    requires low + high < |t| && Matches(t[BinarySearch(t, low, high, ip)], ip)
    ensures var r := BinarySearch(t, low, high, ip);
            LeadTo(t, ip, Probes(low, high, r), r)
    decreases high
  {
    hide And, LeadTo, BinarySearch, Probes;
    var r := BinarySearch(t, low, high, ip);
    if high <= 1 {
      LastWindow(t, low, high, ip, r);
    } else {
      var mid := SearchStep(t, low, high, ip);
      ProbesStep(low, high, mid, r);
      if TurnsUp(t[mid], ip) {
        ResultIsLedTo(t, mid, low + high - mid, ip);
        LeadToStep(t, ip, mid, Probes(mid, low + high - mid, r), r);
      } else {
        ResultIsLedTo(t, low, mid - low, ip);
        LeadToStep(t, ip, mid, Probes(low, mid - low, r), r);
      }
    }
  }

  lemma NextOfLastWindow(t: Table, low: nat, high: nat, ip: UInt32)
    requires high <= 1 && low + high < |t|
    ensures var r := BinarySearch(t, low, high, ip);
            r + 1 <= low + high ==> !Matches(t[r + 1], ip)
  {
  }

  lemma {:induction false} NextDoesNotMatch(t: Table, low: nat, high: nat, ip: UInt32)
    requires low + high < |t| && BinarySearch(t, low, high, ip) + 1 <= low + high
    requires var next := BinarySearch(t, low, high, ip) + 1; LeadTo(t, ip, Probes(low, high, next), next)
    ensures !Matches(t[BinarySearch(t, low, high, ip) + 1], ip)
    decreases high
  {
    hide And, LeadTo, BinarySearch, Probes;
    var next := BinarySearch(t, low, high, ip) + 1;
    if high <= 1 {
      NextOfLastWindow(t, low, high, ip);
    } else {
      var mid := SearchStep(t, low, high, ip);
      ProbesStep(low, high, mid, next);
      if TurnsUp(t[mid], ip) {
        LeadToStep(t, ip, mid, Probes(mid, low + high - mid, next), next);
        NextDoesNotMatch(t, mid, low + high - mid, ip);
      } else if next < mid {
        LeadToStep(t, ip, mid, Probes(low, mid - low, next), next);
        NextDoesNotMatch(t, low, mid - low, ip);
      } else if next > mid {
        LeadToStep(t, ip, mid, Probes(mid, low + high - mid, next), next);
      }
    }
  }

  /** On every table, sorted or not, the search finds a match exactly when there is one that every entry compared on
      the way to it points to; and of two such neighbours it returns the later one. */
  lemma SearchFindsExactly(t: Table, ip: UInt32)
    requires t != []
    ensures Found(t, ip) <==>
            exists i :: 0 <= i < |t| && Matches(t[i], ip) && LeadTo(t, ip, Probes(0, |t| - 1, i), i)
    ensures var next := BinarySearch(t, 0, |t| - 1, ip) + 1;
            next < |t| && LeadTo(t, ip, Probes(0, |t| - 1, next), next) ==> !Matches(t[next], ip)
  {
    hide Matches, LeadTo, BinarySearch, Probes;
    var r := BinarySearch(t, 0, |t| - 1, ip);
    if r + 1 < |t| && LeadTo(t, ip, Probes(0, |t| - 1, r + 1), r + 1) { NextDoesNotMatch(t, 0, |t| - 1, ip); }
    if Found(t, ip) { ResultIsLedTo(t, 0, |t| - 1, ip); }
    if i :| 0 <= i < |t| && Matches(t[i], ip) && LeadTo(t, ip, Probes(0, |t| - 1, i), i) {
      MatchIsReached(t, 0, |t| - 1, ip, i);
    }
  }

  /** Nothing is compared on the way in a table of one or two entries, so there no match is missed. */
  lemma ShortTables(t: Table, ip: UInt32)
    requires 1 <= |t| <= 2
    ensures Found(t, ip) <==> HasRoute(t, ip)
    ensures Found(t, ip) ==> forall i | BinarySearch(t, 0, |t| - 1, ip) < i < |t| :: !Matches(t[i], ip)
  {
    hide Matches;
    SearchFindsExactly(t, ip);
    if i :| 0 <= i < |t| && Matches(t[i], ip) {
      assert LeadTo(t, ip, Probes(0, |t| - 1, i), i);
    }
  }

  // ----- tables in which the comparison has a single turning point ---------------------

  /** The entries above which the search goes on are those up to k. */
  predicate Cutoff(t: Table, ip: UInt32, k: int) {
    -1 <= k < |t| && forall j | 0 <= j < |t| :: TurnsUp(t[j], ip) <==> j <= k
  }

  lemma CutoffLastWindow(t: Table, low: nat, high: nat, ip: UInt32, k: int)
    requires high <= 1 && low + high < |t| && Cutoff(t, ip, k)
    requires low == 0 || low <= k
    requires low + high == |t| - 1 || k < low + high
    ensures BinarySearch(t, low, high, ip) ==
            if k < low then low else if k < |t| - 1 || k == low || Matches(t[k], ip) then k else k - 1
  {
    hide And, Probes;
  }

  lemma {:induction false} CutoffWindow(t: Table, low: nat, high: nat, ip: UInt32, k: int)
    requires low + high < |t| && Cutoff(t, ip, k)
    requires low == 0 || low <= k
    requires low + high == |t| - 1 || k < low + high
    ensures BinarySearch(t, low, high, ip) ==
            if k < low then low else if k < |t| - 1 || k == low || Matches(t[k], ip) then k else k - 1
    decreases high
  {
    hide And, Probes, BinarySearch;
    if high <= 1 {
      CutoffLastWindow(t, low, high, ip, k);
    } else {
      var mid := SearchStep(t, low, high, ip);
      if TurnsUp(t[mid], ip) {
        CutoffWindow(t, mid, low + high - mid, ip, k);
      } else {
        CutoffWindow(t, low, mid - low, ip, k);
      }
    }
  }

  /** With a turning point, whatever the masks, the search finds a match exactly when the entry there matches; only
      at the end of the table the entry before it counts as well. It returns the last matching entry. */
  lemma SearchAtCutoff(t: Table, ip: UInt32, k: int)
    requires t != [] && Cutoff(t, ip, k)
    ensures Found(t, ip) <==>
            k >= 0 && (Matches(t[k], ip) || (k == |t| - 1 && k > 0 && Matches(t[k - 1], ip)))
    ensures Found(t, ip) ==> forall i | BinarySearch(t, 0, |t| - 1, ip) < i < |t| :: !Matches(t[i], ip)
    ensures forall i | 0 <= i < |t| && Matches(t[i], ip) :: i <= k
  {
    hide And;
    CutoffWindow(t, 0, |t| - 1, ip, k);
  }

  predicate CommonMask(t: Table) {
    forall i, j | 0 <= i < |t| && 0 <= j < |t| :: t[i].mask == t[j].mask
  }

  lemma {:induction false} CommonCutoff(t: Table, ip: UInt32, n: nat) returns (k: int)
    requires Sorted(t) && CommonMask(t) && n <= |t|
    requires forall j | n <= j < |t| :: !TurnsUp(t[j], ip)
    ensures Cutoff(t, ip, k)
  {
    hide And;
    if n == 0 {
      k := -1;
    } else if TurnsUp(t[n - 1], ip) {
      k := n - 1;
    } else {
      k := CommonCutoff(t, ip, n - 1);
    }
  }

  /** On a table sorted by `rtable_comp` with one mask, the search returns the last matching entry exactly when
      there is one. */
  lemma SearchIsComplete(t: Table, ip: UInt32)
    requires t != [] && Sorted(t) && CommonMask(t)
    ensures Found(t, ip) <==> HasRoute(t, ip)
    ensures Found(t, ip) ==> forall i | BinarySearch(t, 0, |t| - 1, ip) < i < |t| :: !Matches(t[i], ip)
  {
    hide And;
    var k := CommonCutoff(t, ip, |t|);
    SearchAtCutoff(t, ip, k);
  }

  lemma AndUnfolded(x: nat, y: nat)
    ensures And(x, y) == if x == 0 || y == 0 then 0 else 2 * And(x / 2, y / 2) + (x % 2) * (y % 2)
  {
  }

  lemma AndOdd(x: nat, y: nat)
    ensures And(x, 2 * y + 1) == x % 2 + 2 * And(x / 2, y)
  {
    hide And;
    var m := 2 * y + 1;
    assert m / 2 == y && m % 2 == 1;
    AndUnfolded(x, m);
    AndUnfolded(0, y);
  }

  lemma AndFourOnes(x: nat, y: nat)
    ensures And(x, 0x10 * y + 0xF) == x % 0x10 + 0x10 * And(x / 0x10, y)
  {
    hide And;
    var x1 := x / 2;
    var x2 := x1 / 2;
    AndOdd(x, 8 * y + 7);
    AndOdd(x1, 4 * y + 3);
    AndOdd(x2, 2 * y + 1);
    AndOdd(x2 / 2, y);
  }

  /** A byte of ones keeps the byte. */
  lemma AndFullByte(x: nat, y: nat)
    ensures And(x, 0x100 * y + 0xFF) == x % 0x100 + 0x100 * And(x / 0x100, y)
  {
    hide And;
    AndFourOnes(x, 0x10 * y + 0xF);
    AndFourOnes(x / 0x10, y);
  }

  lemma AndZero(x: nat)
    ensures And(x, 0) == 0
  {
  }

  lemma MaskOf10007()
    ensures And(0x0700_000A, 0xFFFF_FFFF) == 0x0700_000A && And(0x0700_000A, 0xFF_FFFF) == 0x0A
  {
    hide And;
    AndFullByte(0x0700_000A, 0xFF_FFFF);
    AndFullByte(0x07_0000, 0xFFFF);
    AndFullByte(0x0700, 0xFF);
    AndFullByte(0x07, 0);
    AndZero(0);
    AndFullByte(0x0700_000A, 0xFFFF);
    AndFullByte(0x07_0000, 0xFF);
    AndFullByte(0x0700, 0);
    AndZero(0x07);
  }

  /** With different masks the search can miss a match: for 10.0.0.7 the entries of 10.0.0.5 and 10.0.0.6 send it
      upwards, away from the entry of 10.0.0.0/24. Addresses are in network byte order. */
  lemma MixedMasksMiss()
    ensures var full := 0xFFFF_FFFF;
            var t := [Route(0x0A, 1, 0xFF_FFFF, 0), Route(0x0500_000A, 2, full, 0), Route(0x0600_000A, 3, full, 0)];
            Sorted(t) && HasRoute(t, 0x0700_000A) && !Found(t, 0x0700_000A)
  {
    var full, ip := 0xFFFF_FFFF, 0x0700_000A;
    var t := [Route(0x0A, 1, 0xFF_FFFF, 0), Route(0x0500_000A, 2, full, 0), Route(0x0600_000A, 3, full, 0)];
    MaskOf10007();
    hide And;
    assert Matches(t[0], ip);
    assert Cutoff(t, ip, 2);
    SearchAtCutoff(t, ip, 2);
  }
}
