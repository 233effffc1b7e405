/** The destructor of arrays and objects, which flattens the value onto a
    worklist so that the depth of the value does not become call depth. */
module JsonDestroy {
  import opened JsonValue
  import Collections

  function ValuesOf(m: map<string, Json>, keys: seq<string>): (r: seq<Json>)
    requires forall k | k in keys :: k in m
    ensures |r| == |keys| && forall i | 0 <= i < |keys| :: r[i] == m[keys[i]]
  {
    seq(|keys|, i requires 0 <= i < |keys| => assert keys[i] in keys; m[keys[i]])
  }

  /** The children in the order in which they are moved to the stack. */
  function Children(j: Json): (r: seq<Json>)
    ensures forall i | 0 <= i < |r| :: r[i] < j
    ensures !IsContainer(j) ==> r == []
  {
    match j
    case Arr(a) => a
    case Obj(m) =>
      var keys := SortedKeys(m.Keys);
      var r := ValuesOf(m, keys);
      assert forall i | 0 <= i < |r| :: r[i] < j by {
        forall i | 0 <= i < |r| ensures r[i] < j { assert keys[i] in m; }
      }
      r
    case _ => []
  }

  /** The container after its children were moved away and it was cleared. */
  function Cleared(j: Json): Json {
    match j
    case Arr(_) => Arr([])
    case Obj(_) => Obj(map[])
    case _ => j
  }

  // ----- all the values strictly inside a value -------------------------------------

  /** How often x occurs strictly inside j, counting only the first n children. */
  function OccurrencesUpTo(j: Json, n: nat, x: Json): nat
    requires n <= |Children(j)|
    decreases j, n
  {
    if n == 0 then 0
    else
      var c := Children(j)[n - 1];
      OccurrencesUpTo(j, n - 1, x) + (if c == x then 1 else 0) + OccurrencesUpTo(c, |Children(c)|, x)
  }

  /** How often x occurs strictly inside j. */
  function Occurrences(j: Json, x: Json): nat {
    OccurrencesUpTo(j, |Children(j)|, x)
  }

  /** The first n children of j and everything inside them: parents first, the last child first. */
  function ListingUpTo(j: Json, n: nat): seq<Json>
    requires n <= |Children(j)|
    decreases j, n
  {
    if n == 0 then []
    else ListingOfChild(j, n - 1) + ListingUpTo(j, n - 1)
  }

  /** Child i, then everything inside it. */
  function ListingOfChild(j: Json, i: nat): seq<Json>
    requires i < |Children(j)|
    decreases j, i
  {
    var c := Children(j)[i];
    [c] + ListingUpTo(c, |Children(c)|)
  }

  /** Everything strictly inside j. */
  function Listing(j: Json): seq<Json> {
    ListingUpTo(j, |Children(j)|)
  }

  /** The stack's items, the top first, each followed by everything inside it. */
  function StackListing(stack: seq<Json>): seq<Json> {
    if stack == [] then []
    else
      var top := stack[|stack| - 1];
      ([top] + Listing(top)) + StackListing(stack[..|stack| - 1])
  }

  lemma StackPush(stack: seq<Json>, c: Json)
    ensures StackListing(stack + [c]) == ([c] + Listing(c)) + StackListing(stack)
  {
  }

  /** The listing holds every strict descendant as often as it occurs. */
  lemma {:induction false} ListingCounts(j: Json, n: nat, x: Json)
    requires n <= |Children(j)|
    ensures Count(ListingUpTo(j, n), x) == OccurrencesUpTo(j, n, x)
    decreases j, n
  {
    if n > 0 {
      hide Children, Count;
      var c := Children(j)[n - 1];
      ListingCounts(c, |Children(c)|, x);
      ListingCounts(j, n - 1, x);
      CountAppend(ListingOfChild(j, n - 1), ListingUpTo(j, n - 1), x);
      CountAppend([c], Listing(c), x);
      CountOne(c, x);
    }
  }

  function Count(s: seq<Json>, x: Json): nat {
    if s == [] then 0 else (if s[0] == x then 1 else 0) + Count(s[1..], x)
  }

  lemma CountOne(c: Json, x: Json)
    ensures Count([c], x) == if c == x then 1 else 0
  {
  }

  lemma {:induction false} CountAppend(a: seq<Json>, b: seq<Json>, x: Json)
    ensures Count(a + b, x) == Count(a, x) + Count(b, x)
  {
    if a == [] {
      assert a + b == b;
    } else {
      CountAppend(a[1..], b, x);
      assert (a + b)[1..] == a[1..] + b;
    }
  }

  lemma {:induction false} PushChildren(stack: seq<Json>, children: seq<Json>, j: Json, n: nat)
    requires children == Children(j) && n <= |children|
    ensures StackListing(stack + children[..n]) == ListingUpTo(j, n) + StackListing(stack)
  {
    if n == 0 {
      assert stack + children[..0] == stack;
      assert [] + StackListing(stack) == StackListing(stack);
    } else {
      PushChildren(stack, children, j, n - 1);
      ChildrenPrefix(stack, children, n);
      StackPush(stack + children[..n - 1], children[n - 1]);
      Collections.Associate(ListingOfChild(j, n - 1), ListingUpTo(j, n - 1), StackListing(stack));
    }
  }

  lemma ChildrenPrefix(stack: seq<Json>, children: seq<Json>, n: nat)
    requires 0 < n <= |children|
    ensures stack + children[..n] == (stack + children[..n - 1]) + [children[n - 1]]
  {
  }

  /** What went out of scope is what was popped without its children, so that its own destructor finds none. */
  predicate AllFlat(popped: seq<Json>, destructed: seq<Json>) {
    && |destructed| == |popped|
    && forall i | 0 <= i < |popped| :: destructed[i] == Cleared(popped[i]) && Children(destructed[i]) == []
  }

  /** The worklist of `destroy`. `popped` lists the items in the order in which they are taken off the
      stack, `destructed` what is left of each when it goes out of scope. */
  method Destroy(j: Json) returns (popped: seq<Json>, destructed: seq<Json>)
    ensures popped == Listing(j)
    ensures AllFlat(popped, destructed)
  {
    popped, destructed := [], [];
    if !IsContainer(j) { return; }
    InitialStack(j);
    popped, destructed := Drain(Children(j));
  }

  method Drain(initial: seq<Json>) returns (popped: seq<Json>, destructed: seq<Json>)
    ensures popped == StackListing(initial)
    ensures AllFlat(popped, destructed)
  {
    hide Listing, StackListing;
    popped, destructed := [], [];
    EmptyStack();
    var stack := initial;
    while stack != []
      invariant popped + StackListing(stack) == StackListing(initial)
      invariant AllFlat(popped, destructed)
      decreases |StackListing(stack)|
    {
      var item := stack[|stack| - 1];
      var current := item;
      PopOne(popped, stack, item, stack[..|stack| - 1]);
      stack := stack[..|stack| - 1];
      if current.Arr? {
        stack := stack + current.elems;
        current := Arr([]);
      } else if current.Obj? {
        stack := stack + ValuesOf(current.members, SortedKeys(current.members.Keys));
        NoMembers();
        current := Obj(map[]);
      } else {
        assert stack + Children(item) == stack;
      }
      popped, destructed := popped + [item], destructed + [current];
    }
  }

  lemma EmptyStack()
    ensures StackListing([]) == []
  {
  }

  lemma NoMembers()
    ensures Children(Obj(map[])) == []
  {
    assert SortedKeys({}) == [];
  }

  lemma InitialStack(j: Json)
    ensures StackListing(Children(j)) == Listing(j)
  {
    var children := Children(j);
    PushChildren([], children, j, |children|);
    assert [] + children[..|children|] == children;
  }

  /** Popping an item and pushing its children moves the item to the popped ones. */
  lemma PopOne(popped: seq<Json>, before: seq<Json>, current: Json, below: seq<Json>)
    requires before == below + [current]
    ensures (popped + [current]) + StackListing(below + Children(current)) == popped + StackListing(before)
    ensures |StackListing(below + Children(current))| < |StackListing(before)|
  {
    var children := Children(current);
    PushChildren(below, children, current, |children|);
    assert children[..|children|] == children;
    StackPush(below, current);
    Collections.Associate([current], Listing(current), StackListing(below));
    Collections.Associate(popped, [current], StackListing(below + children));
  }

  // ----- the same count from the definition of a value ---------------------------------------

  /** How often x occurs strictly inside j, over all elements and all members. */
  ghost function CountInside(j: Json, x: Json): nat
    decreases j, 1, 0
  {
    match j
    case Arr(a) => CountElements(j, |a|, x)
    case Obj(m) => CountMembers(j, m.Keys, x)
    case _ => 0
  }

  /** c itself and what is inside it. */
  ghost function CountWith(c: Json, x: Json): nat
    decreases c, 2, 0
  {
    (if c == x then 1 else 0) + CountInside(c, x)
  }

  ghost function CountElements(j: Json, n: nat, x: Json): nat
    requires j.Arr? && n <= |j.elems|
    decreases j, 0, n
  {
    if n == 0 then 0 else CountElements(j, n - 1, x) + CountWith(j.elems[n - 1], x)
  }

  /** Over the members with the given keys, in any order. */
  ghost function CountMembers(j: Json, keys: set<string>, x: Json): nat
    requires j.Obj? && keys <= j.members.Keys
    decreases j, 0, |keys|
  {
    if keys == {} then 0
    else
      var k :| k in keys;
      CountWith(j.members[k], x) + CountMembers(j, keys - {k}, x)
  }

  lemma {:induction false} CountWithout(j: Json, keys: set<string>, k: string, x: Json)
    requires j.Obj? && keys <= j.members.Keys && k in keys
    ensures CountMembers(j, keys, x) == CountWith(j.members[k], x) + CountMembers(j, keys - {k}, x)
    decreases |keys|
  {
    var l :| l in keys && CountMembers(j, keys, x) == CountWith(j.members[l], x) + CountMembers(j, keys - {l}, x);
    if l != k {
      CountWithout(j, keys - {l}, k, x);
      CountWithout(j, keys - {k}, l, x);
      assert keys - {l} - {k} == keys - {k} - {l};
    }
  }

  function KeySet(keys: seq<string>): set<string> { set k | k in keys }

  lemma KeySetPush(keys: seq<string>, n: nat)
    requires Distinct(keys) && 0 < n <= |keys|
    ensures keys[n - 1] in KeySet(keys[..n]) && KeySet(keys[..n]) - {keys[n - 1]} == KeySet(keys[..n - 1])
    ensures KeySet(keys[..n]) <= KeySet(keys)
  {
    assert keys[..n][n - 1] == keys[n - 1] && keys[..n] == keys[..n - 1] + [keys[n - 1]];
  }

  lemma MemberChildren(j: Json, keys: seq<string>)
    requires j.Obj? && keys == SortedKeys(j.members.Keys)
    ensures KeySet(keys) == j.members.Keys && Distinct(keys) && |Children(j)| == |keys|
    ensures forall i | 0 <= i < |keys| :: keys[i] in j.members && Children(j)[i] == j.members[keys[i]]
  {
    hide SortedKeys;
    assert forall i | 0 <= i < |keys| :: keys[i] in keys;
  }

  lemma {:induction false} OccurrencesAreInside(j: Json, x: Json)
    ensures Occurrences(j, x) == CountInside(j, x)
    decreases j, 1, 0
  {
    match j
    case Arr(a) => ElementsInside(j, |a|, x);
    case Obj(m) =>
      var keys := SortedKeys(m.Keys);
      MemberChildren(j, keys);
      MembersInside(j, keys, |keys|, x);
      assert keys[..|keys|] == keys;
    case _ =>
  }

  lemma {:induction false} ElementsInside(j: Json, n: nat, x: Json)
    requires j.Arr? && n <= |j.elems|
    ensures OccurrencesUpTo(j, n, x) == CountElements(j, n, x)
    decreases j, 0, n
  {
    if n > 0 {
      ElementsInside(j, n - 1, x);
      OccurrencesAreInside(j.elems[n - 1], x);
    }
  }

  lemma {:induction false} MembersInside(j: Json, keys: seq<string>, n: nat, x: Json)
    requires j.Obj? && keys == SortedKeys(j.members.Keys) && n <= |keys|
    ensures |Children(j)| == |keys| && KeySet(keys[..n]) <= j.members.Keys
    ensures OccurrencesUpTo(j, n, x) == CountMembers(j, KeySet(keys[..n]), x)
    decreases j, 0, n
  {
    MemberChildren(j, keys);
    hide Children, SortedKeys;
    if n == 0 {
      assert KeySet(keys[..0]) == {};
    } else {
      KeySetPush(keys, n);
      hide KeySet;
      MembersInside(j, keys, n - 1, x);
      OccurrencesAreInside(j.members[keys[n - 1]], x);
      CountWithout(j, KeySet(keys[..n]), keys[n - 1], x);
      hide CountMembers;
    }
  }

  /** Over the whole run every value strictly inside j is popped, and so destructed, as often as it occurs. */
  lemma PopsEachOnce(j: Json, x: Json)
    ensures Count(Listing(j), x) == CountInside(j, x)
  {
    ListingCounts(j, |Children(j)|, x);
    OccurrencesAreInside(j, x);
  }
}
