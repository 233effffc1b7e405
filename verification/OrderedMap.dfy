/** `ordered_map`: a vector of key/value pairs in insertion order. */
module OrderedMap {
  import opened Wrappers

  // ----- the vector as a value ----------------------------------------------------

  ghost predicate UniqueKeys<K, V>(s: seq<(K, V)>) {
    forall i, j | 0 <= i < j < |s| :: s[i].0 != s[j].0
  }

  /** The position of the first pair with key k, or |s|. */
  function IndexOf<K(==), V>(s: seq<(K, V)>, k: K): (i: nat)
    ensures i <= |s|
    ensures i < |s| ==> s[i].0 == k
    ensures forall j | 0 <= j < i :: s[j].0 != k
  {
    if s == [] then 0
    else if s[0].0 == k then 0
    else 1 + IndexOf(s[1..], k)
  }

  ghost predicate HasKey<K, V>(s: seq<(K, V)>, k: K) {
    exists i :: 0 <= i < |s| && s[i].0 == k
  }

  /** The map that the pairs describe; an earlier pair hides a later one. */
  function AsMap<K(==), V>(s: seq<(K, V)>): map<K, V> {
    if s == [] then map[] else AsMap(s[1..])[s[0].0 := s[0].1]
  }

  function Cut<T>(s: seq<T>, first: nat, last: nat): seq<T>
    requires first <= last <= |s|
  {
    s[..first] + s[last..]
  }

  /** `emplace` and both forms of `insert`. */
  function Emplaced<K(==), V>(s: seq<(K, V)>, k: K, v: V): seq<(K, V)> {
    if IndexOf(s, k) < |s| then s else s + [(k, v)]
  }

  function Erased<K(==), V>(s: seq<(K, V)>, k: K): seq<(K, V)> {
    if IndexOf(s, k) < |s| then Cut(s, IndexOf(s, k), IndexOf(s, k) + 1) else s
  }

  // ----- the class -----------------------------------------------------------------

  class OrderedMap<K(==), V> {
    var data: seq<(K, V)>

    constructor ()
      ensures data == []
    {
      data := [];
    }

    /** The loop shared by `find`, `count`, `at` and `emplace`. */
    method Find(key: K) returns (it: nat)
      ensures it == IndexOf(data, key)
    {
      it := 0;
      while it < |data|
        invariant it <= |data|
        invariant forall j | 0 <= j < it :: data[j].0 != key
      {
        if data[it].0 == key { return; }
        it := it + 1;
      }
    }

    method Count(key: K) returns (n: nat)
      ensures n == if HasKey(data, key) then 1 else 0
    {
      var it := Find(key);
      n := if it < |data| then 1 else 0;
    }

    /** `at`; None stands for `std::out_of_range`. */
    method At(key: K) returns (r: Option<V>)
      ensures r == if key in AsMap(data) then Some(AsMap(data)[key]) else None
    {
      var it := Find(key);
      Lookup(data, key);
      r := if it < |data| then Some(data[it].1) else None;
    }

    method Emplace(key: K, t: V) returns (it: nat, inserted: bool)
      modifies this
      ensures data == Emplaced(old(data), key, t)
      ensures it < |data| && data[it].0 == key
      ensures inserted == !HasKey(old(data), key)
      ensures inserted ==> data[it].1 == t
    {
      it := Find(key);
      inserted := it == |data|;
      if inserted { data := data + [(key, t)]; }
    }

    method Insert(value: (K, V)) returns (it: nat, inserted: bool)
      modifies this
      ensures data == Emplaced(old(data), value.0, value.1)
      ensures it < |data| && data[it].0 == value.0
      ensures inserted == !HasKey(old(data), value.0)
    {
      it := Find(value.0);
      inserted := it == |data|;
      if inserted { data := data + [value]; }
    }

    /** `insert(first, last)`. */
    method InsertAll(values: seq<(K, V)>)
      modifies this
      ensures data == EmplacedAll(old(data), values)
    {
      for i := 0 to |values|
        invariant EmplacedAll(data, values[i..]) == EmplacedAll(old(data), values)
      {
        var it, inserted := Insert(values[i]);
      }
    }

    /** `erase(key)`: the pairs behind the erased one are shifted down one by one. */
    method EraseKey(key: K) returns (n: nat)
      modifies this
      ensures data == Erased(old(data), key)
      ensures n == if HasKey(old(data), key) then 1 else 0
    {
      var it := Find(key);
      if it == |data| { return 0; }
      ghost var k := it;
      ShiftEnds(data, k, 1);
      var next := it;
      while next + 1 != |data|
        invariant k <= it == next < |data| == |old(data)|
        invariant data == Shifted(old(data), k, 1, it)
      {
        ShiftOne(old(data), k, 1, it);
        next := next + 1;
        data := data[it := data[next]];
        it := it + 1;
      }
      data := data[..|data| - 1];
      return 1;
    }

    /** `erase(first, last)`. An empty range that is not at the end would make the loop
        rebuild each pair from itself after destroying it, so callers must not pass one. */
    method EraseRange(first: nat, last: nat) returns (it: nat)
      requires first <= last <= |data| && (first == last ==> first == |data|)
      modifies this
      ensures data == Cut(old(data), first, last)
      ensures it == first
    {
      var affected := last - first;
      ShiftEnds(data, first, affected);
      hide Shifted, Cut;
      var i := first;
      while i + affected != |data|
        invariant first <= i && i + affected <= |data| == |old(data)|
        invariant data == Shifted(old(data), first, affected, i)
      {
        ShiftOne(old(data), first, affected, i);
        data := data[i := data[i + affected]];
        i := i + 1;
      }
      data := data[..|data| - affected];
      return first;
    }
  }

  /** The vector while the n pairs from position first on are being overwritten: up to position i every pair
      behind them has moved down by n. */
  ghost function Shifted<T>(s: seq<T>, first: nat, n: nat, i: nat): (r: seq<T>)
    requires first <= i && i + n <= |s|
    ensures |r| == |s|
  {
    s[..first] + s[first + n..i + n] + s[i..]
  }

  lemma ShiftOne<T>(s: seq<T>, first: nat, n: nat, i: nat)
    requires first <= i && i + n < |s|
    ensures Shifted(s, first, n, i)[i := Shifted(s, first, n, i)[i + n]] == Shifted(s, first, n, i + 1)
  {
  }

  lemma ShiftEnds<T>(s: seq<T>, first: nat, n: nat)
    requires first + n <= |s|
    ensures Shifted(s, first, n, first) == s
    ensures Shifted(s, first, n, |s| - n)[..|s| - n] == Cut(s, first, first + n)
  {
  }

  function EmplacedAll<K(==), V>(s: seq<(K, V)>, values: seq<(K, V)>): seq<(K, V)>
    decreases |values|
  {
    if values == [] then s else EmplacedAll(Emplaced(s, values[0].0, values[0].1), values[1..])
  }

  // ----- the vector and the map it stands for -------------------------------------------

  lemma {:induction false} Lookup<K, V>(s: seq<(K, V)>, k: K)
    ensures k in AsMap(s) <==> IndexOf(s, k) < |s|
    ensures k in AsMap(s) ==> AsMap(s)[k] == s[IndexOf(s, k)].1
  {
    if s != [] { Lookup(s[1..], k); }
  }

  lemma Position<K, V>(s: seq<(K, V)>, i: nat)
    requires UniqueKeys(s) && i < |s|
    ensures IndexOf(s, s[i].0) == i
    ensures s[i].0 in AsMap(s) && AsMap(s)[s[i].0] == s[i].1
  {
    Lookup(s, s[i].0);
  }

  lemma EmplacedIsMapInsert<K, V>(s: seq<(K, V)>, k: K, v: V)
    requires UniqueKeys(s)
    ensures UniqueKeys(Emplaced(s, k, v))
    ensures AsMap(Emplaced(s, k, v)) == if k in AsMap(s) then AsMap(s) else AsMap(s)[k := v]
  {
    Lookup(s, k);
    if k !in AsMap(s) { AppendedIsMapInsert(s, k, v); }
  }

  lemma {:induction false} AppendedIsMapInsert<K, V>(s: seq<(K, V)>, k: K, v: V)
    requires forall i | 0 <= i < |s| :: s[i].0 != k
    ensures AsMap(s + [(k, v)]) == AsMap(s)[k := v]
  {
    if s == [] {
      assert (s + [(k, v)])[1..] == [];
    } else {
      assert (s + [(k, v)])[1..] == s[1..] + [(k, v)];
      AppendedIsMapInsert(s[1..], k, v);
    }
  }

  /** The keys in the cut slice. */
  ghost function KeysIn<K(!new), V>(s: seq<(K, V)>, first: nat, last: nat): set<K>
    requires first <= last <= |s|
  {
    set i | first <= i < last :: s[i].0
  }

  lemma CutIsUnique<K, V>(s: seq<(K, V)>, first: nat, last: nat)
    requires UniqueKeys(s) && first <= last <= |s|
    ensures UniqueKeys(Cut(s, first, last))
  {
  }

  lemma {:induction false} CutIsMapRemove<K(!new), V>(s: seq<(K, V)>, first: nat, last: nat)
    requires UniqueKeys(s) && first <= last <= |s|
    ensures UniqueKeys(Cut(s, first, last))
    ensures AsMap(Cut(s, first, last)) == AsMap(s) - KeysIn(s, first, last)
  {
    var r := Cut(s, first, last);
    var keys := KeysIn(s, first, last);
    CutIsUnique(s, first, last);
    hide UniqueKeys, Cut, KeysIn;
    forall k
      ensures k in AsMap(r) <==> k in AsMap(s) && k !in keys
      ensures k in AsMap(r) ==> AsMap(r)[k] == AsMap(s)[k]
    {
      CutMember(s, first, last, k);
    }
    assert AsMap(r) == AsMap(s) - keys;
  }

  lemma CutMember<K(!new), V>(s: seq<(K, V)>, first: nat, last: nat, k: K)
    requires UniqueKeys(s) && first <= last <= |s| && UniqueKeys(Cut(s, first, last))
    ensures var r := Cut(s, first, last);
            && (k in AsMap(r) <==> k in AsMap(s) && k !in KeysIn(s, first, last))
            && (k in AsMap(r) ==> AsMap(r)[k] == AsMap(s)[k])
  {
    hide *;
    var r := Cut(s, first, last);
    Lookup(s, k);
    Lookup(r, k);
    var i := IndexOf(s, k);
    if i < first || last <= i < |s| {
      CutTarget(s, first, last, i);
    } else if i < |s| {
      InSlice(s, first, last, i);
    }
    if k in AsMap(r) { CutSource(s, first, last, IndexOf(r, k)); }
  }

  lemma InSlice<K(!new), V>(s: seq<(K, V)>, first: nat, last: nat, i: nat)
    requires first <= i < last <= |s|
    ensures s[i].0 in KeysIn(s, first, last)
  {
  }

  /** A pair outside the cut slice, and where it moves to. */
  lemma CutTarget<K(!new), V>(s: seq<(K, V)>, first: nat, last: nat, i: nat)
    requires UniqueKeys(s) && first <= last <= |s| && UniqueKeys(Cut(s, first, last))
    requires i < first || last <= i < |s|
    ensures var j := if i < first then i else i - (last - first);
            j < |Cut(s, first, last)| && Cut(s, first, last)[j] == s[i] && IndexOf(Cut(s, first, last), s[i].0) == j
    ensures s[i].0 !in KeysIn(s, first, last)
  {
    var j := if i < first then i else i - (last - first);
    assert Cut(s, first, last)[j] == s[i];
    hide Cut;
    Position(Cut(s, first, last), j);
  }

  lemma CutSource<K(!new), V>(s: seq<(K, V)>, first: nat, last: nat, j: nat)
    requires UniqueKeys(s) && first <= last <= |s| && j < |Cut(s, first, last)|
    ensures var i := if j < first then j else j + (last - first);
            i < |s| && Cut(s, first, last)[j] == s[i] && IndexOf(s, s[i].0) == i
    ensures Cut(s, first, last)[j].0 !in KeysIn(s, first, last)
  {
    var i := if j < first then j else j + (last - first);
    assert Cut(s, first, last)[j] == s[i];
    hide Cut;
    Position(s, i);
  }

  // ----- runs ---------------------------------------------------------------------------

  datatype Op<K, V> =
    | Emplace(key: K, value: V)
    | Insert(key: K, value: V)
    | InsertRange(values: seq<(K, V)>)
    | Erase(key: K)
    | EraseSlice(first: nat, last: nat)

  predicate Allowed<K, V>(s: seq<(K, V)>, op: Op<K, V>) {
    op.EraseSlice? ==> op.first < op.last <= |s|
  }

  function Step<K(==), V>(s: seq<(K, V)>, op: Op<K, V>): seq<(K, V)>
    requires Allowed(s, op)
  {
    match op
    case Emplace(k, v) => Emplaced(s, k, v)
    case Insert(k, v) => Emplaced(s, k, v)
    case InsertRange(values) => EmplacedAll(s, values)
    case Erase(k) => Erased(s, k)
    case EraseSlice(first, last) => Cut(s, first, last)
  }

  predicate AllAllowed<K(==), V>(s: seq<(K, V)>, ops: seq<Op<K, V>>)
    decreases |ops|
  {
    ops == [] || (Allowed(s, ops[0]) && AllAllowed(Step(s, ops[0]), ops[1..]))
  }

  function Run<K(==), V>(s: seq<(K, V)>, ops: seq<Op<K, V>>): seq<(K, V)>
    requires AllAllowed(s, ops)
    decreases |ops|
  {
    if ops == [] then s else Run(Step(s, ops[0]), ops[1..])
  }

  /** The pairs of a range, the first with each key, where the map has no such key yet. */
  function MapInserted<K(==), V>(m: map<K, V>, values: seq<(K, V)>): map<K, V>
    decreases |values|
  {
    if values == [] then m
    else
      var (k, v) := values[0];
      MapInserted(if k in m then m else m[k := v], values[1..])
  }

  /** The effect of an operation on an abstract map; a slice stands for the keys at its positions. */
  ghost function MapStep<K(!new), V>(m: map<K, V>, s: seq<(K, V)>, op: Op<K, V>): map<K, V>
    requires Allowed(s, op)
  {
    match op
    case Emplace(k, v) => if k in m then m else m[k := v]
    case Insert(k, v) => if k in m then m else m[k := v]
    case InsertRange(values) => MapInserted(m, values)
    case Erase(k) => m - {k}
    case EraseSlice(first, last) => m - KeysIn(s, first, last)
  }

  ghost function MapRun<K(!new), V>(m: map<K, V>, s: seq<(K, V)>, ops: seq<Op<K, V>>): map<K, V>
    requires AllAllowed(s, ops)
    decreases |ops|
  {
    if ops == [] then m else MapRun(MapStep(m, s, ops[0]), Step(s, ops[0]), ops[1..])
  }

  lemma {:induction false} EmplacedAllIsMapInsert<K, V>(s: seq<(K, V)>, values: seq<(K, V)>)
    requires UniqueKeys(s)
    ensures UniqueKeys(EmplacedAll(s, values)) && AsMap(EmplacedAll(s, values)) == MapInserted(AsMap(s), values)
    decreases |values|
  {
    if values != [] {
      EmplacedIsMapInsert(s, values[0].0, values[0].1);
      EmplacedAllIsMapInsert(Emplaced(s, values[0].0, values[0].1), values[1..]);
    }
  }

  lemma StepRefinesMap<K(!new), V>(s: seq<(K, V)>, op: Op<K, V>)
    requires UniqueKeys(s) && Allowed(s, op)
    ensures UniqueKeys(Step(s, op))
    ensures AsMap(Step(s, op)) == MapStep(AsMap(s), s, op)
  {
    match op
    case Emplace(k, v) => EmplacedIsMapInsert(s, k, v);
    case Insert(k, v) => EmplacedIsMapInsert(s, k, v);
    case InsertRange(values) => EmplacedAllIsMapInsert(s, values);
    case Erase(k) =>
      Lookup(s, k);
      var i := IndexOf(s, k);
      if i < |s| {
        CutIsMapRemove(s, i, i + 1);
        assert KeysIn(s, i, i + 1) == {k};
      } else {
        assert AsMap(s) - {k} == AsMap(s);
      }
    case EraseSlice(first, last) => CutIsMapRemove(s, first, last);
  }

  /** Every run keeps keys unique and agrees with the abstract map. */
  lemma {:induction false} RunRefinesMap<K(!new), V>(s: seq<(K, V)>, ops: seq<Op<K, V>>)
    requires UniqueKeys(s) && AllAllowed(s, ops)
    ensures UniqueKeys(Run(s, ops))
    ensures AsMap(Run(s, ops)) == MapRun(AsMap(s), s, ops)
    decreases |ops|
  {
    if ops != [] {
      StepRefinesMap(s, ops[0]);
      RunRefinesMap(Step(s, ops[0]), ops[1..]);
    }
  }

  /** The key is present before, after and all through the run. */
  ghost predicate Survives<K(!new), V>(s: seq<(K, V)>, ops: seq<Op<K, V>>, k: K)
    requires AllAllowed(s, ops)
    decreases |ops|
  {
    HasKey(s, k) && (ops == [] || Survives(Step(s, ops[0]), ops[1..], k))
  }

  lemma HasKeyIndex<K, V>(s: seq<(K, V)>, k: K)
    ensures HasKey(s, k) <==> IndexOf(s, k) < |s|
  {
  }

  /** Where a key that is not cut moves to. */
  lemma CutPosition<K(!new), V>(s: seq<(K, V)>, from: nat, to: nat, k: K)
    requires UniqueKeys(s) && from <= to <= |s| && HasKey(s, k) && HasKey(Cut(s, from, to), k)
    ensures var i, j := IndexOf(s, k), IndexOf(Cut(s, from, to), k);
            && (i < from || to <= i)
            && j == (if i < from then i else i - (to - from))
            && Cut(s, from, to)[j] == s[i]
  {
    hide *;
    HasKeyIndex(s, k);
    HasKeyIndex(Cut(s, from, to), k);
    CutSource(s, from, to, IndexOf(Cut(s, from, to), k));
  }

  lemma {:induction false} CutKeepsOrder<K(!new), V>(s: seq<(K, V)>, from: nat, to: nat, k: K, l: K)
    requires UniqueKeys(s) && from <= to <= |s|
    requires HasKey(s, k) && HasKey(s, l) && HasKey(Cut(s, from, to), k) && HasKey(Cut(s, from, to), l)
    ensures IndexOf(s, k) < IndexOf(s, l) <==> IndexOf(Cut(s, from, to), k) < IndexOf(Cut(s, from, to), l)
    ensures s[IndexOf(s, k)] == Cut(s, from, to)[IndexOf(Cut(s, from, to), k)]
  {
    CutPosition(s, from, to, k);
    CutPosition(s, from, to, l);
    hide UniqueKeys, HasKey, Cut;
  }

  lemma {:induction false} AppendKeepsIndex<K, V>(s: seq<(K, V)>, p: (K, V), k: K)
    requires HasKey(s, k)
    ensures IndexOf(s + [p], k) == IndexOf(s, k) < |s|
  {
    HasKeyIndex(s, k);
    if s[0].0 != k {
      assert (s + [p])[1..] == s[1..] + [p];
      HasKeyIndex(s[1..], k);
      AppendKeepsIndex(s[1..], p, k);
    }
  }

  lemma EmplacedKeepsIndex<K, V>(s: seq<(K, V)>, x: K, v: V, k: K)
    requires HasKey(s, k)
    ensures HasKey(Emplaced(s, x, v), k)
    ensures IndexOf(Emplaced(s, x, v), k) == IndexOf(s, k) < |s|
    ensures Emplaced(s, x, v)[IndexOf(s, k)] == s[IndexOf(s, k)]
  {
    HasKeyIndex(s, k);
    HasKeyIndex(Emplaced(s, x, v), k);
    AppendKeepsIndex(s, (x, v), k);
  }

  lemma {:induction false} AllKeepIndex<K, V>(s: seq<(K, V)>, values: seq<(K, V)>, k: K)
    requires HasKey(s, k)
    ensures HasKey(EmplacedAll(s, values), k)
    ensures IndexOf(EmplacedAll(s, values), k) == IndexOf(s, k) < |s| <= |EmplacedAll(s, values)|
    ensures EmplacedAll(s, values)[IndexOf(s, k)] == s[IndexOf(s, k)]
    decreases |values|
  {
    EmplacedKeepsIndexOnly(s, k);
    if values != [] {
      EmplacedKeepsIndex(s, values[0].0, values[0].1, k);
      AllKeepIndex(Emplaced(s, values[0].0, values[0].1), values[1..], k);
    }
  }

  lemma EmplacedKeepsIndexOnly<K, V>(s: seq<(K, V)>, k: K)
    requires HasKey(s, k)
    ensures IndexOf(s, k) < |s|
  {
    HasKeyIndex(s, k);
  }

  lemma {:induction false} StepKeepsOrder<K(!new), V>(s: seq<(K, V)>, op: Op<K, V>, k: K, l: K)
    requires UniqueKeys(s) && Allowed(s, op)
    requires HasKey(s, k) && HasKey(s, l) && HasKey(Step(s, op), k) && HasKey(Step(s, op), l)
    ensures IndexOf(s, k) < IndexOf(s, l) <==> IndexOf(Step(s, op), k) < IndexOf(Step(s, op), l)
    ensures s[IndexOf(s, k)] == Step(s, op)[IndexOf(Step(s, op), k)]
  {
    HasKeyIndex(s, k);
    HasKeyIndex(Step(s, op), k);
    hide UniqueKeys, HasKey, Cut, IndexOf;
    match op
    case Emplace(x, v) =>
      AppendKeepsIndex(s, (x, v), k);
      AppendKeepsIndex(s, (x, v), l);
    case Insert(x, v) =>
      AppendKeepsIndex(s, (x, v), k);
      AppendKeepsIndex(s, (x, v), l);
    case InsertRange(values) =>
      AllKeepIndex(s, values, k);
      AllKeepIndex(s, values, l);
    case Erase(x) =>
      if IndexOf(s, x) < |s| { CutKeepsOrder(s, IndexOf(s, x), IndexOf(s, x) + 1, k, l); }
    case EraseSlice(first, last) => CutKeepsOrder(s, first, last, k, l);
  }

  /** Keys that are never erased stay in insertion order, with their values. */
  lemma {:induction false} RunKeepsOrder<K(!new), V>(s: seq<(K, V)>, ops: seq<Op<K, V>>, k: K, l: K)
    requires UniqueKeys(s) && AllAllowed(s, ops) && Survives(s, ops, k) && Survives(s, ops, l)
    ensures HasKey(Run(s, ops), k) && HasKey(Run(s, ops), l)
    ensures IndexOf(s, k) < IndexOf(s, l) <==> IndexOf(Run(s, ops), k) < IndexOf(Run(s, ops), l)
    ensures s[IndexOf(s, k)] == Run(s, ops)[IndexOf(Run(s, ops), k)]
    decreases |ops|
  {
    if ops != [] {
      var next := Step(s, ops[0]);
      StepRefinesMap(s, ops[0]);
      if ops[1..] == [] { assert Run(s, ops) == next; }
      StepKeepsOrder(s, ops[0], k, l);
      RunKeepsOrder(next, ops[1..], k, l);
    }
  }

  /** A key that an operation adds comes behind all that were there. */
  lemma {:induction false} StepAppendsNew<K(!new), V>(s: seq<(K, V)>, op: Op<K, V>, k: K, l: K)
    requires UniqueKeys(s) && Allowed(s, op)
    requires HasKey(s, k) && HasKey(Step(s, op), k) && !HasKey(s, l) && HasKey(Step(s, op), l)
    ensures IndexOf(Step(s, op), k) < IndexOf(Step(s, op), l)
  {
    HasKeyIndex(s, k);
    HasKeyIndex(s, l);
    HasKeyIndex(Step(s, op), l);
    match op
    case Emplace(x, v) => EmplacedKeepsIndex(s, x, v, k);
    case Insert(x, v) => EmplacedKeepsIndex(s, x, v, k);
    case InsertRange(values) => AllAppendNew(s, values, k, l);
    case Erase(x) =>
      if IndexOf(s, x) < |s| { CutSource(s, IndexOf(s, x), IndexOf(s, x) + 1, IndexOf(Step(s, op), l)); }
    case EraseSlice(first, last) => CutSource(s, first, last, IndexOf(Step(s, op), l));
  }

  lemma {:induction false} AllAppendNew<K, V>(s: seq<(K, V)>, values: seq<(K, V)>, k: K, l: K)
    requires HasKey(s, k) && !HasKey(s, l) && HasKey(EmplacedAll(s, values), l)
    ensures IndexOf(EmplacedAll(s, values), k) < IndexOf(EmplacedAll(s, values), l)
  {
    AllKeepIndex(s, values, k);
    HasKeyIndex(EmplacedAll(s, values), l);
    AllKeepFront(s, values);
  }

  lemma {:induction false} AllKeepFront<K, V>(s: seq<(K, V)>, values: seq<(K, V)>)
    ensures s <= EmplacedAll(s, values)
    decreases |values|
  {
    if values != [] { AllKeepFront(Emplaced(s, values[0].0, values[0].1), values[1..]); }
  }

  /** Keys stand in the order of their insertion: one that is there all through the run stands before one that was
      added during it. */
  lemma {:induction false} RunAppendsNew<K(!new), V>(s: seq<(K, V)>, ops: seq<Op<K, V>>, k: K, l: K)
    requires UniqueKeys(s) && AllAllowed(s, ops) && Survives(s, ops, k)
    requires !HasKey(s, l) && HasKey(Run(s, ops), l)
    ensures HasKey(Run(s, ops), k) && IndexOf(Run(s, ops), k) < IndexOf(Run(s, ops), l)
    decreases |ops|
  {
    var next := Step(s, ops[0]);
    StepRefinesMap(s, ops[0]);
    if HasKey(next, l) {
      StepAppendsNew(s, ops[0], k, l);
      StaysBehind(next, ops[1..], k, l);
    } else {
      RunAppendsNew(next, ops[1..], k, l);
    }
  }

  /** Once behind a key that stays, always behind it. */
  lemma {:induction false} StaysBehind<K(!new), V>(s: seq<(K, V)>, ops: seq<Op<K, V>>, k: K, l: K)
    requires UniqueKeys(s) && AllAllowed(s, ops) && Survives(s, ops, k)
    requires HasKey(s, l) ==> IndexOf(s, k) < IndexOf(s, l)
    requires HasKey(Run(s, ops), l)
    ensures HasKey(Run(s, ops), k) && IndexOf(Run(s, ops), k) < IndexOf(Run(s, ops), l)
    decreases |ops|
  {
    if ops != [] {
      var next := Step(s, ops[0]);
      StepRefinesMap(s, ops[0]);
      if HasKey(next, l) {
        if HasKey(s, l) { StepKeepsOrder(s, ops[0], k, l); } else { StepAppendsNew(s, ops[0], k, l); }
      }
      StaysBehind(next, ops[1..], k, l);
    }
  }
}
