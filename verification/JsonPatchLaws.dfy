/** What the operations of a patch do to the rest of the document, and how they
    undo one another. */
module JsonPatchLaws {
  import opened Wrappers
  import opened JsonValue
  import opened JsonPatch
  import JsonPointer

  // ----- array indices have one spelling -----------------------------------------

  lemma {:induction false} DecimalOfValue(s: string)
    requires JsonPointer.AllDigits(s) && s != "" && (|s| > 1 ==> s[0] != '0')
    ensures JsonPointer.Decimal(JsonPointer.DecimalValue(s)) == s
  {
    var front, d := s[..|s| - 1], s[|s| - 1];
    assert JsonPointer.IsDigit(d);
    assert s == front + [d];
    if |s| > 1 {
      LastDigit(s);
      hide JsonPointer.Decimal, JsonPointer.DecimalValue;
      DecimalOfValue(front);
      NonZero(front);
      DecimalAppend(JsonPointer.DecimalValue(front), JsonPointer.DecimalValue(s), d);
    } else {
      LastDigit(s);
      DecimalOne(d);
    }
  }

  lemma LastDigit(s: string)
    requires JsonPointer.AllDigits(s) && s != ""
    ensures var d := s[|s| - 1] as int - '0' as int;
            && JsonPointer.DecimalValue(s) == JsonPointer.DecimalValue(s[..|s| - 1]) * 10 + d
            && (|s| == 1 ==> JsonPointer.DecimalValue(s) == d)
  {
  }

  lemma DecimalOne(d: char)
    requires JsonPointer.IsDigit(d)
    ensures JsonPointer.Decimal(d as int - '0' as int) == [d]
  {
  }

  lemma DecimalAppend(q: nat, n: nat, d: char)
    requires q > 0 && JsonPointer.IsDigit(d) && n == q * 10 + (d as int - '0' as int)
    ensures JsonPointer.Decimal(n) == JsonPointer.Decimal(q) + [d]
  {
    assert n / 10 == q && n % 10 == d as int - '0' as int;
  }

  lemma {:induction false} NonZero(s: string)
    requires JsonPointer.AllDigits(s) && s != "" && s[0] != '0'
    ensures JsonPointer.DecimalValue(s) > 0
  {
    if |s| > 1 { NonZero(s[..|s| - 1]); }
  }

  /** Two tokens that name the same element of an array are the same token. */
  lemma IndexInjective(a: string, b: string)
    requires JsonPointer.ArrayIndex(a).Ok? && JsonPointer.ArrayIndex(a) == JsonPointer.ArrayIndex(b)
    ensures a == b
  {
    DecimalOfValue(a);
    DecimalOfValue(b);
  }

  // ----- what stays unchanged ------------------------------------------------------

  predicate Apart(p: Pointer, q: Pointer) { !(p <= q) && !(q <= p) }

  /** Writing at p leaves every location that is neither above nor below p as it was. */
  lemma {:induction false} SetElsewhere(j: Json, p: Pointer, v: Json, q: Pointer)
    requires At(j, p).Ok? && Apart(p, q)
    ensures At(SetAt(j, p, v), q) == At(j, q)
  {
    if p[0] == q[0] {
      SetElsewhere(Step(j, p[0]).value, p[1..], v, q[1..]);
    } else {
      OtherChild(j, p[0], SetAt(Step(j, p[0]).value, p[1..], v), q[0]);
    }
  }

  lemma OtherChild(j: Json, token: string, v: Json, other: string)
    requires Step(j, token).Ok? && token != other
    ensures Step(SetStep(j, token, v), other) == Step(j, other)
  {
    if j.Arr? && JsonPointer.ArrayIndex(other) == JsonPointer.ArrayIndex(token) {
      IndexInjective(token, other);
    }
  }

  // ----- locality --------------------------------------------------------------------

  /** The operation op on the subtree at p, written as an operation on the whole document. */
  function Below(p: Pointer, op: Op): Op {
    match op
    case Add(path, v) => Add(p + path, v)
    case Remove(path) => Remove(p + path)
    case Replace(path, v) => Replace(p + path, v)
    case Move(from, path) => Move(p + from, p + path)
    case Copy(from, path) => Copy(p + from, p + path)
    case Test(path, v) => Test(p + path, v)
  }

  function AllBelow(p: Pointer, ops: seq<Op>): seq<Op> {
    if ops == [] then [] else [Below(p, ops[0])] + AllBelow(p, ops[1..])
  }

  predicate ParentExists(sub: Json, path: Pointer) {
    path != [] && At(sub, Parent(path)).Ok?
  }

  /** Removals and additions are strictly below the subtree's root, and what is added has a parent. */
  predicate IsLocal(sub: Json, op: Op) {
    match op
    case Add(path, _) => ParentExists(sub, path)
    case Remove(path) => path != []
    case Replace(_, _) => true
    case Move(from, path) =>
      from != [] && path != [] && (RemoveAt(sub, from).Ok? ==> ParentExists(RemoveAt(sub, from).value, path))
    case Copy(_, path) => ParentExists(sub, path)
    case Test(_, _) => true
  }

  predicate AllLocal(sub: Json, ops: seq<Op>)
    decreases |ops|
  {
    ops == [] ||
    (IsLocal(sub, ops[0]) && (Apply(sub, ops[0]).Ok? ==> AllLocal(Apply(sub, ops[0]).value, ops[1..])))
  }

  /** What a result for the subtree at p makes of the whole document. */
  function Lifted(doc: Json, p: Pointer, r: Result<Json>): Result<Json>
    requires At(doc, p).Ok?
  {
    if r.Ok? then Ok(SetAt(doc, p, r.value)) else r
  }

  /** With an existing parent, `operation_add` creates nothing but the new child. */
  lemma {:induction false} AddUnderParent(doc: Json, ptr: Pointer, v: Json)
    requires ParentExists(doc, ptr)
    ensures AddUnder(doc, ptr, v) == Lifted(doc, Parent(ptr), AddChild(At(doc, Parent(ptr)).value, Last(ptr), v))
    decreases |ptr|
  {
    if |ptr| == 1 {
      assert Parent(ptr) == [];
    } else {
      var child := Step(doc, ptr[0]).value;
      assert Parent(ptr)[0] == ptr[0] && Parent(ptr)[1..] == Parent(ptr[1..]);
      AddUnderParent(child, ptr[1..], v);
    }
  }

  lemma AddAtParent(doc: Json, ptr: Pointer, v: Json)
    requires ParentExists(doc, ptr)
    ensures AddAt(doc, ptr, v) == Lifted(doc, Parent(ptr), AddChild(At(doc, Parent(ptr)).value, Last(ptr), v))
  {
    AddUnderParent(doc, ptr, v);
    if |ptr| > 1 {
      assert Parent(ptr) == [ptr[0]] + ptr[1..|ptr| - 1];
      AtAppend(doc, [ptr[0]], ptr[1..|ptr| - 1]);
    }
  }

  lemma AddBelow(doc: Json, p: Pointer, path: Pointer, v: Json)
    requires At(doc, p).Ok? && ParentExists(At(doc, p).value, path)
    ensures AddAt(doc, p + path, v) == Lifted(doc, p, AddAt(At(doc, p).value, path, v))
  {
    var sub := At(doc, p).value;
    assert Parent(p + path) == p + Parent(path);
    AtAppend(doc, p, Parent(path));
    AddAtParent(doc, p + path, v);
    AddAtParent(sub, path, v);
    var added := AddChild(At(sub, Parent(path)).value, Last(path), v);
    if added.Ok? { SetAppend(doc, p, Parent(path), added.value); }
  }

  lemma RemoveBelow(doc: Json, p: Pointer, path: Pointer)
    requires At(doc, p).Ok? && path != []
    ensures RemoveAt(doc, p + path) == Lifted(doc, p, RemoveAt(At(doc, p).value, path))
  {
    hide At, SetAt, RemoveChild;
    var sub := At(doc, p).value;
    assert Parent(p + path) == p + Parent(path) && Last(p + path) == Last(path);
    hide Parent, Last;
    AtAppend(doc, p, Parent(path));
    if At(sub, Parent(path)).Ok? {
      var smaller := RemoveChild(At(sub, Parent(path)).value, Last(path));
      if smaller.Ok? { SetAppend(doc, p, Parent(path), smaller.value); }
    }
  }

  /** One operation below p acts on the document as the stripped operation acts on the subtree at p. */
  lemma ApplyBelow(doc: Json, p: Pointer, op: Op)
    requires At(doc, p).Ok? && IsLocal(At(doc, p).value, op)
    ensures Apply(doc, Below(p, op)) == Lifted(doc, p, Apply(At(doc, p).value, op))
  {
    var sub := At(doc, p).value;
    AtAppend(doc, p, op.path);
    match op
    case Add(path, v) => AddBelow(doc, p, path, v);
    case Remove(path) => RemoveBelow(doc, p, path);
    case Replace(path, v) => if At(sub, path).Ok? { SetAppend(doc, p, path, v); }
    case Move(from, path) =>
      AtAppend(doc, p, from);
      RemoveBelow(doc, p, from);
      if At(sub, from).Ok? && RemoveAt(sub, from).Ok? {
        var smaller := RemoveAt(sub, from).value;
        AtSet(doc, p, smaller);
        AddBelow(SetAt(doc, p, smaller), p, path, At(sub, from).value);
        var added := AddAt(smaller, path, At(sub, from).value);
        if added.Ok? { SetSet(doc, p, smaller, added.value); }
      }
    case Copy(from, path) =>
      AtAppend(doc, p, from);
      if At(sub, from).Ok? { AddBelow(doc, p, path, At(sub, from).value); }
    case Test(path, v) => SetSame(doc, p);
  }

  /** Locality of whole patches, and everything outside p is untouched. */
  lemma {:induction false} PatchIsLocal(doc: Json, p: Pointer, ops: seq<Op>)
    requires At(doc, p).Ok? && AllLocal(At(doc, p).value, ops)
    ensures ApplyAll(doc, AllBelow(p, ops)) == Lifted(doc, p, ApplyAll(At(doc, p).value, ops))
    ensures ApplyAll(doc, AllBelow(p, ops)).Ok? ==>
              forall q | Apart(p, q) :: At(ApplyAll(doc, AllBelow(p, ops)).value, q) == At(doc, q)
    decreases |ops|
  {
    var sub := At(doc, p).value;
    if ops == [] {
      SetSame(doc, p);
    } else {
      ApplyBelow(doc, p, ops[0]);
      var next := Apply(sub, ops[0]);
      assert AllBelow(p, ops)[1..] == AllBelow(p, ops[1..]);
      if next.Ok? {
        var doc' := SetAt(doc, p, next.value);
        AtSet(doc, p, next.value);
        PatchIsLocal(doc', p, ops[1..]);
        var r := ApplyAll(next.value, ops[1..]);
        if r.Ok? { SetSet(doc, p, next.value, r.value); }
      }
    }
    var r := ApplyAll(sub, ops);
    if r.Ok? {
      forall q | Apart(p, q) ensures At(SetAt(doc, p, r.value), q) == At(doc, q) {
        SetElsewhere(doc, p, r.value, q);
      }
    }
  }

  // ----- inverses ----------------------------------------------------------------------

  /** The token names a place in the container where nothing has to be overwritten. */
  predicate IsInsertion(parent: Json, last: string) {
    match parent
    case Obj(m) => last !in m
    case Arr(a) => last != "-"
    case _ => false
  }

  lemma RemoveChildUndoesAdd(parent: Json, last: string, v: Json)
    requires IsInsertion(parent, last) && AddChild(parent, last, v).Ok?
    ensures var added := AddChild(parent, last, v).value;
            Step(added, last) == Ok(v) && RemoveChild(added, last) == Ok(parent)
  {
    match parent
    case Obj(m) => assert m[last := v] - {last} == m;
    case Arr(a) =>
      var i := JsonPointer.ArrayIndex(last).value;
      assert EraseAt(InsertAt(a, i, v), i) == a;
  }

  lemma AddChildUndoesRemove(parent: Json, last: string)
    requires Step(parent, last).Ok?
    ensures RemoveChild(parent, last).Ok?
    ensures AddChild(RemoveChild(parent, last).value, last, Step(parent, last).value) == Ok(parent)
  {
    match parent
    case Obj(m) => assert (m - {last})[last := m[last]] == m;
    case Arr(a) =>
      var i := JsonPointer.ArrayIndex(last).value;
      assert InsertAt(EraseAt(a, i), i, a[i]) == a;
  }

  lemma AtSplit(doc: Json, ptr: Pointer)
    requires ptr != []
    ensures At(doc, ptr) == if At(doc, Parent(ptr)).Ok? then Step(At(doc, Parent(ptr)).value, Last(ptr))
                            else At(doc, Parent(ptr))
  {
    assert ptr == Parent(ptr) + [Last(ptr)];
    AtAppend(doc, Parent(ptr), [Last(ptr)]);
    if At(doc, Parent(ptr)).Ok? {
      var child := Step(At(doc, Parent(ptr)).value, Last(ptr));
      if child.Ok? { assert At(child.value, [Last(ptr)][1..]) == child; }
    }
  }

  /** What was added is found where it was added, and removing it restores the document. */
  lemma RemoveUndoesAdd(doc: Json, ptr: Pointer, v: Json)
    requires ParentExists(doc, ptr) && IsInsertion(At(doc, Parent(ptr)).value, Last(ptr))
    requires AddAt(doc, ptr, v).Ok?
    ensures At(AddAt(doc, ptr, v).value, ptr) == Ok(v)
    ensures RemoveAt(AddAt(doc, ptr, v).value, ptr) == Ok(doc)
  {
    var parent := At(doc, Parent(ptr)).value;
    AddAtParent(doc, ptr, v);
    RemoveChildUndoesAdd(parent, Last(ptr), v);
    var added := AddChild(parent, Last(ptr), v).value;
    AtSet(doc, Parent(ptr), added);
    AtSplit(SetAt(doc, Parent(ptr), added), ptr);
    SetSet(doc, Parent(ptr), added, parent);
    SetSame(doc, Parent(ptr));
  }

  /** Adding back what was removed restores the document. */
  lemma {:induction false} AddUndoesRemove(doc: Json, ptr: Pointer)
    requires ptr != [] && At(doc, ptr).Ok?
    ensures RemoveAt(doc, ptr).Ok?
    ensures AddAt(RemoveAt(doc, ptr).value, ptr, At(doc, ptr).value) == Ok(doc)
  {
    AtSplit(doc, ptr);
    var parent := At(doc, Parent(ptr)).value;
    AddChildUndoesRemove(parent, Last(ptr));
    var smaller := RemoveChild(parent, Last(ptr)).value;
    AtSet(doc, Parent(ptr), smaller);
    AddAtParent(SetAt(doc, Parent(ptr), smaller), ptr, At(doc, ptr).value);
    SetSet(doc, Parent(ptr), smaller, parent);
    SetSame(doc, Parent(ptr));
  }

  /** Moving a value onto itself changes nothing. */
  lemma MoveOntoItself(doc: Json, ptr: Pointer)
    requires ptr != [] && At(doc, ptr).Ok?
    ensures Apply(doc, Move(ptr, ptr)) == Ok(doc)
  {
    AddUndoesRemove(doc, ptr);
  }

  // ----- tests ---------------------------------------------------------------------------

  function WithoutTests(ops: seq<Op>): seq<Op> {
    if ops == [] then []
    else (if ops[0].Test? then [] else [ops[0]]) + WithoutTests(ops[1..])
  }

  /** The test at position k finds an equal value in what the other operations before it make of the document. */
  predicate TestHolds(doc: Json, ops: seq<Op>, k: nat)
    requires k < |ops| && ops[k].Test?
  {
    var before := ApplyAll(doc, WithoutTests(ops[..k]));
    before.Ok? && At(before.value, ops[k].path).Ok? && JsonEq(At(before.value, ops[k].path).value, ops[k].value)
  }

  ghost predicate TestsHold(doc: Json, ops: seq<Op>) {
    forall k | 0 <= k < |ops| && ops[k].Test? :: TestHolds(doc, ops, k)
  }

  lemma TestsHoldStep(doc: Json, ops: seq<Op>)
    requires ops != []
    ensures ops[0].Test? ==> (TestHolds(doc, ops, 0) <==> Apply(doc, ops[0]).Ok?)
    ensures forall k | 0 < k < |ops| && ops[k].Test? && Apply(doc, ops[0]).Ok? ::
              TestHolds(doc, ops, k) <==> TestHolds(Apply(doc, ops[0]).value, ops[1..], k - 1)
  {
    assert ops[..0] == [];
    forall k | 0 < k < |ops| && ops[k].Test? && Apply(doc, ops[0]).Ok?
      ensures TestHolds(doc, ops, k) <==> TestHolds(Apply(doc, ops[0]).value, ops[1..], k - 1)
    {
      hide At, JsonEq;
      var front := ops[1..][..k - 1];
      assert ops[..k][1..] == front;
      assert WithoutTests(ops[..k]) == (if ops[0].Test? then [] else [ops[0]]) + WithoutTests(front);
      if ops[0].Test? {
        assert WithoutTests(ops[..k]) == WithoutTests(front);
        TestKeeps(doc, ops[0]);
      } else {
        assert WithoutTests(ops[..k])[1..] == WithoutTests(front);
      }
    }
  }

  lemma TestKeeps(doc: Json, op: Op)
    requires op.Test? && Apply(doc, op).Ok?
    ensures Apply(doc, op).value == doc
  {
  }

  /** Tests only guard: a patch succeeds exactly when it does so without its tests and each of these finds an equal
      value at its place, and it then makes the same document. */
  lemma {:induction false} TestsOnlyGuard(doc: Json, ops: seq<Op>)
    ensures ApplyAll(doc, ops).Ok? <==> ApplyAll(doc, WithoutTests(ops)).Ok? && TestsHold(doc, ops)
    ensures ApplyAll(doc, ops).Ok? ==> ApplyAll(doc, ops) == ApplyAll(doc, WithoutTests(ops))
    decreases |ops|
  {
    if ops != [] {
      TestsHoldStep(doc, ops);
      var next := Apply(doc, ops[0]);
      if ops[0].Test? {
        assert WithoutTests(ops) == WithoutTests(ops[1..]);
      } else {
        assert WithoutTests(ops)[1..] == WithoutTests(ops[1..]);
      }
      if next.Ok? {
        if ops[0].Test? { TestKeeps(doc, ops[0]); }
        hide Apply, TestHolds, WithoutTests;
        TestsOnlyGuard(next.value, ops[1..]);
        TestsHoldTail(doc, ops, next.value);
      }
    }
  }

  lemma TestsHoldTail(doc: Json, ops: seq<Op>, next: Json)
    requires ops != []
    requires ops[0].Test? ==> TestHolds(doc, ops, 0)
    requires forall k | 0 < k < |ops| && ops[k].Test? :: TestHolds(doc, ops, k) <==> TestHolds(next, ops[1..], k - 1)
    ensures TestsHold(doc, ops) <==> TestsHold(next, ops[1..])
  {
    hide TestHolds;
    if TestsHold(doc, ops) {
      forall k | 0 <= k < |ops[1..]| && ops[1..][k].Test? ensures TestHolds(next, ops[1..], k) {
        assert ops[k + 1].Test? && TestHolds(doc, ops, k + 1);
      }
    }
  }

  // ----- operations as text -------------------------------------------------------------

  /** The patch element that asks for an operation. */
  function OpDoc(op: Op): Json {
    var path := JsonPointer.ToText(op.path);
    match op
    case Add(_, v) => AddDoc(path, v)
    case Remove(_) => RemoveDoc(path)
    case Replace(_, v) => ReplaceDoc(path, v)
    case Move(from, _) => Obj(map["op" := Str("move"), "from" := Str(JsonPointer.ToText(from)), "path" := Str(path)])
    case Copy(from, _) => Obj(map["op" := Str("copy"), "from" := Str(JsonPointer.ToText(from)), "path" := Str(path)])
    case Test(_, v) => Obj(map["op" := Str("test"), "path" := Str(path), "value" := v])
  }

  /** Every operation can be written down and is read back as it was. */
  lemma DecodeOpDoc(op: Op)
    ensures DecodeOp(OpDoc(op)) == Ok(op)
  {
    JsonPointer.ParseToText(op.path);
    if op.Move? || op.Copy? { JsonPointer.ParseToText(op.from); }
    hide JsonPointer.Parse, JsonPointer.ToText;
  }

  function OpDocs(ops: seq<Op>): seq<Json> {
    if ops == [] then [] else [OpDoc(ops[0])] + OpDocs(ops[1..])
  }

  /** Running the patch document of some operations is applying the operations. */
  lemma {:induction false} RunOfOpDocs(doc: Json, ops: seq<Op>)
    ensures Patch(doc, Arr(OpDocs(ops))) == ApplyAll(doc, ops)
    decreases |ops|
  {
    if ops != [] {
      DecodeOpDoc(ops[0]);
      assert OpDocs(ops)[1..] == OpDocs(ops[1..]);
      var next := Apply(doc, ops[0]);
      if next.Ok? { RunOfOpDocs(next.value, ops[1..]); }
    }
  }

  // ----- additions without a parent ---------------------------------------------------------

  /** What `get_unchecked` makes of a token that names nothing: whether a null can be put there. */
  predicate CanEnter(j: Json, token: string) {
    match j
    case Null => JsonPointer.AllDigits(token) ==> JsonPointer.ArrayIndex(token).Ok?
    case Obj(_) => true
    case Arr(_) => token == "-" || JsonPointer.ArrayIndex(token).Ok?
    case _ => false
  }

  /** One level of an addition: through an existing child, or through a null that is put there. */
  lemma AddUnderStep(j: Json, ptr: Pointer, v: Json)
    requires |ptr| > 1
    ensures Step(j, ptr[0]).Ok? ==>
              var child := AddUnder(Step(j, ptr[0]).value, ptr[1..], v);
              AddUnder(j, ptr, v) == if child.Ok? then Ok(SetStep(j, ptr[0], child.value)) else child
    ensures Step(j, ptr[0]).Err? ==>
              (AddUnder(j, ptr, v).Ok? <==> CanEnter(j, ptr[0]) && AddUnder(Null, ptr[1..], v).Ok?)
    ensures Step(j, ptr[0]).Err? && AddUnder(j, ptr, v) == Err(AssertionFailure) ==>
              AddUnder(Null, ptr[1..], v) == Err(AssertionFailure)
  {
    if Step(j, ptr[0]).Ok? { AddThroughChild(j, ptr, v); } else { AddThroughNull(j, ptr, v); }
    hide AddUnder, CanEnter;
  }

  lemma AddThroughChild(j: Json, ptr: Pointer, v: Json)
    requires |ptr| > 1 && Step(j, ptr[0]).Ok?
    ensures var child := AddUnder(Step(j, ptr[0]).value, ptr[1..], v);
            AddUnder(j, ptr, v) == if child.Ok? then Ok(SetStep(j, ptr[0], child.value)) else child
  {
    hide JsonPointer.AllDigits, JsonPointer.ArrayIndex;
  }

  lemma AddThroughNull(j: Json, ptr: Pointer, v: Json)
    requires |ptr| > 1 && Step(j, ptr[0]).Err?
    ensures AddUnder(j, ptr, v).Ok? <==> CanEnter(j, ptr[0]) && AddUnder(Null, ptr[1..], v).Ok?
    ensures AddUnder(j, ptr, v) == Err(AssertionFailure) ==> AddUnder(Null, ptr[1..], v) == Err(AssertionFailure)
  {
    IndexErrorIsNoAssertion(ptr[0]);
    hide JsonPointer.AllDigits, JsonPointer.ArrayIndex;
  }

  lemma IndexErrorIsNoAssertion(token: string)
    ensures JsonPointer.ArrayIndex(token) != Err(AssertionFailure)
  {
  }

  /** However many parents an addition has to create, its value is found where it was to be added. */
  lemma {:induction false} AddedIsFound(j: Json, ptr: Pointer, v: Json)
    requires ptr != [] && "-" !in ptr && AddUnder(j, ptr, v).Ok?
    ensures At(AddUnder(j, ptr, v).value, ptr) == Ok(v)
    decreases |ptr|
  {
    var r := AddUnder(j, ptr, v).value;
    assert ptr[0] in ptr;
    if |ptr| == 1 {
      assert Step(r, ptr[0]) == Ok(v);
      assert At(v, ptr[1..]) == Ok(v);
    } else {
      match Coerce(j, ptr[0])
      case Obj(m) =>
        AddedIsFound(if ptr[0] in m then m[ptr[0]] else Null, ptr[1..], v);
      case Arr(a) =>
        var i := JsonPointer.ArrayIndex(ptr[0]).value;
        AddedIsFound(Padded(a, i)[i], ptr[1..], v);
    }
  }

  /** How many tokens of the path lead to something that exists, the last token not counted. */
  function Reach(j: Json, ptr: Pointer): (n: nat)
    requires ptr != []
    ensures n < |ptr| && At(j, ptr[..n]).Ok?
    ensures n < |ptr| - 1 ==> Step(At(j, ptr[..n]).value, ptr[n]).Err?
    decreases |ptr|
  {
    if |ptr| == 1 || Step(j, ptr[0]).Err? then 0
    else
      var n := Reach(Step(j, ptr[0]).value, ptr[1..]);
      assert ptr[..n + 1][1..] == ptr[1..][..n];
      n + 1
  }

  /** A path that can be created below a null: its tokens of digits, the last one apart, are array indices. */
  predicate IsChain(tokens: Pointer) {
    forall i | 0 <= i < |tokens| - 1 && JsonPointer.AllDigits(tokens[i]) :: JsonPointer.ArrayIndex(tokens[i]).Ok?
  }

  /** The end of a path, of which not even the first token exists below j, can be created there. */
  predicate CanCreate(j: Json, tokens: Pointer)
    requires tokens != []
  {
    match j
    case Null => IsChain(tokens)
    case Obj(_) => IsChain(tokens[1..])
    case Arr(_) => (tokens[0] == "-" || JsonPointer.ArrayIndex(tokens[0]).Ok?) && IsChain(tokens[1..])
    case _ => false
  }

  /** A child can be added under the last token of a path to an existing parent. */
  predicate CanAdd(parent: Json, last: string) {
    match parent
    case Null => true
    case Obj(_) => true
    case Arr(a) =>
      last == "-" || (JsonPointer.ArrayIndex(last).Ok? && JsonPointer.ArrayIndex(last).value <= |a|)
    case _ => false
  }

  lemma {:induction false} ChainIsCreated(tokens: Pointer, v: Json)
    requires tokens != []
    ensures AddUnder(Null, tokens, v).Ok? <==> IsChain(tokens)
    decreases |tokens|
  {
    if |tokens| > 1 {
      ChainIsCreated(tokens[1..], v);
      ChainTail(tokens);
      AddUnderStep(Null, tokens, v);
      hide IsChain, AddUnder;
    }
  }

  lemma ChainTail(tokens: Pointer)
    requires |tokens| > 1
    ensures IsChain(tokens) <==>
            (JsonPointer.AllDigits(tokens[0]) ==> JsonPointer.ArrayIndex(tokens[0]).Ok?) && IsChain(tokens[1..])
  {
    hide JsonPointer.AllDigits, JsonPointer.ArrayIndex;
    if IsChain(tokens[1..]) {
      forall i | 0 < i < |tokens| - 1 && JsonPointer.AllDigits(tokens[i])
        ensures JsonPointer.ArrayIndex(tokens[i]).Ok?
      {
        assert tokens[i] == tokens[1..][i - 1];
      }
    }
    if IsChain(tokens) {
      forall i | 0 <= i < |tokens[1..]| - 1 && JsonPointer.AllDigits(tokens[1..][i])
        ensures JsonPointer.ArrayIndex(tokens[1..][i]).Ok?
      {
        assert tokens[1..][i] == tokens[i + 1];
      }
    }
  }

  /** With an existing parent, the parent can take the child; without one, the last value on the path that exists
      can be extended. */
  predicate Addable(j: Json, ptr: Pointer)
    requires ptr != []
  {
    var n := Reach(j, ptr);
    var place := At(j, ptr[..n]).value;
    if n == |ptr| - 1 then CanAdd(place, ptr[n]) else CanCreate(place, ptr[n..])
  }

  lemma AddableStep(j: Json, ptr: Pointer)
    requires |ptr| > 1
    ensures Step(j, ptr[0]).Ok? ==> (Addable(j, ptr) <==> Addable(Step(j, ptr[0]).value, ptr[1..]))
    ensures Step(j, ptr[0]).Err? ==> (Addable(j, ptr) <==> CanCreate(j, ptr))
  {
    hide CanAdd, CanCreate;
    var n := Reach(j, ptr);
    if Step(j, ptr[0]).Ok? {
      assert ptr[..n][1..] == ptr[1..][..n - 1];
      assert ptr[1..][n - 1..] == ptr[n..];
    } else {
      assert ptr[..0] == [] && ptr[0..] == ptr;
    }
  }

  lemma {:induction false} AddUnderExactly(j: Json, ptr: Pointer, v: Json)
    requires ptr != []
    ensures AddUnder(j, ptr, v).Ok? <==> Addable(j, ptr)
    decreases |ptr|
  {
    if |ptr| == 1 {
      assert ptr[..0] == [];
    } else {
      AddableStep(j, ptr);
      AddUnderStep(j, ptr, v);
      hide AddUnder, Addable;
      if Step(j, ptr[0]).Ok? {
        AddUnderExactly(Step(j, ptr[0]).value, ptr[1..], v);
      } else {
        ChainIsCreated(ptr[1..], v);
        ChainTail(ptr);
        hide IsChain;
      }
    }
  }

  /** When an addition succeeds, for every document and path. Without a parent that is when the first token exists
      and the rest of the path can be created. */
  lemma AdditionSucceedsExactly(doc: Json, ptr: Pointer, v: Json)
    requires ptr != []
    ensures AddAt(doc, ptr, v).Ok? <==> Addable(doc, ptr) && (|ptr| == 1 || Reach(doc, ptr) > 0)
    ensures ParentExists(doc, ptr) <==> Reach(doc, ptr) == |ptr| - 1
  {
    hide AddUnder, Addable;
    AddUnderExactly(doc, ptr, v);
    FirstToken(doc, ptr);
    ReachesParent(doc, ptr);
  }

  lemma FirstToken(doc: Json, ptr: Pointer)
    requires ptr != []
    ensures At(doc, [ptr[0]]).Ok? <==> Step(doc, ptr[0]).Ok?
    ensures |ptr| > 1 ==> (At(doc, [ptr[0]]).Ok? <==> Reach(doc, ptr) > 0)
  {
    if Step(doc, ptr[0]).Ok? { assert At(Step(doc, ptr[0]).value, [ptr[0]][1..]).Ok?; }
  }

  /** The parent exists exactly when everything up to the last token does. */
  lemma {:induction false} ReachesParent(j: Json, ptr: Pointer)
    requires ptr != []
    ensures ParentExists(j, ptr) <==> Reach(j, ptr) == |ptr| - 1
    decreases |ptr|
  {
    if |ptr| == 1 {
      assert Parent(ptr) == [];
    } else {
      assert Parent(ptr)[0] == ptr[0] && Parent(ptr)[1..] == Parent(ptr[1..]);
      if Step(j, ptr[0]).Ok? { ReachesParent(Step(j, ptr[0]).value, ptr[1..]); }
    }
  }

  /** An addition that has to create parents leaves everything that exists beside its path as it was. */
  lemma {:induction false} CreationKeepsOthers(j: Json, ptr: Pointer, v: Json, q: Pointer)
    requires ptr != [] && !ParentExists(j, ptr) && AddUnder(j, ptr, v).Ok?
    requires !(q <= ptr) && At(j, q).Ok?
    ensures At(AddUnder(j, ptr, v).value, q) == At(j, q)
    decreases |ptr|
  {
    ReachesParent(j, ptr);
    var r := AddUnder(j, ptr, v).value;
    if |ptr| > 1 && q != [] {
      if q[0] != ptr[0] {
        OtherChildKept(j, ptr, v, q[0]);
      } else {
        var child := Step(j, ptr[0]).value;
        ReachesParent(child, ptr[1..]);
        assert !(q[1..] <= ptr[1..]);
        CreationKeepsOthers(child, ptr[1..], v, q[1..]);
        assert Step(r, q[0]) == Ok(AddUnder(child, ptr[1..], v).value);
      }
    }
  }

  lemma OtherChildKept(j: Json, ptr: Pointer, v: Json, other: string)
    requires |ptr| > 1 && AddUnder(j, ptr, v).Ok? && other != ptr[0] && Step(j, other).Ok?
    ensures Step(AddUnder(j, ptr, v).value, other) == Step(j, other)
  {
    if j.Arr? && ptr[0] != "-" && JsonPointer.ArrayIndex(other) == JsonPointer.ArrayIndex(ptr[0]) {
      IndexInjective(other, ptr[0]);
    }
  }

  // ----- departures from RFC 6902 -------------------------------------------------------

  /** Section 4.2 of RFC 6902 wants the target of a removal to exist. Here it
      must, except below a value that is neither an array nor an object, where
      the removal does nothing and succeeds. */
  lemma RemovalSucceedsExactly(doc: Json, ptr: Pointer)
    ensures RemoveAt(doc, ptr).Ok? <==>
            ptr != [] && (At(doc, ptr).Ok? || (At(doc, Parent(ptr)).Ok? && !IsContainer(At(doc, Parent(ptr)).value)))
    ensures ptr != [] && At(doc, Parent(ptr)).Ok? && !IsContainer(At(doc, Parent(ptr)).value) ==>
              At(doc, ptr).Err? && RemoveAt(doc, ptr) == Ok(doc)
  {
    if ptr != [] {
      AtSplit(doc, ptr);
      if At(doc, Parent(ptr)).Ok? { SetSame(doc, Parent(ptr)); }
    }
  }

  /** A removal that succeeds without a target: "/a/b" in {"a": true}. */
  lemma RemovalWithoutTarget()
    ensures var doc := Obj(map["a" := Bool(true)]);
            At(doc, ["a", "b"]).Err? && Apply(doc, Remove(["a", "b"])) == Ok(doc)
  {
    var doc := Obj(map["a" := Bool(true)]);
    var ptr := ["a", "b"];
    assert Parent(ptr) == ["a"] && ["a"][1..] == [];
    assert At(doc, ["a"]) == Ok(Bool(true));
    RemovalSucceedsExactly(doc, ptr);
  }

  /** Section 4.1 of RFC 6902 wants the object or array that is added to to exist. An addition without it that
      succeeds: {"a": {}} becomes {"a": {"b": {"c": true}}}. */
  lemma AdditionWithoutParent()
    ensures var doc := Obj(map["a" := Obj(map[])]);
            At(doc, ["a", "b"]).Err? &&
            AddAt(doc, ["a", "b", "c"], Bool(true)) ==
            Ok(Obj(map["a" := Obj(map["b" := Obj(map["c" := Bool(true)])])]))
  {
    var doc := Obj(map["a" := Obj(map[])]);
    var ptr := ["a", "b", "c"];
    assert At(doc, ["a"]) == Ok(Obj(map[])) by { assert At(Obj(map[]), ["a"][1..]) == Ok(Obj(map[])); }
    assert ["a", "b"][1..] == ["b"];
    assert ptr[1..] == ["b", "c"] && ["b", "c"][1..] == ["c"];
    assert !JsonPointer.AllDigits("b") by { assert !JsonPointer.IsDigit("b"[0]); }
    assert AddUnder(Null, ["c"], Bool(true)) == Ok(Obj(map["c" := Bool(true)]));
    var inner := Obj(map["b" := Obj(map["c" := Bool(true)])]);
    assert AddUnder(Obj(map[]), ["b", "c"], Bool(true)) == Ok(inner);
    assert doc.members["a" := inner] == map["a" := inner];
    assert AddUnder(doc, ptr, Bool(true)) == Ok(Obj(doc.members["a" := inner]));
  }

  /** What exists on a path can be left out when the addition at its end is judged. */
  lemma {:induction false} AddablePrefix(j: Json, p: Pointer, q: Pointer)
    requires At(j, p).Ok? && q != []
    ensures Addable(j, p + q) <==> Addable(At(j, p).value, q)
    ensures Reach(j, p + q) == |p| + Reach(At(j, p).value, q)
    decreases |p|
  {
    hide Addable;
    if p == [] {
      assert p + q == q;
    } else {
      assert (p + q)[1..] == p[1..] + q;
      AddableStep(j, p + q);
      AddablePrefix(Step(j, p[0]).value, p[1..], q);
    }
  }

  /** A value that was taken out of its parent is put below the place where it was: in an array the next element
      has moved there, otherwise the place has to be created again. */
  predicate CanPutBelow(parent: Json, token: string, tail: Pointer, depth: nat)
    requires Step(parent, token).Ok? && tail != []
  {
    if parent.Arr? && JsonPointer.ArrayIndex(token).value + 1 < |parent.elems|
    then Addable(parent.elems[JsonPointer.ArrayIndex(token).value + 1], tail)
    else depth > 1 && IsChain(tail)
  }

  lemma TailIsChain(token: string, tail: Pointer)
    requires tail != []
    ensures ([token] + tail)[1..] == tail && ([token] + tail)[0] == token && |[token] + tail| > 1
  {
  }

  /** One level of the previous: below the parent that has lost the value. */
  lemma AddableAfterRemoval(parent: Json, token: string, tail: Pointer)
    requires Step(parent, token).Ok? && tail != []
    ensures RemoveChild(parent, token).Ok?
    ensures var smaller := RemoveChild(parent, token).value;
            if parent.Arr? && JsonPointer.ArrayIndex(token).value + 1 < |parent.elems| then
              var next := parent.elems[JsonPointer.ArrayIndex(token).value + 1];
              Addable(smaller, [token] + tail) <==> Addable(next, tail)
            else Reach(smaller, [token] + tail) == 0 && (Addable(smaller, [token] + tail) <==> IsChain(tail))
  {
    TailIsChain(token, tail);
    var smaller := RemoveChild(parent, token).value;
    AddableStep(smaller, [token] + tail);
    hide Addable, IsChain;
  }

  /** Section 4.4 of RFC 6902 forbids to move a value into itself. The library takes it out first and then adds it
      below the place where it was, which succeeds exactly when that place can be entered without it. */
  lemma MoveBelowItself(doc: Json, from: Pointer, tail: Pointer)
    requires tail != []
    ensures Apply(doc, Move(from, from + tail)).Ok? <==>
            && from != [] && At(doc, from).Ok?
            && At(doc, Parent(from)).Ok? && Step(At(doc, Parent(from)).value, Last(from)).Ok?
            && CanPutBelow(At(doc, Parent(from)).value, Last(from), tail, |from|)
  {
    hide Addable, IsChain, AddAt, RemoveChild, SetAt, At, Step;
    if from != [] && At(doc, from).Ok? {
      AtSplit(doc, from);
      var parent, token := At(doc, Parent(from)).value, Last(from);
      AddableAfterRemoval(parent, token, tail);
      var smaller := RemoveChild(parent, token).value;
      AtSet(doc, Parent(from), smaller);
      var doc' := SetAt(doc, Parent(from), smaller);
      assert from + tail == Parent(from) + ([token] + tail);
      AddablePrefix(doc', Parent(from), [token] + tail);
      AdditionSucceedsExactly(doc', from + tail, At(doc, from).value);
      ReachOfSibling(parent, token, tail);
    }
  }

  lemma ReachOfSibling(parent: Json, token: string, tail: Pointer)
    requires Step(parent, token).Ok? && tail != [] && RemoveChild(parent, token).Ok?
    ensures parent.Arr? && JsonPointer.ArrayIndex(token).value + 1 < |parent.elems| ==>
              Reach(RemoveChild(parent, token).value, [token] + tail) > 0
  {
    TailIsChain(token, tail);
  }

  /** Such a move that succeeds: of "/x/a" to "/x/a/b" in {"x": {"a": true}}. */
  lemma MoveIntoItself()
    ensures Apply(Obj(map["x" := Obj(map["a" := Bool(true)])]), Move(["x", "a"], ["x", "a", "b"])).Ok?
  {
    var inner := Obj(map["a" := Bool(true)]);
    var doc := Obj(map["x" := inner]);
    var from := ["x", "a"];
    assert Parent(from) == ["x"] && ["x"][1..] == [] && from[1..] == ["a"] && ["a"][1..] == [];
    assert At(doc, ["x"]) == Ok(inner);
    AtSplit(doc, from);
    assert from + ["b"] == ["x", "a", "b"];
    MoveBelowItself(doc, from, ["b"]);
  }

  /** An addition runs into the assertion "if there exists a parent it cannot be
      primitive" exactly when its parent is a primitive other than null. */
  lemma AdditionBelowPrimitive(doc: Json, ptr: Pointer, v: Json)
    ensures AddAt(doc, ptr, v) == Err(AssertionFailure) <==>
            && ParentExists(doc, ptr)
            && !IsContainer(At(doc, Parent(ptr)).value) && !At(doc, Parent(ptr)).value.Null?
  {
    hide AddUnder, AddChild, SetAt, Step;
    if ptr != [] {
      if ParentExists(doc, ptr) {
        AddAtParent(doc, ptr, v);
        AddChildAssertion(At(doc, Parent(ptr)).value, Last(ptr), v);
      } else {
        NoAssertion(doc, ptr, v);
        FirstToken(doc, ptr);
        AtError(doc, [ptr[0]]);
      }
    }
  }

  lemma AddChildAssertion(parent: Json, last: string, v: Json)
    ensures AddChild(parent, last, v) == Err(AssertionFailure) <==> !IsContainer(parent) && !parent.Null?
  {
  }

  lemma {:induction false} AtError(j: Json, ptr: Pointer)
    ensures At(j, ptr) != Err(AssertionFailure)
  {
    if ptr != [] && Step(j, ptr[0]).Ok? { AtError(Step(j, ptr[0]).value, ptr[1..]); }
  }

  /** Below a null, and wherever parents are created, the assertion is not reached. */
  lemma {:induction false} NoAssertion(j: Json, ptr: Pointer, v: Json)
    requires ptr != [] && (j.Null? || !ParentExists(j, ptr))
    ensures AddUnder(j, ptr, v) != Err(AssertionFailure)
    decreases |ptr|
  {
    if |ptr| > 1 {
      assert Parent(ptr)[0] == ptr[0] && Parent(ptr)[1..] == Parent(ptr[1..]);
      AddUnderStep(j, ptr, v);
      hide AddUnder, CanEnter;
      NoAssertion(if Step(j, ptr[0]).Ok? then Step(j, ptr[0]).value else Null, ptr[1..], v);
    } else {
      assert Parent(ptr) == [];
    }
  }

  /** The assertion is reached: adding at "/a/b" to {"a": true}. */
  lemma AssertionIsReached(v: Json)
    ensures AddAt(Obj(map["a" := Bool(true)]), ["a", "b"], v) == Err(AssertionFailure)
  {
    var doc := Obj(map["a" := Bool(true)]);
    var ptr := ["a", "b"];
    assert Parent(ptr) == ["a"] && ["a"][1..] == [];
    assert At(doc, ["a"]) == Ok(Bool(true));
    AdditionBelowPrimitive(doc, ptr, v);
  }
}
