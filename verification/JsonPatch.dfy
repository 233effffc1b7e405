/** The interpreter of JSON Patch documents. */
module JsonPatch {
  import opened Wrappers
  import opened JsonValue
  import JsonPointer

  type Pointer = seq<string>

  // ----- locations inside a document -----------------------------------------

  /** One round of `get_checked`. */
  function Step(j: Json, token: string): Result<Json> {
    match j
    case Obj(m) => if token in m then Ok(m[token]) else Err(OutOfRange(403))
    case Arr(a) =>
      if token == "-" then Err(OutOfRange(402))
      else
        var i :- JsonPointer.ArrayIndex(token);
        if i < |a| then Ok(a[i]) else Err(OutOfRange(401))
    case _ => Err(OutOfRange(404))
  }

  /** `at(ptr)`. */
  function At(j: Json, ptr: Pointer): Result<Json> {
    if ptr == [] then Ok(j)
    else
      var child :- Step(j, ptr[0]);
      At(child, ptr[1..])
  }

  /** The loop of `get_checked`. */
  method GetChecked(j: Json, ptr: Pointer) returns (r: Result<Json>)
    ensures r == At(j, ptr)
  {
    var current := j;
    for i := 0 to |ptr|
      invariant At(j, ptr) == At(current, ptr[i..])
    {
      var next := Step(current, ptr[i]);
      if next.Err? { return next; }
      current := next.value;
    }
    return Ok(current);
  }

  function SetStep(j: Json, token: string, v: Json): Json
    requires Step(j, token).Ok?
  {
    match j
    case Obj(m) => Obj(m[token := v])
    case Arr(a) => Arr(a[JsonPointer.ArrayIndex(token).value := v])
  }

  /** The document after an assignment through the reference `at(ptr)`. */
  function SetAt(j: Json, ptr: Pointer, v: Json): Json
    requires At(j, ptr).Ok?
  {
    if ptr == [] then v
    else SetStep(j, ptr[0], SetAt(Step(j, ptr[0]).value, ptr[1..], v))
  }

  function Parent(ptr: Pointer): Pointer
    requires ptr != []
  {
    ptr[..|ptr| - 1]
  }

  function Last(ptr: Pointer): string
    requires ptr != []
  {
    ptr[|ptr| - 1]
  }

  // ----- the operations --------------------------------------------------------

  datatype Op =
    | Add(path: Pointer, value: Json)
    | Remove(path: Pointer)
    | Replace(path: Pointer, value: Json)
    | Move(from: Pointer, path: Pointer)
    | Copy(from: Pointer, path: Pointer)
    | Test(path: Pointer, value: Json)

  function InsertAt<T>(a: seq<T>, i: nat, v: T): seq<T>
    requires i <= |a|
  {
    a[..i] + [v] + a[i..]
  }

  function EraseAt<T>(a: seq<T>, i: nat): seq<T>
    requires i < |a|
  {
    a[..i] + a[i + 1..]
  }

  /** The switch on the parent in `operation_add`. */
  function AddChild(parent: Json, last: string, v: Json): Result<Json> {
    match parent
    case Null => Ok(Obj(map[last := v]))
    case Obj(m) => Ok(Obj(m[last := v]))
    case Arr(a) =>
      if last == "-" then Ok(Arr(a + [v]))
      else
        var i :- JsonPointer.ArrayIndex(last);
        if i > |a| then Err(OutOfRange(401)) else Ok(Arr(InsertAt(a, i, v)))
    case _ => Err(AssertionFailure)
  }

  /** `get_unchecked` turns a null that has to be entered into a container. */
  function Coerce(j: Json, token: string): Json {
    if j.Null? then (if JsonPointer.AllDigits(token) || token == "-" then Arr([]) else Obj(map[])) else j
  }

  /** `operator[](idx)` fills the array up with nulls. */
  function Padded(a: seq<Json>, i: nat): (r: seq<Json>)
    ensures i < |r| && |a| <= |r| && r[..|a|] == a
  {
    if i < |a| then a else a + seq(i + 1 - |a|, _ => Null)
  }

  /** `result[ptr]` through `get_unchecked` on the parent, then `AddChild`. */
  function AddUnder(j: Json, ptr: Pointer, v: Json): Result<Json>
    requires ptr != []
    decreases |ptr|
  {
    if |ptr| == 1 then AddChild(j, ptr[0], v)
    else
      match Coerce(j, ptr[0])
      case Obj(m) =>
        var child :- AddUnder(if ptr[0] in m then m[ptr[0]] else Null, ptr[1..], v);
        Ok(Obj(m[ptr[0] := child]))
      case Arr(a) =>
        var i :- if ptr[0] == "-" then Ok(|a|) else JsonPointer.ArrayIndex(ptr[0]);
        var padded := Padded(a, i);
        var child :- AddUnder(padded[i], ptr[1..], v);
        Ok(Arr(padded[i := child]))
      case _ => Err(OutOfRange(404))
  }

  /** `operation_add`. */
  function AddAt(doc: Json, ptr: Pointer, v: Json): Result<Json> {
    if ptr == [] then Ok(v)
    else if |ptr| > 1 then
      var _ :- At(doc, [ptr[0]]);
      AddUnder(doc, ptr, v)
    else AddUnder(doc, ptr, v)
  }

  function RemoveChild(parent: Json, last: string): Result<Json> {
    match parent
    case Obj(m) => if last in m then Ok(Obj(m - {last})) else Err(OutOfRange(403))
    case Arr(a) =>
      var i :- JsonPointer.ArrayIndex(last);
      if i >= |a| then Err(OutOfRange(401)) else Ok(Arr(EraseAt(a, i)))
    case _ => Ok(parent)
  }

  /** `operation_remove`. */
  function RemoveAt(doc: Json, ptr: Pointer): Result<Json> {
    if ptr == [] then Err(OutOfRange(405))
    else
      var parent :- At(doc, Parent(ptr));
      var smaller :- RemoveChild(parent, Last(ptr));
      Ok(SetAt(doc, Parent(ptr), smaller))
  }

  /** One round of the switch on the operation. */
  function Apply(doc: Json, op: Op): Result<Json> {
    match op
    case Add(path, value) => AddAt(doc, path, value)
    case Remove(path) => RemoveAt(doc, path)
    case Replace(path, value) =>
      var _ :- At(doc, path);
      Ok(SetAt(doc, path, value))
    case Move(from, path) =>
      var v :- At(doc, from);
      var smaller :- RemoveAt(doc, from);
      AddAt(smaller, path, v)
    case Copy(from, path) =>
      var v :- At(doc, from);
      AddAt(doc, path, v)
    case Test(path, value) =>
      match At(doc, path)
      case Ok(v) => if JsonEq(v, value) then Ok(doc) else Err(OtherError(501))
      case Err(OutOfRange(_)) => Err(OtherError(501))
      case Err(e) => Err(e)
  }

  function ApplyAll(doc: Json, ops: seq<Op>): Result<Json>
    decreases |ops|
  {
    if ops == [] then Ok(doc)
    else
      var next :- Apply(doc, ops[0]);
      ApplyAll(next, ops[1..])
  }

  // ----- patch documents ---------------------------------------------------------

  function Member(m: map<string, Json>, name: string): Result<Json> {
    if name in m then Ok(m[name]) else Err(ParseError(105))
  }

  function StringMember(m: map<string, Json>, name: string): Result<string> {
    var v :- Member(m, name);
    if v.Str? then Ok(v.text) else Err(ParseError(105))
  }

  function PointerMember(m: map<string, Json>, name: string): Result<Pointer> {
    var text :- StringMember(m, name);
    JsonPointer.Parse(text)
  }

  /** One element of the patch document as an operation. */
  function DecodeOp(val: Json): Result<Op> {
    if !val.Obj? then Err(ParseError(104))
    else
      var m := val.members;
      var op :- StringMember(m, "op");
      var path :- PointerMember(m, "path");
      match op
      case "add" => var value :- Member(m, "value"); Ok(Add(path, value))
      case "remove" => Ok(Remove(path))
      case "replace" => var value :- Member(m, "value"); Ok(Replace(path, value))
      case "move" => var from :- PointerMember(m, "from"); Ok(Move(from, path))
      case "copy" => var from :- PointerMember(m, "from"); Ok(Copy(from, path))
      case "test" => var value :- Member(m, "value"); Ok(Test(path, value))
      case _ => Err(ParseError(105))
  }

  /** The elements that `diff` writes. */
  function AddDoc(path: string, v: Json): Json {
    Obj(map["op" := Str("add"), "path" := Str(path), "value" := v])
  }

  function RemoveDoc(path: string): Json {
    Obj(map["op" := Str("remove"), "path" := Str(path)])
  }

  function ReplaceDoc(path: string, v: Json): Json {
    Obj(map["op" := Str("replace"), "path" := Str(path), "value" := v])
  }

  /** The operations are decoded one at a time, each after the ones before it were applied. */
  function Run(doc: Json, vals: seq<Json>): Result<Json>
    decreases |vals|
  {
    if vals == [] then Ok(doc)
    else
      var op :- DecodeOp(vals[0]);
      var next :- Apply(doc, op);
      Run(next, vals[1..])
  }

  /** `doc.patch(json_patch)`. */
  function Patch(doc: Json, jsonPatch: Json): Result<Json> {
    if !jsonPatch.Arr? then Err(ParseError(104)) else Run(doc, jsonPatch.elems)
  }

  /** The loop of `patch` over its working copy. */
  method PatchDocument(doc: Json, jsonPatch: Json) returns (r: Result<Json>)
    ensures r == Patch(doc, jsonPatch)
  {
    var result := doc;
    if !jsonPatch.Arr? { return Err(ParseError(104)); }
    var vals := jsonPatch.elems;
    for i := 0 to |vals|
      invariant Run(doc, vals) == Run(result, vals[i..])
    {
      var op := DecodeOp(vals[i]);
      if op.Err? { return Err(op.error); }
      var next := Apply(result, op.value);
      if next.Err? { return next; }
      result := next.value;
    }
    return Ok(result);
  }

  lemma {:induction false} RunAppend(doc: Json, xs: seq<Json>, ys: seq<Json>)
    ensures Run(doc, xs + ys) == if Run(doc, xs).Ok? then Run(Run(doc, xs).value, ys) else Run(doc, xs)
    decreases |xs|
  {
    if xs == [] {
      assert xs + ys == ys;
    } else {
      assert (xs + ys)[1..] == xs[1..] + ys;
      var op := DecodeOp(xs[0]);
      if op.Ok? && Apply(doc, op.value).Ok? {
        RunAppend(Apply(doc, op.value).value, xs[1..], ys);
      }
    }
  }

  // ----- reading and writing at a location -----------------------------------------

  lemma {:induction false} AtAppend(j: Json, p: Pointer, q: Pointer)
    ensures At(j, p + q) == if At(j, p).Ok? then At(At(j, p).value, q) else At(j, p)
  {
    if p == [] {
      assert p + q == q;
    } else {
      assert (p + q)[1..] == p[1..] + q;
      if Step(j, p[0]).Ok? { AtAppend(Step(j, p[0]).value, p[1..], q); }
    }
  }

  lemma {:induction false} SetAppend(j: Json, p: Pointer, q: Pointer, v: Json)
    requires At(j, p).Ok? && At(At(j, p).value, q).Ok?
    ensures At(j, p + q).Ok?
    ensures SetAt(j, p + q, v) == SetAt(j, p, SetAt(At(j, p).value, q, v))
  {
    AtAppend(j, p, q);
    if p == [] {
      assert p + q == q;
    } else {
      assert (p + q)[1..] == p[1..] + q;
      SetAppend(Step(j, p[0]).value, p[1..], q, v);
    }
  }

  lemma {:induction false} AtSet(j: Json, p: Pointer, v: Json)
    requires At(j, p).Ok?
    ensures At(SetAt(j, p, v), p) == Ok(v)
  {
    if p != [] { AtSet(Step(j, p[0]).value, p[1..], v); }
  }

  lemma {:induction false} SetSet(j: Json, p: Pointer, v: Json, w: Json)
    requires At(j, p).Ok?
    ensures At(SetAt(j, p, v), p).Ok? && SetAt(SetAt(j, p, v), p, w) == SetAt(j, p, w)
  {
    AtSet(j, p, v);
    hide Step, SetStep;
    if p != [] {
      var child := Step(j, p[0]).value;
      SetSet(child, p[1..], v, w);
      SetStepTwice(j, p[0], SetAt(child, p[1..], v), SetAt(child, p[1..], w));
    }
  }

  lemma SetStepTwice(j: Json, token: string, v: Json, w: Json)
    requires Step(j, token).Ok?
    ensures Step(SetStep(j, token, v), token) == Ok(v)
    ensures SetStep(SetStep(j, token, v), token, w) == SetStep(j, token, w)
  {
  }

  lemma {:induction false} SetSame(j: Json, p: Pointer)
    requires At(j, p).Ok?
    ensures SetAt(j, p, At(j, p).value) == j
  {
    if p != [] {
      SetSame(Step(j, p[0]).value, p[1..]);
    }
  }
}
