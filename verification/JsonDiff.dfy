/** The generator of patches, and the round trip through the interpreter. */
module JsonDiff {
  import opened Machine
  import opened Wrappers
  import opened JsonValue
  import opened JsonPatch
  import Escaping = StringEscape
  import JsonPointer
  import JsonPatchLaws
  import Collections

  // ----- paths -------------------------------------------------------------------

  function IndexPath(path: string, i: nat): string { path + "/" + JsonPointer.Decimal(i) }

  function KeyPath(path: string, key: string): string { path + "/" + Escaping.Escape(key) }

  function Min(a: nat, b: nat): nat { if a < b then a else b }

  // ----- what diff emits ------------------------------------------------------------

  /** `diff(source, target, path)`, as the elements of the resulting array. */
  function Diff(source: Json, target: Json, path: string): seq<Json>
    decreases source, 1, 0
  {
    if JsonEq(source, target) then []
    else if !SameType(source, target) then [ReplaceDoc(path, target)]
    else
      match source
      case Arr(a) =>
        var b := target.elems;
        DiffCommon(source, target, 0, path)
        + RemoveTail(path, Min(|a|, |b|), |a|)
        + AppendTail(path, b, Min(|a|, |b|))
      case Obj(m) =>
        DiffMembers(source, target, SortedKeys(m.Keys), path)
        + AddMembers(m, target.members, SortedKeys(target.members.Keys), path)
      case _ => [ReplaceDoc(path, target)]
  }

  /** The recursive comparisons of the common elements, from index i on. */
  function DiffCommon(source: Json, target: Json, i: nat, path: string): seq<Json>
    requires source.Arr? && target.Arr?
    decreases source, 0, |source.elems| - i
  {
    if i < |source.elems| && i < |target.elems| then
      Diff(source.elems[i], target.elems[i], IndexPath(path, i)) + DiffCommon(source, target, i + 1, path)
    else []
  }

  /** Removals of the elements lo..hi, the last one first. */
  function RemoveTail(path: string, lo: nat, hi: nat): seq<Json>
    decreases hi - lo
  {
    if lo < hi then [RemoveDoc(IndexPath(path, hi - 1))] + RemoveTail(path, lo, hi - 1) else []
  }

  function AppendTail(path: string, b: seq<Json>, i: nat): seq<Json>
    decreases |b| - i
  {
    if i < |b| then [AddDoc(path + "/-", b[i])] + AppendTail(path, b, i + 1) else []
  }

  /** The first pass over the members of the source. */
  function DiffMembers(source: Json, target: Json, keys: seq<string>, path: string): seq<Json>
    requires source.Obj? && target.Obj? && forall k | k in keys :: k in source.members
    decreases source, 0, |keys|
  {
    if keys == [] then []
    else
      var k := keys[0];
      (if k in target.members then Diff(source.members[k], target.members[k], KeyPath(path, k))
       else [RemoveDoc(KeyPath(path, k))])
      + DiffMembers(source, target, keys[1..], path)
  }

  /** The second pass, over the members of the target. */
  function AddMembers(m: map<string, Json>, n: map<string, Json>, keys: seq<string>, path: string): seq<Json>
    requires forall k | k in keys :: k in n
  {
    if keys == [] then []
    else
      (if keys[0] in m then [] else [AddDoc(KeyPath(path, keys[0]), n[keys[0]])])
      + AddMembers(m, n, keys[1..], path)
  }

  /** `diff` itself; the two recursive cases follow as methods of their own. */
  method DiffDocuments(source: Json, target: Json, path: string) returns (result: seq<Json>)
    ensures result == Diff(source, target, path)
    decreases source, 1
  {
    result := [];
    if JsonEq(source, target) { return; }
    if !SameType(source, target) { return [ReplaceDoc(path, target)]; }
    match source {
      case Arr(_) => result := DiffArrays(source, target, path);
      case Obj(_) => result := DiffObjects(source, target, path);
      case _ => result := [ReplaceDoc(path, target)];
    }
  }

  method DiffArrays(source: Json, target: Json, path: string) returns (result: seq<Json>)
    requires source.Arr? && target.Arr?
    ensures result == DiffCommon(source, target, 0, path)
                      + RemoveTail(path, Min(|source.elems|, |target.elems|), |source.elems|)
                      + AppendTail(path, target.elems, Min(|source.elems|, |target.elems|))
    decreases source, 0
  {
    var a, b := source.elems, target.elems;
    result := [];
    var i := 0;
    while i < |a| && i < |b|
      invariant i <= |a| && i <= |b|
      invariant result + DiffCommon(source, target, i, path) == DiffCommon(source, target, 0, path)
    {
      var step := DiffDocuments(a[i], b[i], IndexPath(path, i));
      Collections.Associate(result, step, DiffCommon(source, target, i + 1, path));
      result := result + step;
      i := i + 1;
    }
    ghost var n := i;
    ghost var common := result;
    assert common == DiffCommon(source, target, 0, path) by { assert DiffCommon(source, target, i, path) == []; }
    var endIndex := |result|;
    while i < |a|
      invariant n <= i && (i == n || i <= |a|)
      invariant result == common + RemoveTail(path, n, i)
    {
      result := InsertAt(result, endIndex, RemoveDoc(IndexPath(path, i)));
      i := i + 1;
    }
    ghost var removed := result;
    assert removed + AppendTail(path, b, i) == removed + AppendTail(path, b, n) by {
      if n < |a| { assert |b| <= n <= i; }
    }
    while i < |b|
      invariant n <= i
      invariant result + AppendTail(path, b, i) == removed + AppendTail(path, b, n)
    {
      Collections.Associate(result, [AddDoc(path + "/-", b[i])], AppendTail(path, b, i + 1));
      result := result + [AddDoc(path + "/-", b[i])];
      i := i + 1;
    }
  }

  method DiffObjects(source: Json, target: Json, path: string) returns (result: seq<Json>)
    requires source.Obj? && target.Obj?
    ensures result == DiffMembers(source, target, SortedKeys(source.members.Keys), path)
                      + AddMembers(source.members, target.members, SortedKeys(target.members.Keys), path)
    decreases source, 0, 1
  {
    var first := FirstPass(source, target, SortedKeys(source.members.Keys), path);
    var second := SecondPass(source.members, target.members, SortedKeys(target.members.Keys), path);
    result := first + second;
  }

  method SecondPass(m: map<string, Json>, n: map<string, Json>, keys: seq<string>, path: string)
    returns (result: seq<Json>)
    requires forall k | k in keys :: k in n
    ensures result == AddMembers(m, n, keys, path)
  {
    result := [];
    for i := 0 to |keys|
      invariant result + AddMembers(m, n, keys[i..], path) == AddMembers(m, n, keys, path)
    {
      var k := keys[i];
      assert k in keys;
      var step := [];
      if k !in m {
        step := [AddDoc(KeyPath(path, k), n[k])];
      }
      assert keys[i..][1..] == keys[i + 1..];
      Collections.Associate(result, step, AddMembers(m, n, keys[i + 1..], path));
      result := result + step;
    }
  }

  method FirstPass(source: Json, target: Json, keys: seq<string>, path: string) returns (result: seq<Json>)
    requires source.Obj? && target.Obj? && forall k | k in keys :: k in source.members
    ensures result == DiffMembers(source, target, keys, path)
    decreases source, 0, 0
  {
    result := [];
    for i := 0 to |keys|
      invariant result + DiffMembers(source, target, keys[i..], path) == DiffMembers(source, target, keys, path)
    {
      var k := keys[i];
      assert k in keys;
      var step := [RemoveDoc(KeyPath(path, k))];
      if k in target.members {
        step := DiffDocuments(source.members[k], target.members[k], KeyPath(path, k));
      }
      assert keys[i..][1..] == keys[i + 1..];
      Collections.Associate(result, step, DiffMembers(source, target, keys[i + 1..], path));
      result := result + step;
    }
  }

  // ----- what the patch must produce ---------------------------------------------------

  /** The target, with the parts of the source kept that `operator==` cannot tell from it. */
  function Rewritten(source: Json, target: Json): Json
    decreases source, 1
  {
    if JsonEq(source, target) then source
    else if source.Arr? && target.Arr? then Arr(RewrittenElems(source, target))
    else if source.Obj? && target.Obj? then Obj(RewrittenMembers(source, target))
    else target
  }

  function RewrittenElems(source: Json, target: Json): (r: seq<Json>)
    requires source.Arr? && target.Arr?
    ensures |r| == |target.elems|
    decreases source, 0
  {
    var a, b := source.elems, target.elems;
    seq(|b|, i requires 0 <= i < |b| => if i < |a| then Rewritten(a[i], b[i]) else b[i])
  }

  function RewrittenMembers(source: Json, target: Json): (r: map<string, Json>)
    requires source.Obj? && target.Obj?
    ensures r.Keys == target.members.Keys
    decreases source, 0
  {
    var m, n := source.members, target.members;
    map k | k in n :: if k in m then Rewritten(m[k], n[k]) else n[k]
  }

  lemma {:induction false} RewrittenEqualsTarget(source: Json, target: Json)
    ensures JsonEq(Rewritten(source, target), target) <==> Comparable(target)
    decreases source
  {
    if JsonEq(source, target) {
      EqImpliesComparable(source, target);
    } else {
      match (source, target)
      case (Arr(a), Arr(b)) =>
        var r := RewrittenElems(source, target);
        forall i | 0 <= i < |b| ensures JsonEq(r[i], b[i]) <==> Comparable(b[i]) {
          if i < |a| { RewrittenEqualsTarget(a[i], b[i]); } else { EqReflexive(b[i]); }
        }
      case (Obj(m), Obj(n)) =>
        var r := RewrittenMembers(source, target);
        forall k | k in n ensures JsonEq(r[k], n[k]) <==> Comparable(n[k]) {
          if k in m { RewrittenEqualsTarget(m[k], n[k]); } else { EqReflexive(n[k]); }
        }
      case _ => EqReflexive(target);
    }
  }

  // ----- single operations at a location -------------------------------------------------

  /** doc with v at p; the result of running a piece of the patch. */
  function Put(doc: Json, p: Pointer, v: Json): Result<Json>
    requires At(doc, p).Ok?
  {
    Ok(SetAt(doc, p, v))
  }

  lemma RunOne(doc: Json, val: Json)
    requires DecodeOp(val).Ok?
    ensures Run(doc, [val]) == Apply(doc, DecodeOp(val).value)
  {
  }

  lemma RunReplace(doc: Json, path: string, p: Pointer, v: Json)
    requires JsonPointer.Parse(path) == Ok(p) && At(doc, p).Ok?
    ensures Run(doc, [ReplaceDoc(path, v)]) == Put(doc, p, v)
  {
  }

  lemma RunRemove(doc: Json, path: string, p: Pointer, token: string)
    requires At(doc, p).Ok? && JsonPointer.Parse(path) == Ok(p + [token])
    requires RemoveChild(At(doc, p).value, token).Ok?
    ensures Run(doc, [RemoveDoc(path)]) == Put(doc, p, RemoveChild(At(doc, p).value, token).value)
  {
  }

  lemma RunAdd(doc: Json, path: string, p: Pointer, token: string, v: Json)
    requires At(doc, p).Ok? && JsonPointer.Parse(path) == Ok(p + [token])
    requires AddChild(At(doc, p).value, token, v).Ok?
    ensures Run(doc, [AddDoc(path, v)]) == Put(doc, p, AddChild(At(doc, p).value, token, v).value)
  {
    var ptr := p + [token];
    assert DecodeOp(AddDoc(path, v)) == Ok(Add(ptr, v));
    RunOne(doc, AddDoc(path, v));
    assert Parent(ptr) == p && Last(ptr) == token;
    JsonPatchLaws.AddAtParent(doc, ptr, v);
  }

  /** Two pieces of a patch that both write at p. */
  lemma {:induction false} RunBoth(doc: Json, p: Pointer, xs: seq<Json>, ys: seq<Json>, v: Json, w: Json)
    requires At(doc, p).Ok? && Run(doc, xs) == Put(doc, p, v)
    requires At(SetAt(doc, p, v), p).Ok? && Run(SetAt(doc, p, v), ys) == Put(SetAt(doc, p, v), p, w)
    ensures Run(doc, xs + ys) == Put(doc, p, w)
  {
    RunAppend(doc, xs, ys);
    SetSet(doc, p, v, w);
  }

  // ----- the induction -----------------------------------------------------------------

  /** Run anywhere, the patch turns the source found at p into `Rewritten`. */
  lemma {:induction false} DiffRuns(doc: Json, p: Pointer, source: Json, target: Json, path: string)
    requires Fits(source) && Fits(target)
    requires JsonPointer.Parse(path) == Ok(p) && At(doc, p) == Ok(source)
    ensures Run(doc, Diff(source, target, path)) == Put(doc, p, Rewritten(source, target))
    decreases source, 1, 0
  {
    if JsonEq(source, target) {
      SetSame(doc, p);
    } else if SameType(source, target) && source.Arr? {
      ArraysRun(doc, p, source, target, path);
    } else if SameType(source, target) && source.Obj? {
      ObjectsRun(doc, p, source, target, path);
    } else {
      RunReplace(doc, path, p, target);
    }
  }

  /** The array after the first i recursive comparisons. */
  function Mixed(a: seq<Json>, b: seq<Json>, i: nat): (r: seq<Json>)
    ensures |r| == |a|
  {
    seq(|a|, j requires 0 <= j < |a| => if j < i && j < |b| then Rewritten(a[j], b[j]) else a[j])
  }

  lemma MixedStep(doc: Json, p: Pointer, a: seq<Json>, b: seq<Json>, i: nat)
    requires i < |a| < TWO_63 && i < |b| && At(doc, p) == Ok(Arr(Mixed(a, b, i)))
    ensures var ptr := p + [JsonPointer.Decimal(i)];
            At(doc, ptr) == Ok(a[i]) &&
            SetAt(doc, ptr, Rewritten(a[i], b[i])) == SetAt(doc, p, Arr(Mixed(a, b, i + 1)))
  {
    var token := JsonPointer.Decimal(i);
    JsonPointer.IndexRoundTrip(i);
    assert Mixed(a, b, i)[i := Rewritten(a[i], b[i])] == Mixed(a, b, i + 1);
    StepInto(doc, p, token);
    SetInto(doc, p, token, Rewritten(a[i], b[i]));
  }

  lemma {:induction false} CommonRuns(doc: Json, p: Pointer, source: Json, target: Json, i: nat, path: string)
    requires source.Arr? && target.Arr? && Fits(source) && Fits(target)
    requires i <= |source.elems| && i <= |target.elems|
    requires JsonPointer.Parse(path) == Ok(p) && At(doc, p) == Ok(Arr(Mixed(source.elems, target.elems, i)))
    ensures Run(doc, DiffCommon(source, target, i, path)) ==
            Put(doc, p, Arr(Mixed(source.elems, target.elems, Min(|source.elems|, |target.elems|))))
    decreases source, 0, |source.elems| - i
  {
    var a, b := source.elems, target.elems;
    if i < |a| && i < |b| {
      hide At, SetAt, Run, JsonPointer.Parse, JsonPointer.Decimal;
      var there := Mixed(a, b, i + 1);
      MixedStep(doc, p, a, b, i);
      JsonPointer.ParseIndex(path, i);
      DiffRuns(doc, p + [JsonPointer.Decimal(i)], a[i], b[i], IndexPath(path, i));
      AtSet(doc, p, Arr(there));
      CommonRuns(SetAt(doc, p, Arr(there)), p, source, target, i + 1, path);
      RunBoth(doc, p, Diff(a[i], b[i], IndexPath(path, i)), DiffCommon(source, target, i + 1, path),
              Arr(there), Arr(Mixed(a, b, Min(|a|, |b|))));
    } else {
      SetSame(doc, p);
    }
  }

  lemma StepInto(doc: Json, p: Pointer, token: string)
    requires At(doc, p).Ok? && Step(At(doc, p).value, token).Ok?
    ensures At(doc, p + [token]) == Step(At(doc, p).value, token)
  {
    AtAppend(doc, p, [token]);
    var child := Step(At(doc, p).value, token);
    assert At(child.value, [token][1..]) == child;
  }

  lemma SetInto(doc: Json, p: Pointer, token: string, v: Json)
    requires At(doc, p).Ok? && Step(At(doc, p).value, token).Ok?
    ensures At(doc, p + [token]).Ok?
    ensures SetAt(doc, p + [token], v) == SetAt(doc, p, SetStep(At(doc, p).value, token, v))
  {
    StepInto(doc, p, token);
    var sub := At(doc, p).value;
    assert At(Step(sub, token).value, [token][1..]).Ok?;
    assert SetAt(Step(sub, token).value, [token][1..], v) == v;
    SetAppend(doc, p, [token], v);
  }

  lemma {:induction false} RemoveTailRuns(doc: Json, p: Pointer, c: seq<Json>, lo: nat, path: string)
    requires JsonPointer.Parse(path) == Ok(p) && At(doc, p) == Ok(Arr(c)) && lo <= |c| < TWO_63
    ensures Run(doc, RemoveTail(path, lo, |c|)) == Put(doc, p, Arr(c[..lo]))
    decreases |c|
  {
    if lo < |c| {
      var n := |c| - 1;
      var token := JsonPointer.Decimal(n);
      JsonPointer.ParseIndex(path, n);
      JsonPointer.IndexRoundTrip(n);
      assert EraseAt(c, n) == c[..n];
      RunRemove(doc, IndexPath(path, n), p, token);
      AtSet(doc, p, Arr(c[..n]));
      RemoveTailRuns(SetAt(doc, p, Arr(c[..n])), p, c[..n], lo, path);
      assert c[..n][..lo] == c[..lo];
      RunBoth(doc, p, [RemoveDoc(IndexPath(path, n))], RemoveTail(path, lo, n), Arr(c[..n]), Arr(c[..lo]));
    } else {
      assert c[..lo] == c;
      SetSame(doc, p);
    }
  }

  lemma RunAppendOne(doc: Json, p: Pointer, c: seq<Json>, v: Json, path: string)
    requires JsonPointer.Parse(path) == Ok(p) && At(doc, p) == Ok(Arr(c))
    ensures Run(doc, [AddDoc(path + "/-", v)]) == Put(doc, p, Arr(c + [v]))
  {
    JsonPointer.ParseEnd(path);
    RunAdd(doc, path + "/-", p, "-", v);
  }

  lemma {:induction false} AppendTailRuns(doc: Json, p: Pointer, c: seq<Json>, b: seq<Json>, i: nat, path: string)
    requires JsonPointer.Parse(path) == Ok(p) && At(doc, p) == Ok(Arr(c)) && i <= |b|
    ensures Run(doc, AppendTail(path, b, i)) == Put(doc, p, Arr(c + b[i..]))
    decreases |b| - i
  {
    hide At, SetAt, Run, JsonPointer.Parse;
    if i < |b| {
      var c' := c + [b[i]];
      RunAppendOne(doc, p, c, b[i], path);
      AtSet(doc, p, Arr(c'));
      AppendTailRuns(SetAt(doc, p, Arr(c')), p, c', b, i + 1, path);
      assert c' + b[i + 1..] == c + b[i..];
      RunBoth(doc, p, [AddDoc(path + "/-", b[i])], AppendTail(path, b, i + 1), Arr(c'), Arr(c + b[i..]));
    } else {
      assert c + b[i..] == c;
      RunNothing(doc, p, Arr(c));
    }
  }

  lemma RunNothing(doc: Json, p: Pointer, v: Json)
    requires At(doc, p) == Ok(v)
    ensures Run(doc, []) == Put(doc, p, v)
  {
    SetSame(doc, p);
  }

  lemma RewrittenArray(source: Json, target: Json)
    requires source.Arr? && target.Arr?
    ensures var a, b := source.elems, target.elems;
            var n := Min(|a|, |b|);
            RewrittenElems(source, target) == Mixed(a, b, n)[..n] + b[n..]
  {
  }

  lemma ArraysRun(doc: Json, p: Pointer, source: Json, target: Json, path: string)
    requires source.Arr? && target.Arr? && Fits(source) && Fits(target) && !JsonEq(source, target)
    requires JsonPointer.Parse(path) == Ok(p) && At(doc, p) == Ok(source)
    ensures Run(doc, Diff(source, target, path)) == Put(doc, p, Rewritten(source, target))
    decreases source, 0, |source.elems| + 1
  {
    var a, b := source.elems, target.elems;
    var n := Min(|a|, |b|);
    assert Mixed(a, b, 0) == a;
    CommonRuns(doc, p, source, target, 0, path);
    var first := Mixed(a, b, n);
    var doc1 := SetAt(doc, p, Arr(first));
    AtSet(doc, p, Arr(first));
    RemoveTailRuns(doc1, p, first, n, path);
    var second := first[..n];
    RunBoth(doc, p, DiffCommon(source, target, 0, path), RemoveTail(path, n, |a|), Arr(first), Arr(second));
    var doc2 := SetAt(doc, p, Arr(second));
    AtSet(doc, p, Arr(second));
    AppendTailRuns(doc2, p, second, b, n, path);
    RewrittenArray(source, target);
    RunBoth(doc, p, DiffCommon(source, target, 0, path) + RemoveTail(path, n, |a|), AppendTail(path, b, n),
            Arr(second), Rewritten(source, target));
  }

  /** The members after the first pass over some keys. */
  function AfterFirst(cur: map<string, Json>, m: map<string, Json>, n: map<string, Json>, keys: seq<string>)
    : map<string, Json>
    requires forall k | k in keys :: k in m
    decreases |keys|
  {
    if keys == [] then cur
    else
      var k := keys[0];
      AfterFirst(if k in n then cur[k := Rewritten(m[k], n[k])] else cur - {k}, m, n, keys[1..])
  }

  /** The members after the second pass over some keys. */
  function AfterSecond(cur: map<string, Json>, m: map<string, Json>, n: map<string, Json>, keys: seq<string>)
    : map<string, Json>
    requires forall k | k in keys :: k in n
    decreases |keys|
  {
    if keys == [] then cur
    else AfterSecond(if keys[0] in m then cur else cur[keys[0] := n[keys[0]]], m, n, keys[1..])
  }

  lemma {:induction false} MembersRun(doc: Json, p: Pointer, cur: map<string, Json>, source: Json, target: Json,
                                      keys: seq<string>, path: string)
    requires source.Obj? && target.Obj? && Fits(source) && Fits(target)
    requires Distinct(keys)
    requires forall k | k in keys :: k in source.members && k in cur && cur[k] == source.members[k]
    requires JsonPointer.Parse(path) == Ok(p) && At(doc, p) == Ok(Obj(cur))
    ensures Run(doc, DiffMembers(source, target, keys, path)) ==
            Put(doc, p, Obj(AfterFirst(cur, source.members, target.members, keys)))
    decreases source, 0, |keys|
  {
    var m, n := source.members, target.members;
    if keys == [] {
      SetSame(doc, p);
    } else {
      var k := keys[0];
      assert k in keys;
      var next := if k in n then cur[k := Rewritten(m[k], n[k])] else cur - {k};
      var step := if k in n then Diff(m[k], n[k], KeyPath(path, k)) else [RemoveDoc(KeyPath(path, k))];
      JsonPointer.ParseKey(path, k);
      assert Run(doc, step) == Put(doc, p, Obj(next)) by {
        if k in n {
          StepInto(doc, p, k);
          DiffRuns(doc, p + [k], m[k], n[k], KeyPath(path, k));
          SetInto(doc, p, k, Rewritten(m[k], n[k]));
        } else {
          RunRemove(doc, KeyPath(path, k), p, k);
        }
      }
      AtSet(doc, p, Obj(next));
      assert forall l | l in keys[1..] :: l in keys && l != k;
      MembersRun(SetAt(doc, p, Obj(next)), p, next, source, target, keys[1..], path);
      RunBoth(doc, p, step, DiffMembers(source, target, keys[1..], path), Obj(next),
              Obj(AfterFirst(cur, m, n, keys)));
    }
  }

  lemma {:induction false} AddMembersRun(doc: Json, p: Pointer, cur: map<string, Json>, m: map<string, Json>,
                                         n: map<string, Json>, keys: seq<string>, path: string)
    requires forall k | k in keys :: k in n
    requires JsonPointer.Parse(path) == Ok(p) && At(doc, p) == Ok(Obj(cur))
    ensures Run(doc, AddMembers(m, n, keys, path)) == Put(doc, p, Obj(AfterSecond(cur, m, n, keys)))
    decreases |keys|
  {
    if keys == [] {
      SetSame(doc, p);
    } else {
      var k := keys[0];
      assert k in keys;
      var next := if k in m then cur else cur[k := n[k]];
      var step := if k in m then [] else [AddDoc(KeyPath(path, k), n[k])];
      assert Run(doc, step) == Put(doc, p, Obj(next)) by {
        if k in m {
          SetSame(doc, p);
        } else {
          JsonPointer.ParseKey(path, k);
          RunAdd(doc, KeyPath(path, k), p, k, n[k]);
        }
      }
      AtSet(doc, p, Obj(next));
      AddMembersRun(SetAt(doc, p, Obj(next)), p, next, m, n, keys[1..], path);
      RunBoth(doc, p, step, AddMembers(m, n, keys[1..], path), Obj(next), Obj(AfterSecond(cur, m, n, keys)));
    }
  }

  lemma {:induction false} AfterFirstMembers(cur: map<string, Json>, m: map<string, Json>, n: map<string, Json>,
                                             keys: seq<string>, l: string)
    requires forall k | k in keys :: k in m
    requires Distinct(keys)
    ensures var r := AfterFirst(cur, m, n, keys);
            && (l in r <==> if l in keys then l in n else l in cur)
            && (l in r ==> r[l] == if l in keys then Rewritten(m[l], n[l]) else cur[l])
    decreases |keys|
  {
    if keys != [] {
      var k := keys[0];
      assert k in keys && k !in keys[1..];
      assert l in keys <==> l == k || l in keys[1..];
      AfterFirstMembers(if k in n then cur[k := Rewritten(m[k], n[k])] else cur - {k}, m, n, keys[1..], l);
    }
  }

  lemma {:induction false} AfterSecondMembers(cur: map<string, Json>, m: map<string, Json>, n: map<string, Json>,
                                              keys: seq<string>, l: string)
    requires forall k | k in keys :: k in n
    ensures var r := AfterSecond(cur, m, n, keys);
            && (l in r <==> l in cur || (l in keys && l !in m))
            && (l in r ==> r[l] == if l in keys && l !in m then n[l] else cur[l])
    decreases |keys|
  {
    if keys != [] {
      var k := keys[0];
      assert k in keys;
      assert l in keys <==> l == k || l in keys[1..];
      AfterSecondMembers(if k in m then cur else cur[k := n[k]], m, n, keys[1..], l);
    }
  }

  lemma BothPasses(m: map<string, Json>, n: map<string, Json>, l: string)
    ensures var second := AfterSecond(AfterFirst(m, m, n, SortedKeys(m.Keys)), m, n, SortedKeys(n.Keys));
            (l in second <==> l in n) && (l in n ==> second[l] == if l in m then Rewritten(m[l], n[l]) else n[l])
  {
    var ks, ls := SortedKeys(m.Keys), SortedKeys(n.Keys);
    AfterFirstMembers(m, m, n, ks, l);
    AfterSecondMembers(AfterFirst(m, m, n, ks), m, n, ls, l);
  }

  lemma {:induction false} RewrittenObject(source: Json, target: Json)
    requires source.Obj? && target.Obj?
    ensures var m, n := source.members, target.members;
            AfterSecond(AfterFirst(m, m, n, SortedKeys(m.Keys)), m, n, SortedKeys(n.Keys)) ==
            RewrittenMembers(source, target)
  {
    var m, n := source.members, target.members;
    var second := AfterSecond(AfterFirst(m, m, n, SortedKeys(m.Keys)), m, n, SortedKeys(n.Keys));
    var r := RewrittenMembers(source, target);
    forall l ensures SameAt(second, r, l) { BothPasses(m, n, l); }
    SameEverywhere(second, r);
  }

  predicate SameAt(m: map<string, Json>, n: map<string, Json>, l: string) {
    (l in m <==> l in n) && (l in m ==> m[l] == n[l])
  }

  lemma SameEverywhere(m: map<string, Json>, n: map<string, Json>)
    requires forall l :: SameAt(m, n, l)
    ensures m == n
  {
    assert forall l | l in m :: SameAt(m, n, l);
    assert forall l | l in n :: SameAt(m, n, l);
  }

  lemma {:induction false} ObjectsRun(doc: Json, p: Pointer, source: Json, target: Json, path: string)
    requires source.Obj? && target.Obj? && Fits(source) && Fits(target) && !JsonEq(source, target)
    requires JsonPointer.Parse(path) == Ok(p) && At(doc, p) == Ok(source)
    ensures Run(doc, Diff(source, target, path)) == Put(doc, p, Rewritten(source, target))
    decreases source, 0, |SortedKeys(source.members.Keys)| + 1
  {
    var m, n := source.members, target.members;
    var ks, ls := SortedKeys(m.Keys), SortedKeys(n.Keys);
    MembersRun(doc, p, m, source, target, ks, path);
    var first := AfterFirst(m, m, n, ks);
    AtSet(doc, p, Obj(first));
    AddMembersRun(SetAt(doc, p, Obj(first)), p, first, m, n, ls, path);
    var second := AfterSecond(first, m, n, ls);
    RunBoth(doc, p, DiffMembers(source, target, ks, path), AddMembers(m, n, ls, path), Obj(first), Obj(second));
    RewrittenObject(source, target);
  }

  // ----- the main results ----------------------------------------------------------------

  /** `source.patch(diff(source, target))` never fails; its result equals the target
      exactly when the target equals itself, that is, holds no NaN and no discarded value. */
  lemma {:induction false} PatchOfDiff(source: Json, target: Json)
    requires Fits(source) && Fits(target)
    ensures Patch(source, Arr(Diff(source, target, ""))) == Ok(Rewritten(source, target))
    ensures JsonEq(Rewritten(source, target), target) <==> Comparable(target)
  {
    DiffRuns(source, [], source, target, "");
    RewrittenEqualsTarget(source, target);
  }

  /** On documents without floating-point numbers, what the patch makes of the source is the target, up to the signs of
      integer types. */
  lemma {:induction false} PatchOfDiffIsTarget(source: Json, target: Json)
    requires Fits(source) && Fits(target) && !HasFloat(source) && !HasFloat(target)
    ensures Patch(source, Arr(Diff(source, target, ""))) == Ok(Rewritten(source, target))
    ensures Canonical(Rewritten(source, target)) == Canonical(target)
  {
    PatchOfDiff(source, target);
    RewrittenIsTarget(source, target);
  }

  lemma {:induction false} RewrittenIsTarget(source: Json, target: Json)
    requires !HasFloat(source) && !HasFloat(target)
    ensures Canonical(Rewritten(source, target)) == Canonical(target)
    decreases source
  {
    if JsonEq(source, target) {
      EqIsCanonical(source, target);
    } else {
      match (source, target)
      case (Arr(a), Arr(b)) =>
        var r := RewrittenElems(source, target);
        forall i | 0 <= i < |b| ensures Canonical(r[i]) == Canonical(b[i]) {
          if i < |a| { RewrittenIsTarget(a[i], b[i]); }
        }
        assert Canonical(Arr(r)).elems == Canonical(Arr(b)).elems;
      case (Obj(m), Obj(n)) =>
        var r := RewrittenMembers(source, target);
        forall k | k in n ensures Canonical(r[k]) == Canonical(n[k]) {
          if k in m { RewrittenIsTarget(m[k], n[k]); }
        }
        assert Canonical(Obj(r)).members == Canonical(Obj(n)).members;
      case _ =>
    }
  }

  /** A patch is empty exactly when there is nothing to change. */
  lemma {:induction false} DiffEmpty(source: Json, target: Json, path: string)
    ensures Diff(source, target, path) == [] <==> JsonEq(source, target)
    decreases source, 1
  {
    if !JsonEq(source, target) && SameType(source, target) {
      if source.Arr? {
        DiffOfArrays(source, target, path);
      } else if source.Obj? {
        DiffOfObjects(source, target, path);
      }
    }
  }

  lemma {:induction false} DiffOfArrays(source: Json, target: Json, path: string)
    requires source.Arr? && target.Arr? && !JsonEq(source, target)
    ensures Diff(source, target, path) != []
    decreases source, 0
  {
    var a, b := source.elems, target.elems;
    if |a| == |b| {
      var i :| 0 <= i < |a| && !JsonEq(a[i], b[i]);
      DiffEmpty(a[i], b[i], IndexPath(path, i));
      CommonContains(source, target, 0, i, path);
    }
  }

  lemma {:induction false} DiffOfObjects(source: Json, target: Json, path: string)
    requires source.Obj? && target.Obj? && !JsonEq(source, target)
    ensures Diff(source, target, path) != []
    decreases source, 0
  {
    var m, n := source.members, target.members;
    var ks, ls := SortedKeys(m.Keys), SortedKeys(n.Keys);
    DiffInTwoPasses(source, target, path);
    hide Diff, DiffMembers, AddMembers, JsonEq, SortedKeys;
    if k :| k in n && k !in m {
      AddMembersContains(m, n, ls, k, path);
    } else {
      MembersDiffer(m, n);
      var k :| k in m && (k in n ==> !JsonEq(m[k], n[k]));
      if k in n { DiffEmpty(m[k], n[k], KeyPath(path, k)); }
      MembersContain(source, target, ks, k, path);
    }
  }

  lemma DiffInTwoPasses(source: Json, target: Json, path: string)
    requires source.Obj? && target.Obj? && !JsonEq(source, target)
    ensures Diff(source, target, path) ==
            DiffMembers(source, target, SortedKeys(source.members.Keys), path)
            + AddMembers(source.members, target.members, SortedKeys(target.members.Keys), path)
  {
    hide JsonEq, SortedKeys, DiffMembers, AddMembers;
  }

  lemma MembersDiffer(m: map<string, Json>, n: map<string, Json>)
    requires !JsonEq(Obj(m), Obj(n)) && forall k | k in n :: k in m
    ensures exists k :: k in m && (k in n ==> !JsonEq(m[k], n[k]))
  {
    if m.Keys != n.Keys { var k :| k in m && k !in n; }
  }

  lemma {:induction false} CommonContains(source: Json, target: Json, i: nat, j: nat, path: string)
    requires source.Arr? && target.Arr? && i <= j < |source.elems| && j < |target.elems|
    requires Diff(source.elems[j], target.elems[j], IndexPath(path, j)) != []
    ensures DiffCommon(source, target, i, path) != []
    decreases j - i
  {
    if i < j { CommonContains(source, target, i + 1, j, path); }
  }

  lemma {:induction false} MembersContain(source: Json, target: Json, keys: seq<string>, k: string, path: string)
    requires source.Obj? && target.Obj? && forall l | l in keys :: l in source.members
    requires k in keys
    requires k in target.members ==> Diff(source.members[k], target.members[k], KeyPath(path, k)) != []
    ensures DiffMembers(source, target, keys, path) != []
  {
    if keys[0] != k { MembersContain(source, target, keys[1..], k, path); }
  }

  lemma {:induction false} AddMembersContains(m: map<string, Json>, n: map<string, Json>, keys: seq<string>, k: string,
                                              path: string)
    requires forall l | l in keys :: l in n
    requires k in keys && k !in m
    ensures AddMembers(m, n, keys, path) != []
  {
    if keys[0] != k { AddMembersContains(m, n, keys[1..], k, path); }
  }

  /** The element is an object whose "path" is the given path or continues it with a slash. */
  predicate Extends(val: Json, path: string) {
    val.Obj? && "path" in val.members && val.members["path"].Str? &&
    (var text := val.members["path"].text;
     path <= text && (text == path || text[|path|] == '/'))
  }

  predicate AllExtend(vals: seq<Json>, path: string) {
    forall i | 0 <= i < |vals| :: Extends(vals[i], path)
  }

  lemma ExtendsFurther(vals: seq<Json>, path: string, more: string)
    requires AllExtend(vals, path + "/" + more)
    ensures AllExtend(vals, path)
  {
  }

  /** Every emitted path extends the given one. */
  lemma {:induction false} DiffPathsExtend(source: Json, target: Json, path: string)
    ensures AllExtend(Diff(source, target, path), path)
    decreases source, 1, 0
  {
    if !JsonEq(source, target) && SameType(source, target) {
      match source
      case Arr(a) =>
        var n := Min(|a|, |target.elems|);
        CommonPathsExtend(source, target, 0, path);
        RemoveTailExtends(path, n, |a|);
        AppendTailExtends(path, target.elems, n);
      case Obj(m) =>
        MemberPathsExtend(source, target, SortedKeys(m.Keys), path);
        AddMembersExtend(m, target.members, SortedKeys(target.members.Keys), path);
      case _ =>
    }
  }

  lemma {:induction false} CommonPathsExtend(source: Json, target: Json, i: nat, path: string)
    requires source.Arr? && target.Arr?
    ensures AllExtend(DiffCommon(source, target, i, path), path)
    decreases source, 0, |source.elems| - i
  {
    if i < |source.elems| && i < |target.elems| {
      DiffPathsExtend(source.elems[i], target.elems[i], IndexPath(path, i));
      ExtendsFurther(Diff(source.elems[i], target.elems[i], IndexPath(path, i)), path, JsonPointer.Decimal(i));
      CommonPathsExtend(source, target, i + 1, path);
    }
  }

  lemma {:induction false} RemoveTailExtends(path: string, lo: nat, hi: nat)
    ensures AllExtend(RemoveTail(path, lo, hi), path)
    decreases hi - lo
  {
    if lo < hi { RemoveTailExtends(path, lo, hi - 1); }
  }

  lemma {:induction false} AppendTailExtends(path: string, b: seq<Json>, i: nat)
    ensures AllExtend(AppendTail(path, b, i), path)
    decreases |b| - i
  {
    if i < |b| { AppendTailExtends(path, b, i + 1); }
  }

  lemma {:induction false} MemberPathsExtend(source: Json, target: Json, keys: seq<string>, path: string)
    requires source.Obj? && target.Obj? && forall k | k in keys :: k in source.members
    ensures AllExtend(DiffMembers(source, target, keys, path), path)
    decreases source, 0, |keys|
  {
    if keys != [] {
      var k := keys[0];
      assert k in keys;
      if k in target.members {
        DiffPathsExtend(source.members[k], target.members[k], KeyPath(path, k));
        ExtendsFurther(Diff(source.members[k], target.members[k], KeyPath(path, k)), path, Escaping.Escape(k));
      }
      MemberPathsExtend(source, target, keys[1..], path);
    }
  }

  lemma {:induction false} AddMembersExtend(m: map<string, Json>, n: map<string, Json>, keys: seq<string>, path: string)
    requires forall k | k in keys :: k in n
    ensures AllExtend(AddMembers(m, n, keys, path), path)
  {
    if keys != [] { AddMembersExtend(m, n, keys[1..], path); }
  }
}
