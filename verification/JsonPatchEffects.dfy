/** What each operation of a patch does: which value arrives where, what else changes, and how it fails. */
module JsonPatchEffects {
  import opened Wrappers
  import opened JsonValue
  import opened JsonPatch
  import opened JsonPatchLaws
  import JsonPointer

  // ----- additions: the value arrives --------------------------------------------------

  lemma AddAtUnder(doc: Json, ptr: Pointer, v: Json)
    requires ptr != [] && AddAt(doc, ptr, v).Ok?
    ensures AddAt(doc, ptr, v) == AddUnder(doc, ptr, v)
  {
  }

  /** What is added is found at its path; a "-" names no location, so it is excluded here. */
  lemma AdditionArrives(doc: Json, ptr: Pointer, v: Json)
    requires AddAt(doc, ptr, v).Ok? && "-" !in ptr
    ensures At(AddAt(doc, ptr, v).value, ptr) == Ok(v)
  {
    if ptr != [] {
      AddAtUnder(doc, ptr, v);
      AddedIsFound(doc, ptr, v);
    }
  }

  /** With "-" at the end of the path the value becomes the last element of the array. */
  lemma AppendArrives(doc: Json, ptr: Pointer, v: Json)
    requires ParentExists(doc, ptr) && Last(ptr) == "-" && At(doc, Parent(ptr)).value.Arr?
    ensures AddAt(doc, ptr, v).Ok?
    ensures At(AddAt(doc, ptr, v).value, Parent(ptr)) == Ok(Arr(At(doc, Parent(ptr)).value.elems + [v]))
  {
    AddAtParent(doc, ptr, v);
    AtSet(doc, Parent(ptr), Arr(At(doc, Parent(ptr)).value.elems + [v]));
  }

  // ----- additions: what else changes ----------------------------------------------------

  predicate NamesArrayElement(doc: Json, ptr: Pointer) {
    ptr != [] && At(doc, Parent(ptr)).Ok? && At(doc, Parent(ptr)).value.Arr? && JsonPointer.ArrayIndex(Last(ptr)).Ok?
  }

  /** q goes through an element of the array that ptr names an element of, at the same position or behind it. */
  predicate IsBehind(doc: Json, ptr: Pointer, q: Pointer) {
    && NamesArrayElement(doc, ptr) && |q| >= |ptr| && Parent(ptr) <= q
    && JsonPointer.ArrayIndex(q[|ptr| - 1]).Ok?
    && JsonPointer.ArrayIndex(q[|ptr| - 1]).value >= JsonPointer.ArrayIndex(Last(ptr)).value
  }

  /** q cut behind the token of ptr's last element. */
  lemma CutBelow(ptr: Pointer, q: Pointer)
    requires ptr != [] && Parent(ptr) <= q && |q| >= |ptr|
    ensures q == Parent(ptr) + ([q[|ptr| - 1]] + q[|ptr|..])
  {
  }

  lemma AtCons(j: Json, token: string, rest: Pointer)
    ensures At(j, [token] + rest) == if Step(j, token).Ok? then At(Step(j, token).value, rest) else Step(j, token)
  {
    assert ([token] + rest)[1..] == rest;
  }

  /** Replacing the value at p by one with the same child under the token leaves what is below that child. */
  lemma BelowSame(doc: Json, p: Pointer, w: Json, token: string, token': string, rest: Pointer)
    requires At(doc, p).Ok? && Step(At(doc, p).value, token).Ok?
    requires Step(w, token') == Step(At(doc, p).value, token)
    ensures At(SetAt(doc, p, w), p + ([token'] + rest)) == At(doc, p + ([token] + rest))
  {
    AtSet(doc, p, w);
    AtAppend(SetAt(doc, p, w), p, [token'] + rest);
    AtAppend(doc, p, [token] + rest);
    AtCons(w, token', rest);
    AtCons(At(doc, p).value, token, rest);
  }

  lemma AddChildKeeps(parent: Json, last: string, v: Json, token: string)
    requires AddChild(parent, last, v).Ok? && Step(parent, token).Ok? && token != last
    requires parent.Arr? && last != "-" ==>
               JsonPointer.ArrayIndex(token).value < JsonPointer.ArrayIndex(last).value
    ensures Step(AddChild(parent, last, v).value, token) == Step(parent, token)
  {
  }

  /** An addition leaves every other existing location as it was, but for the array elements behind an insertion. */
  lemma AdditionKeepsOthers(doc: Json, ptr: Pointer, v: Json, q: Pointer)
    requires AddAt(doc, ptr, v).Ok? && At(doc, q).Ok? && Apart(ptr, q) && !IsBehind(doc, ptr, q)
    ensures At(AddAt(doc, ptr, v).value, q) == At(doc, q)
  {
    if !ParentExists(doc, ptr) {
      AddAtUnder(doc, ptr, v);
      CreationKeepsOthers(doc, ptr, v, q);
    } else {
      AddAtParent(doc, ptr, v);
      var parent := At(doc, Parent(ptr)).value;
      var added := AddChild(parent, Last(ptr), v).value;
      if Parent(ptr) <= q {
        var token, rest := SplitBeside(doc, ptr, q);
        if parent.Arr? { StepIndex(parent, token); }
        AddChildKeeps(parent, Last(ptr), v, token);
        BelowSame(doc, Parent(ptr), added, token, token, rest);
      } else {
        ApartFromParent(ptr, q);
        SetElsewhere(doc, Parent(ptr), added, q);
      }
    }
  }

  lemma ApartFromParent(ptr: Pointer, q: Pointer)
    requires ptr != [] && Apart(ptr, q) && !(Parent(ptr) <= q)
    ensures Apart(Parent(ptr), q)
  {
  }

  lemma StepIndex(j: Json, token: string)
    requires Step(j, token).Ok? && j.Arr?
    ensures JsonPointer.ArrayIndex(token).Ok? && JsonPointer.ArrayIndex(token).value < |j.elems| && token != "-"
  {
  }

  /** A location beside ptr below the same parent. */
  lemma SplitBeside(doc: Json, ptr: Pointer, q: Pointer) returns (token: string, rest: Pointer)
    requires ptr != [] && At(doc, q).Ok? && Apart(ptr, q) && Parent(ptr) <= q && At(doc, Parent(ptr)).Ok?
    ensures q == Parent(ptr) + ([token] + rest) && token != Last(ptr)
    ensures |q| >= |ptr| && token == q[|ptr| - 1] && rest == q[|ptr|..]
    ensures Step(At(doc, Parent(ptr)).value, token).Ok?
  {
    CutBelow(ptr, q);
    token, rest := q[|ptr| - 1], q[|ptr|..];
    AtAppend(doc, Parent(ptr), [token] + rest);
    AtCons(At(doc, Parent(ptr)).value, token, rest);
  }

  /** q with the array element at ptr's level moved by d positions. */
  function Moved(ptr: Pointer, q: Pointer, d: int): Pointer
    requires ptr != [] && |q| >= |ptr| && JsonPointer.ArrayIndex(q[|ptr| - 1]).Ok?
    requires JsonPointer.ArrayIndex(q[|ptr| - 1]).value + d >= 0
  {
    Parent(ptr) + ([JsonPointer.Decimal(JsonPointer.ArrayIndex(q[|ptr| - 1]).value + d)] + q[|ptr|..])
  }

  /** Array elements at the place of an insertion and behind it move up by one, with everything in them. */
  lemma AdditionShifts(doc: Json, ptr: Pointer, v: Json, q: Pointer)
    requires AddAt(doc, ptr, v).Ok? && At(doc, q).Ok? && IsBehind(doc, ptr, q)
    requires |At(doc, Parent(ptr)).value.elems| < JsonPointer.SIZE_MAX
    ensures At(AddAt(doc, ptr, v).value, Moved(ptr, q, 1)) == At(doc, q)
  {
    AddAtParent(doc, ptr, v);
    var parent := At(doc, Parent(ptr)).value;
    var added := AddChild(parent, Last(ptr), v).value;
    CutBelow(ptr, q);
    var token, rest := q[|ptr| - 1], q[|ptr|..];
    AtAppend(doc, Parent(ptr), [token] + rest);
    AtCons(parent, token, rest);
    var i := JsonPointer.ArrayIndex(token).value;
    JsonPointer.IndexRoundTrip(i + 1);
    assert Step(added, JsonPointer.Decimal(i + 1)) == Step(parent, token);
    BelowSame(doc, Parent(ptr), added, token, JsonPointer.Decimal(i + 1), rest);
  }

  /** Where an addition has to create parents, nothing appears beside its path but nulls that fill up an array. */
  lemma {:induction false} OnlyThePathAppears(j: Json, ptr: Pointer, v: Json, q: Pointer)
    requires ptr != [] && "-" !in ptr && (j.Null? || !ParentExists(j, ptr)) && AddUnder(j, ptr, v).Ok?
    requires At(j, q).Err? && At(AddUnder(j, ptr, v).value, q).Ok? && Apart(ptr, q)
    ensures At(AddUnder(j, ptr, v).value, q) == Ok(Null)
    decreases |ptr|
  {
    var r := AddUnder(j, ptr, v).value;
    assert ptr[0] in ptr;
    if |ptr| > 1 {
      ReachesParent(j, ptr);
      assert Parent(ptr)[0] == ptr[0] && Parent(ptr)[1..] == Parent(ptr[1..]);
      if q[0] == ptr[0] {
        OnlyBelowFirst(j, ptr, v);
        var child := if Step(j, ptr[0]).Ok? then Step(j, ptr[0]).value else Null;
        assert q[1..] != [];
        OnlyThePathAppears(child, ptr[1..], v, q[1..]);
      } else {
        OnlyBesideFirst(j, ptr, v, q[0]);
      }
    }
  }

  /** The child under the first token comes from the one that exists or from a null. */
  lemma OnlyBelowFirst(j: Json, ptr: Pointer, v: Json)
    requires |ptr| > 1 && ptr[0] != "-" && AddUnder(j, ptr, v).Ok?
    ensures var child := AddUnder(if Step(j, ptr[0]).Ok? then Step(j, ptr[0]).value else Null, ptr[1..], v);
            child.Ok? && Step(AddUnder(j, ptr, v).value, ptr[0]) == child
  {
    hide JsonPointer.AllDigits;
  }

  lemma OnlyBesideFirst(j: Json, ptr: Pointer, v: Json, other: string)
    requires |ptr| > 1 && ptr[0] != "-" && AddUnder(j, ptr, v).Ok? && other != ptr[0]
    ensures var r := AddUnder(j, ptr, v).value;
            || Step(r, other) == Step(j, other) || Step(r, other).Err?
            || (Step(r, other) == Ok(Null) && Step(j, other).Err?)
  {
    match Coerce(j, ptr[0]) {
      case Obj(m) =>
      case Arr(a) =>
        var i := JsonPointer.ArrayIndex(ptr[0]).value;
        var padded := Padded(a, i);
        hide JsonPointer.AllDigits;
        if JsonPointer.ArrayIndex(other) == Ok(i) { IndexInjective(other, ptr[0]); }
        hide JsonPointer.ArrayIndex, Padded;
        var child := AddUnder(padded[i], ptr[1..], v).value;
        hide AddUnder;
        BesidePadded(a, i, child, other);
      case _ =>
    }
  }

  lemma BesidePadded(a: seq<Json>, i: nat, child: Json, other: string)
    requires JsonPointer.ArrayIndex(other) != Ok(i)
    ensures var r := Arr(Padded(a, i)[i := child]);
            Step(r, other) == Step(Arr(a), other) || Step(r, other).Err?
            || (Step(r, other) == Ok(Null) && Step(Arr(a), other).Err?)
  {
    hide JsonPointer.ArrayIndex;
  }

  /** What a null on the path becomes: an array where the token is written in digits, filled up to that index, and an
      object otherwise, as for the last token. */
  lemma {:induction false} CreatedContainers(ptr: Pointer, v: Json, n: nat)
    requires "-" !in ptr && n < |ptr| && AddUnder(Null, ptr, v).Ok?
    ensures var place := At(AddUnder(Null, ptr, v).value, ptr[..n]);
            && place.Ok?
            && if n < |ptr| - 1 && JsonPointer.AllDigits(ptr[n])
               then && place.value.Arr? && JsonPointer.ArrayIndex(ptr[n]).Ok?
                    && |place.value.elems| == JsonPointer.ArrayIndex(ptr[n]).value + 1
               else place.value.Obj?
    decreases |ptr|
  {
    assert ptr[0] in ptr;
    if n == 0 {
      assert ptr[..0] == [];
      NullBecomes(ptr, v);
    } else {
      OnlyBelowFirst(Null, ptr, v);
      CreatedContainers(ptr[1..], v, n - 1);
      assert ptr[..n] == [ptr[0]] + ptr[1..][..n - 1];
      AtCons(AddUnder(Null, ptr, v).value, ptr[0], ptr[1..][..n - 1]);
    }
  }

  lemma NullBecomes(ptr: Pointer, v: Json)
    requires ptr != [] && ptr[0] != "-" && AddUnder(Null, ptr, v).Ok?
    ensures var r := AddUnder(Null, ptr, v).value;
            if |ptr| > 1 && JsonPointer.AllDigits(ptr[0])
            then && r.Arr? && JsonPointer.ArrayIndex(ptr[0]).Ok?
                 && |r.elems| == JsonPointer.ArrayIndex(ptr[0]).value + 1
            else r.Obj?
  {
    hide JsonPointer.AllDigits, JsonPointer.ArrayIndex;
  }

  // ----- removals ---------------------------------------------------------------------------

  lemma RemoveChildKeeps(parent: Json, last: string, token: string)
    requires RemoveChild(parent, last).Ok? && Step(parent, token).Ok? && token != last
    requires parent.Arr? ==> JsonPointer.ArrayIndex(token).value < JsonPointer.ArrayIndex(last).value
    ensures Step(RemoveChild(parent, last).value, token) == Step(parent, token)
  {
  }

  /** A removal leaves every other existing location as it was, but for the array elements behind the removed one. */
  lemma RemovalKeepsOthers(doc: Json, ptr: Pointer, q: Pointer)
    requires RemoveAt(doc, ptr).Ok? && At(doc, q).Ok? && Apart(ptr, q) && !IsBehind(doc, ptr, q)
    ensures At(RemoveAt(doc, ptr).value, q) == At(doc, q)
  {
    var parent := At(doc, Parent(ptr)).value;
    var smaller := RemoveChild(parent, Last(ptr)).value;
    if Parent(ptr) <= q {
      var token, rest := SplitBeside(doc, ptr, q);
      if parent.Arr? { StepIndex(parent, token); }
      RemoveChildKeeps(parent, Last(ptr), token);
      BelowSame(doc, Parent(ptr), smaller, token, token, rest);
    } else {
      ApartFromParent(ptr, q);
      SetElsewhere(doc, Parent(ptr), smaller, q);
    }
  }

  /** Array elements behind a removed one move down by one. */
  lemma RemovalShifts(doc: Json, ptr: Pointer, q: Pointer)
    requires RemoveAt(doc, ptr).Ok? && At(doc, q).Ok? && Apart(ptr, q) && IsBehind(doc, ptr, q)
    ensures JsonPointer.ArrayIndex(q[|ptr| - 1]).value > 0
    ensures At(RemoveAt(doc, ptr).value, Moved(ptr, q, -1)) == At(doc, q)
  {
    var parent := At(doc, Parent(ptr)).value;
    var smaller := RemoveChild(parent, Last(ptr)).value;
    var token, rest := SplitBeside(doc, ptr, q);
    var i := JsonPointer.ArrayIndex(token).value;
    if i == JsonPointer.ArrayIndex(Last(ptr)).value { IndexInjective(token, Last(ptr)); }
    JsonPointer.IndexRoundTrip(i - 1);
    assert Step(smaller, JsonPointer.Decimal(i - 1)) == Step(parent, token);
    BelowSame(doc, Parent(ptr), smaller, token, JsonPointer.Decimal(i - 1), rest);
  }

  // ----- replace, copy and move -------------------------------------------------------------------

  /** A replacement puts the value at an existing location and leaves the others. */
  lemma ReplacementArrives(doc: Json, path: Pointer, v: Json, q: Pointer)
    ensures Apply(doc, Replace(path, v)).Ok? <==> At(doc, path).Ok?
    ensures Apply(doc, Replace(path, v)).Ok? ==> At(Apply(doc, Replace(path, v)).value, path) == Ok(v)
    ensures Apply(doc, Replace(path, v)).Ok? && Apart(path, q) ==>
              At(Apply(doc, Replace(path, v)).value, q) == At(doc, q)
  {
    if At(doc, path).Ok? {
      AtSet(doc, path, v);
      if Apart(path, q) { SetElsewhere(doc, path, v, q); }
    }
  }

  /** A copy adds, at path, the value that stands at from: there it is found afterwards, and every other location,
      from included, is as before, but for array elements behind an insertion. */
  lemma CopyArrives(doc: Json, from: Pointer, path: Pointer, q: Pointer)
    ensures At(doc, from).Ok? ==> Apply(doc, Copy(from, path)) == Apply(doc, Add(path, At(doc, from).value))
    ensures At(doc, from).Err? ==> Apply(doc, Copy(from, path)) == At(doc, from)
    ensures Apply(doc, Copy(from, path)).Ok? && "-" !in path ==>
              At(Apply(doc, Copy(from, path)).value, path) == At(doc, from)
    ensures Apply(doc, Copy(from, path)).Ok? && At(doc, q).Ok? && Apart(path, q) && !IsBehind(doc, path, q) ==>
              At(Apply(doc, Copy(from, path)).value, q) == At(doc, q)
  {
    if Apply(doc, Copy(from, path)).Ok? {
      var v := At(doc, from).value;
      if "-" !in path { AdditionArrives(doc, path, v); }
      if At(doc, q).Ok? && Apart(path, q) && !IsBehind(doc, path, q) { AdditionKeepsOthers(doc, path, v, q); }
    }
  }

  /** A move is the removal at from and then the addition at path of the value that stood at from, and this is what is
      found there; what neither of the two shifts stays as it was. */
  lemma MoveArrives(doc: Json, from: Pointer, path: Pointer, q: Pointer)
    ensures At(doc, from).Ok? ==>
              Apply(doc, Move(from, path)) == ApplyAll(doc, [Remove(from), Add(path, At(doc, from).value)])
    ensures At(doc, from).Err? ==> Apply(doc, Move(from, path)) == At(doc, from)
    ensures Apply(doc, Move(from, path)).Ok? && "-" !in path ==>
              At(Apply(doc, Move(from, path)).value, path) == At(doc, from)
    ensures Apply(doc, Move(from, path)).Ok? && At(doc, q).Ok?
            && Apart(from, q) && !IsBehind(doc, from, q)
            && Apart(path, q) && !IsBehind(RemoveAt(doc, from).value, path, q) ==>
              At(Apply(doc, Move(from, path)).value, q) == At(doc, q)
  {
    if At(doc, from).Ok? {
      var v := At(doc, from).value;
      TwoOperations(doc, Remove(from), Add(path, v));
      if Apply(doc, Move(from, path)).Ok? {
        var smaller := RemoveAt(doc, from).value;
        if "-" !in path { AdditionArrives(smaller, path, v); }
        if && At(doc, q).Ok? && Apart(from, q) && !IsBehind(doc, from, q)
           && Apart(path, q) && !IsBehind(smaller, path, q) {
          RemovalKeepsOthers(doc, from, q);
          AdditionKeepsOthers(smaller, path, v, q);
        }
      }
    }
  }

  lemma TwoOperations(doc: Json, a: Op, b: Op)
    ensures ApplyAll(doc, [a, b]) == if Apply(doc, a).Ok? then Apply(Apply(doc, a).value, b) else Apply(doc, a)
  {
    hide Apply;
    assert [a, b][1..] == [b] && [b][1..] == [];
    if Apply(doc, a).Ok? {
      var next := Apply(doc, a).value;
      assert ApplyAll(next, [b]) == Apply(next, b);
    }
  }

  // ----- failures -----------------------------------------------------------------------------

  /** Exactly the tokens that are read as an array index: the decimal numbers below 2^64 - 1. */
  lemma ArrayIndexExactly(s: string, n: nat)
    ensures JsonPointer.ArrayIndex(s) == Ok(n) <==> n < JsonPointer.SIZE_MAX && s == JsonPointer.Decimal(n)
  {
    if n < JsonPointer.SIZE_MAX { JsonPointer.IndexRoundTrip(n); }
    if JsonPointer.ArrayIndex(s) == Ok(n) { DecimalOfValue(s); }
  }

  /** Why a token is not read as an array index. */
  lemma ArrayIndexErrors(s: string)
    ensures JsonPointer.ArrayIndex(s) == Err(ParseError(106)) <==> |s| > 1 && s[0] == '0'
    ensures JsonPointer.ArrayIndex(s) == Err(ParseError(109)) <==> |s| > 1 && !JsonPointer.IsDigit(s[0])
    ensures JsonPointer.ArrayIndex(s) == Err(OutOfRange(410)) <==> s == JsonPointer.Decimal(JsonPointer.SIZE_MAX)
    ensures JsonPointer.ArrayIndex(s).Err? ==>
              JsonPointer.ArrayIndex(s).error in
              {ParseError(106), ParseError(109), OutOfRange(410), OutOfRange(404)}
  {
    hide JsonPointer.Decimal, JsonPointer.DecimalValue;
    LargestIndex(s, JsonPointer.SIZE_MAX);
  }

  lemma LargestIndex(s: string, n: nat)
    ensures JsonPointer.AllDigits(s) && s != "" && (|s| > 1 ==> s[0] != '0') && JsonPointer.DecimalValue(s) == n ==>
              s == JsonPointer.Decimal(n)
    ensures s == JsonPointer.Decimal(n) && n > 9 ==>
              && JsonPointer.AllDigits(s) && |s| > 1 && s[0] != '0' && JsonPointer.DecimalValue(s) == n
  {
    JsonPointer.DecimalShape(n);
    if JsonPointer.AllDigits(s) && s != "" {
      if |s| > 1 ==> s[0] != '0' { DecimalOfValue(s); }
      if |s| == 1 { OneDigit(s); }
    }
  }

  lemma OneDigit(s: string)
    requires |s| == 1 && JsonPointer.AllDigits(s)
    ensures JsonPointer.DecimalValue(s) < 10
  {
    LastDigit(s);
  }

  /** `at` fails at the first token that names nothing, with the error of that place. */
  lemma {:induction false} AtFailsFirst(j: Json, ptr: Pointer, e: Error)
    ensures At(j, ptr) == Err(e) <==>
            exists n :: 0 <= n < |ptr| && At(j, ptr[..n]).Ok? && Step(At(j, ptr[..n]).value, ptr[n]) == Err(e)
  {
    forall n | 0 <= n < |ptr| && At(j, ptr[..n]).Ok? && Step(At(j, ptr[..n]).value, ptr[n]).Err?
      ensures At(j, ptr) == Step(At(j, ptr[..n]).value, ptr[n])
    {
      assert ptr == ptr[..n] + ([ptr[n]] + ptr[n + 1..]);
      AtAppend(j, ptr[..n], [ptr[n]] + ptr[n + 1..]);
      AtCons(At(j, ptr[..n]).value, ptr[n], ptr[n + 1..]);
    }
    if At(j, ptr).Err? {
      var n := FirstFailure(j, ptr);
    }
  }

  lemma {:induction false} FirstFailure(j: Json, ptr: Pointer) returns (n: nat)
    requires At(j, ptr).Err?
    ensures n < |ptr| && At(j, ptr[..n]).Ok? && Step(At(j, ptr[..n]).value, ptr[n]).Err?
  {
    if Step(j, ptr[0]).Err? {
      n := 0;
    } else {
      var m := FirstFailure(Step(j, ptr[0]).value, ptr[1..]);
      n := m + 1;
      assert ptr[..n][1..] == ptr[1..][..m];
    }
  }

  /** The errors that `at` documents: 401 for an index behind the array, 402 for "-", 403 for a missing key, 404 in a
      primitive; the others are those of the index. */
  lemma StepErrors(j: Json, token: string)
    ensures Step(j, token) == Err(OutOfRange(403)) <==> j.Obj? && token !in j.members
    ensures Step(j, token) == Err(OutOfRange(402)) <==> j.Arr? && token == "-"
    ensures Step(j, token) == Err(OutOfRange(401)) <==>
            j.Arr? && exists n :: n >= |j.elems| && JsonPointer.ArrayIndex(token) == Ok(n)
    ensures !IsContainer(j) ==> Step(j, token) == Err(OutOfRange(404))
  {
    if j.Arr? && JsonPointer.ArrayIndex(token).Ok? {
      assert JsonPointer.ArrayIndex(token) == Ok(JsonPointer.ArrayIndex(token).value);
    }
  }

  /** Why a removal fails: 405 at the root, the error of the way to the parent, 403 for a missing key, 401 for an index
      behind the array, or the error of the index. */
  lemma RemovalErrors(doc: Json, ptr: Pointer)
    ensures ptr == [] ==> RemoveAt(doc, ptr) == Err(OutOfRange(405))
    ensures ptr != [] && At(doc, Parent(ptr)).Err? ==> RemoveAt(doc, ptr) == At(doc, Parent(ptr))
    ensures ptr != [] && At(doc, Parent(ptr)).Ok? ==>
              var parent, index := At(doc, Parent(ptr)).value, JsonPointer.ArrayIndex(Last(ptr));
              && (parent.Obj? && Last(ptr) !in parent.members ==> RemoveAt(doc, ptr) == Err(OutOfRange(403)))
              && (parent.Arr? && index.Err? ==> RemoveAt(doc, ptr) == Err(index.error))
              && (parent.Arr? && index.Ok? && index.value >= |parent.elems| ==>
                    RemoveAt(doc, ptr) == Err(OutOfRange(401)))
  {
  }

  /** Why an addition to an existing parent fails: 401 for an index behind the end of the array, or the error of the
      index; and without a parent: the error at the first token if that is missing, and 404 below a primitive. */
  lemma AdditionErrors(doc: Json, ptr: Pointer, v: Json)
    requires ptr != []
    ensures ParentExists(doc, ptr) && At(doc, Parent(ptr)).value.Arr? && Last(ptr) != "-" ==>
              var parent, index := At(doc, Parent(ptr)).value, JsonPointer.ArrayIndex(Last(ptr));
              && (index.Err? ==> AddAt(doc, ptr, v) == Err(index.error))
              && (index.Ok? && index.value > |parent.elems| ==> AddAt(doc, ptr, v) == Err(OutOfRange(401)))
    ensures |ptr| > 1 && Step(doc, ptr[0]).Err? ==> AddAt(doc, ptr, v) == Err(Step(doc, ptr[0]).error)
    ensures !ParentExists(doc, ptr) && Reach(doc, ptr) > 0 ==>
              var place := At(doc, ptr[..Reach(doc, ptr)]).value;
              !IsContainer(place) && !place.Null? ==> AddAt(doc, ptr, v) == Err(OutOfRange(404))
  {
    if ParentExists(doc, ptr) { AddAtParent(doc, ptr, v); }
    FirstToken(doc, ptr);
    if |ptr| > 1 && Step(doc, ptr[0]).Err? {
      AtCons(doc, ptr[0], []);
      assert [ptr[0]] + [] == [ptr[0]];
    }
    if !ParentExists(doc, ptr) && Reach(doc, ptr) > 0 { BelowPrimitive(doc, ptr, v); }
  }

  lemma {:induction false} BelowPrimitive(j: Json, ptr: Pointer, v: Json)
    requires ptr != [] && !ParentExists(j, ptr)
    ensures var place := At(j, ptr[..Reach(j, ptr)]).value;
            !IsContainer(place) && !place.Null? ==> AddUnder(j, ptr, v) == Err(OutOfRange(404))
    decreases |ptr|
  {
    ReachesParent(j, ptr);
    var n := Reach(j, ptr);
    if Step(j, ptr[0]).Ok? {
      ReachesParent(Step(j, ptr[0]).value, ptr[1..]);
      BelowPrimitive(Step(j, ptr[0]).value, ptr[1..], v);
      AddThroughChild(j, ptr, v);
      assert ptr[..n][1..] == ptr[1..][..n - 1];
      hide AddUnder, SetStep;
    } else {
      assert ptr[..0] == [];
    }
  }

  /** A test that does not succeed gives 501 where nothing is found or something else, and the error of the path where
      a token is not a legal index. */
  lemma TestErrors(doc: Json, ptr: Pointer, v: Json)
    ensures Apply(doc, Test(ptr, v)).Ok? <==> At(doc, ptr).Ok? && JsonEq(At(doc, ptr).value, v)
    ensures Apply(doc, Test(ptr, v)) == Err(OtherError(501)) <==>
            || (At(doc, ptr).Ok? && !JsonEq(At(doc, ptr).value, v))
            || (At(doc, ptr).Err? && At(doc, ptr).error.OutOfRange?)
    ensures At(doc, ptr).Err? && !At(doc, ptr).error.OutOfRange? ==> Apply(doc, Test(ptr, v)) == At(doc, ptr)
  {
    AtIsNot501(doc, ptr);
  }

  lemma {:induction false} AtIsNot501(j: Json, ptr: Pointer)
    ensures At(j, ptr) != Err(OtherError(501))
  {
    if ptr != [] && Step(j, ptr[0]).Ok? { AtIsNot501(Step(j, ptr[0]).value, ptr[1..]); }
  }

  lemma {:induction false} RunFailsFirst(doc: Json, vals: seq<Json>, e: Error)
    ensures Run(doc, vals) == Err(e) <==>
            exists n :: 0 <= n < |vals| && Run(doc, vals[..n]).Ok?
                        && Run(Run(doc, vals[..n]).value, [vals[n]]) == Err(e)
    decreases |vals|
  {
    forall n | 0 <= n < |vals| && Run(doc, vals[..n]).Ok?
      ensures Run(Run(doc, vals[..n]).value, [vals[n]]).Err? ==>
                Run(doc, vals) == Run(Run(doc, vals[..n]).value, [vals[n]])
    {
      var next := Run(doc, vals[..n]).value;
      assert vals == vals[..n] + ([vals[n]] + vals[n + 1..]);
      RunAppend(doc, vals[..n], [vals[n]] + vals[n + 1..]);
      RunAppend(next, [vals[n]], vals[n + 1..]);
    }
    if Run(doc, vals).Err? {
      var n := FirstToFail(doc, vals);
    }
  }

  lemma {:induction false} FirstToFail(doc: Json, vals: seq<Json>) returns (n: nat)
    requires Run(doc, vals).Err?
    ensures n < |vals| && Run(doc, vals[..n]).Ok? && Run(Run(doc, vals[..n]).value, [vals[n]]).Err?
    decreases |vals|
  {
    RunSingle(doc, vals[0]);
    var first := Run(doc, [vals[0]]);
    if first.Err? {
      n := 0;
      assert vals[..0] == [];
    } else {
      RunAppend(doc, [vals[0]], vals[1..]);
      assert [vals[0]] + vals[1..] == vals;
      var m := FirstToFail(first.value, vals[1..]);
      n := m + 1;
      RunAppend(doc, [vals[0]], vals[1..][..m]);
      assert vals[..n] == [vals[0]] + vals[1..][..m];
    }
  }

  lemma RunSingle(doc: Json, val: Json)
    ensures Run(doc, [val]) ==
            if DecodeOp(val).Err? then Err(DecodeOp(val).error) else Apply(doc, DecodeOp(val).value)
  {
    hide DecodeOp, Apply;
    assert [val][1..] == [];
  }

  /** A patch fails with 104 if it is no array; otherwise with the error of the first element that cannot be read, or
      of the first operation that cannot be applied to what the ones before it made. */
  lemma PatchFailsFirst(doc: Json, jsonPatch: Json, e: Error)
    ensures !jsonPatch.Arr? ==> Patch(doc, jsonPatch) == Err(ParseError(104))
    ensures jsonPatch.Arr? ==>
              (Patch(doc, jsonPatch) == Err(e) <==>
               exists n :: 0 <= n < |jsonPatch.elems| && Run(doc, jsonPatch.elems[..n]).Ok?
                           && Run(Run(doc, jsonPatch.elems[..n]).value, [jsonPatch.elems[n]]) == Err(e))
  {
    if jsonPatch.Arr? { RunFailsFirst(doc, jsonPatch.elems, e); }
  }

  // ----- the elements of a patch document ---------------------------------------------------------

  /** m has the members of the patch element that asks for op. */
  predicate AsksFor(m: map<string, Json>, op: Op) {
    var doc := OpDoc(op).members;
    forall k | k in doc :: k in m && m[k] == doc[k]
  }

  /** An element is read as an operation exactly when it has the members that ask for it; others are ignored. */
  lemma DecodeOpExactly(val: Json, op: Op)
    ensures DecodeOp(val) == Ok(op) <==> val.Obj? && AsksFor(val.members, op)
  {
    hide AsksFor, DecodeOp;
    if val.Obj? {
      if DecodeOp(val) == Ok(op) { DecodedAsks(val.members, op); }
      if AsksFor(val.members, op) { AskedIsDecoded(val.members, op); }
    } else {
      NoObject(val);
    }
  }

  lemma NoObject(val: Json)
    requires !val.Obj?
    ensures DecodeOp(val) == Err(ParseError(104))
  {
  }

  lemma DecodedAsks(m: map<string, Json>, op: Op)
    requires DecodeOp(Obj(m)) == Ok(op)
    ensures AsksFor(m, op)
  {
    TextOfMember(m, "path");
    TextOfMember(m, "from");
    hide PointerMember, JsonPointer.ToText, JsonPointer.Parse;
  }

  lemma AskedIsDecoded(m: map<string, Json>, op: Op)
    requires AsksFor(m, op)
    ensures DecodeOp(Obj(m)) == Ok(op)
  {
    MemberOfText(m, "path", op.path);
    if op.Move? || op.Copy? { MemberOfText(m, "from", op.from); }
    var doc := OpDoc(op).members;
    assert "op" in doc && "path" in doc;
    assert op.Add? || op.Replace? || op.Test? ==> "value" in doc;
    assert op.Move? || op.Copy? ==> "from" in doc;
    hide PointerMember, JsonPointer.ToText, JsonPointer.Parse;
  }

  lemma MemberOfText(m: map<string, Json>, name: string, ptr: Pointer)
    ensures name in m && m[name] == Str(JsonPointer.ToText(ptr)) ==> PointerMember(m, name) == Ok(ptr)
  {
    JsonPointer.ParseToText(ptr);
  }

  lemma TextOfMember(m: map<string, Json>, name: string)
    ensures PointerMember(m, name).Ok? ==>
              name in m && m[name] == Str(JsonPointer.ToText(PointerMember(m, name).value))
  {
    if PointerMember(m, name).Ok? { JsonPointer.TextOfParsed(m[name].text); }
  }

  /** An element that is no object gives 104, one without an operation and a path 105, and one whose path is no
      pointer the error of the pointer text. */
  lemma DecodeErrors(val: Json)
    ensures !val.Obj? ==> DecodeOp(val) == Err(ParseError(104))
    ensures val.Obj? && (StringMember(val.members, "op").Err? || StringMember(val.members, "path").Err?) ==>
              DecodeOp(val) == Err(ParseError(105))
    ensures val.Obj? && StringMember(val.members, "op").Ok? && StringMember(val.members, "path").Ok?
            && JsonPointer.Parse(val.members["path"].text).Err? ==>
              DecodeOp(val) == Err(JsonPointer.Parse(val.members["path"].text).error)
  {
    hide StringMember, PointerMember, JsonPointer.Parse;
    if val.Obj? {
      PointerErrors(val.members, "op");
      PointerErrors(val.members, "path");
    }
  }

  /** 104 is kept for elements that are no objects; the others give 105, 107 or 108. */
  lemma DecodeErrorCodes(m: map<string, Json>)
    ensures DecodeOp(Obj(m)).Err? ==>
              DecodeOp(Obj(m)).error in {ParseError(105), ParseError(107), ParseError(108)}
  {
    hide StringMember, PointerMember;
    PointerErrors(m, "op");
    PointerErrors(m, "path");
    PointerErrors(m, "from");
  }

  lemma PointerErrors(m: map<string, Json>, name: string)
    ensures PointerMember(m, name).Err? ==>
              PointerMember(m, name).error in {ParseError(105), ParseError(107), ParseError(108)}
    ensures StringMember(m, name).Ok? <==> name in m && m[name].Str?
    ensures StringMember(m, name).Err? ==>
              StringMember(m, name) == Err(ParseError(105)) && PointerMember(m, name) == Err(ParseError(105))
    ensures StringMember(m, name).Ok? ==> PointerMember(m, name) == JsonPointer.Parse(m[name].text)
  {
    if name in m && m[name].Str? { JsonPointer.ParseFailsExactly(m[name].text); }
  }
}
