/** JSON Merge Patch. */
module MergePatch {
  import opened Wrappers
  import opened JsonValue
  import opened Collections

  function MembersOf(j: Json): map<string, Json> {
    if j.Obj? then j.members else map[]
  }

  /** MergePatch of section 2 of RFC 7396, member by member instead of in a loop. */
  function Merged(target: Json, patch: Json): Json
    decreases patch
  {
    if !patch.Obj? then patch
    else
      var base, p := MembersOf(target), patch.members;
      Obj(map k | k in base.Keys + p.Keys && !(k in p && p[k].Null?) ::
            if k in p then Merged(Get(base, k, Null), p[k]) else base[k])
  }

  /** One round of the loop, at member k of the patch. */
  function MergeStep(cur: map<string, Json>, k: string, v: Json): map<string, Json> {
    if v.Null? then cur - {k} else cur[k := Merged(Get(cur, k, Null), v)]
  }

  function MergeFold(cur: map<string, Json>, p: map<string, Json>, keys: seq<string>): map<string, Json>
    requires forall k | k in keys :: k in p
    decreases |keys|
  {
    if keys == [] then cur else MergeFold(MergeStep(cur, keys[0], p[keys[0]]), p, keys[1..])
  }

  lemma {:induction false} MergeFoldMember(cur: map<string, Json>, p: map<string, Json>, keys: seq<string>, l: string)
    requires Distinct(keys) && forall k | k in keys :: k in p
    ensures var r := MergeFold(cur, p, keys);
            && (l in r <==> if l in keys then !p[l].Null? else l in cur)
            && (l in r ==> r[l] == if l in keys then Merged(Get(cur, l, Null), p[l]) else cur[l])
    decreases |keys|
  {
    if keys != [] {
      var k := keys[0];
      assert k in keys && k !in keys[1..];
      assert l in keys <==> l == k || l in keys[1..];
      MergeFoldMember(MergeStep(cur, k, p[k]), p, keys[1..], l);
    }
  }

  /** Whatever the order in which the members of the patch are visited, the loop computes `Merged`. */
  lemma {:induction false} MergeInAnyOrder(target: Json, patch: Json, keys: seq<string>)
    requires patch.Obj? && Distinct(keys) && forall k :: k in keys <==> k in patch.members
    ensures Obj(MergeFold(MembersOf(target), patch.members, keys)) == Merged(target, patch)
  {
    var base, p := MembersOf(target), patch.members;
    var r, m := MergeFold(base, p, keys), Merged(target, patch).members;
    forall l ensures (l in r <==> l in m) && (l in r ==> r[l] == m[l]) {
      MergeFoldMember(base, p, keys, l);
    }
    assert r == m;
  }

  /** `merge_patch` on the value self, whose new value is returned. */
  method MergeInto(self: Json, applyPatch: Json) returns (r: Json)
    ensures r == Merged(self, applyPatch)
    decreases applyPatch
  {
    r := self;
    if applyPatch.Obj? {
      if !r.Obj? { r := Obj(map[]); }
      var p := applyPatch.members;
      var keys := SortedKeys(p.Keys);
      for i := 0 to |keys|
        invariant r.Obj?
        invariant MergeFold(r.members, p, keys[i..]) == MergeFold(MembersOf(self), p, keys)
      {
        var k := keys[i];
        assert keys[i..][0] == k && keys[i..][1..] == keys[i + 1..];
        if p[k].Null? {
          r := Obj(r.members - {k});
        } else {
          var child := MergeInto(Get(r.members, k, Null), p[k]);
          r := Obj(r.members[k := child]);
        }
      }
      MergeInAnyOrder(self, applyPatch, keys);
    } else {
      r := applyPatch;
    }
  }

  /** Applying the same merge patch again changes nothing. */
  lemma {:induction false} MergeIdempotent(target: Json, patch: Json)
    ensures Merged(Merged(target, patch), patch) == Merged(target, patch)
    decreases patch
  {
    if patch.Obj? {
      var base, p := MembersOf(target), patch.members;
      var once := Merged(target, patch).members;
      var twice := Merged(Obj(once), patch).members;
      assert twice.Keys == once.Keys;
      forall k | k in once ensures twice[k] == once[k] {
        if k in p { MergeIdempotent(Get(base, k, Null), p[k]); }
      }
      assert twice == once;
    }
  }

  /** The value reached from j through objects only. */
  function Through(j: Json, path: seq<string>): Option<Json> {
    if path == [] then Some(j)
    else if j.Obj? && path[0] in j.members then Through(j.members[path[0]], path[1..])
    else None
  }

  /** A null member of the result, at any depth reached through objects, was a null member of the target there. */
  lemma {:induction false} NoNewNulls(target: Json, patch: Json, path: seq<string>)
    requires path != [] && Through(Merged(target, patch), path) == Some(Null)
    ensures Through(target, path) == Some(Null)
    decreases |path|
  {
    var base, p, k := MembersOf(target), patch.members, path[0];
    if k in p {
      var child := Merged(Get(base, k, Null), p[k]);
      assert Through(child, path[1..]) == Some(Null);
      assert path[1..] != [];
      NoNewNulls(Get(base, k, Null), p[k], path[1..]);
    }
  }

  /** Where the patch has a null, reached through objects, the result has nothing. */
  lemma {:induction false} NullsDelete(target: Json, patch: Json, path: seq<string>)
    requires path != [] && Through(patch, path) == Some(Null)
    ensures Through(Merged(target, patch), path) == None
    decreases |path|
  {
    var base, p, k := MembersOf(target), patch.members, path[0];
    if !p[k].Null? { NullsDelete(Get(base, k, Null), p[k], path[1..]); }
  }

  /** Where the patch has a value other than an object, the result has that value. */
  lemma {:induction false} ValuesArrive(target: Json, patch: Json, path: seq<string>)
    requires Through(patch, path).Some? && !Through(patch, path).value.Obj?
    requires Through(patch, path).value.Null? ==> path == []
    ensures Through(Merged(target, patch), path) == Through(patch, path)
    decreases |path|
  {
    if path != [] {
      var base, p, k := MembersOf(target), patch.members, path[0];
      ValuesArrive(Get(base, k, Null), p[k], path[1..]);
    }
  }

  /** Where the patch has an object, so has the result. */
  lemma {:induction false} ObjectsArrive(target: Json, patch: Json, path: seq<string>)
    requires Through(patch, path).Some? && Through(patch, path).value.Obj?
    ensures Through(Merged(target, patch), path).Some? && Through(Merged(target, patch), path).value.Obj?
    decreases |path|
  {
    if path != [] {
      ObjectsArrive(Get(MembersOf(target), path[0], Null), patch.members[path[0]], path[1..]);
    }
  }

  /** The path leaves the objects of j at a key that is missing there. */
  predicate LeavesAt(j: Json, path: seq<string>) {
    path != [] && j.Obj? && (path[0] !in j.members || LeavesAt(j.members[path[0]], path[1..]))
  }

  /** What the patch does not mention stays as it was in the target, or missing. */
  lemma {:induction false} OthersStay(target: Json, patch: Json, path: seq<string>)
    requires LeavesAt(patch, path)
    ensures Through(Merged(target, patch), path) == Through(target, path)
    decreases |path|
  {
    var base, p, k := MembersOf(target), patch.members, path[0];
    if k in p {
      assert path[1..] != [];
      OthersStay(Get(base, k, Null), p[k], path[1..]);
    }
  }
}
