/** JSON Merge Patch (RFC 7396). */
module MergePatch {
  import opened Text
  import opened Sequences
  import opened JsonValue

  function MembersOf(v: Json): map<string, Json> {
    if v.Object? then v.members else map[]
  }

  function MemberOrNull(m: map<string, Json>, k: string): Json {
    if k in m then m[k] else Null
  }

  /** The value that a merge patch makes of `target`, member by member and without an order. A
      missing member counts as null, which the patch of an object turns into an empty object. */
  function Merged(target: Json, patch: Json): Json
    decreases patch
  {
    match patch
    case Object(p) =>
      var t := MembersOf(target);
      Object(map k | k in t.Keys + p.Keys && (k in p ==> p[k] != Null)
             :: if k in p then Merged(MemberOrNull(t, k), p[k]) else t[k])
    case _ => patch
  }

  // ----- the algorithm of section 2 of RFC 7396, for any order of the patch members -----

  function MergeMember(t: map<string, Json>, k: string, v: Json): map<string, Json> {
    if v == Null then t - {k} else t[k := Merged(MemberOrNull(t, k), v)]
  }

  function MergeInOrder(t: map<string, Json>, p: map<string, Json>, keys: seq<string>): map<string, Json>
    requires forall k | k in keys :: k in p
    decreases |keys|
  {
    if keys == [] then t else MergeInOrder(MergeMember(t, keys[0], p[keys[0]]), p, keys[1..])
  }

  /** What the members in `keys` have done to `t`, whatever their order. */
  function MergedOn(t: map<string, Json>, p: map<string, Json>, keys: set<string>): map<string, Json>
    requires keys <= p.Keys
  {
    map k | k in t.Keys + keys && (k in keys ==> p[k] != Null)
      :: if k in keys then Merged(MemberOrNull(t, k), p[k]) else t[k]
  }

  lemma {:induction false} InOrderIsMergedOn(t: map<string, Json>, p: map<string, Json>, keys: seq<string>)
    requires Distinct(keys) && forall k | k in keys :: k in p
    ensures MergeInOrder(t, p, keys) == MergedOn(t, p, set k | k in keys)
    decreases |keys|
  {
    var all := set k | k in keys;
    if keys == [] {
      assert MergedOn(t, p, all) == t;
    } else {
      var k, rest := keys[0], keys[1..];
      var next := MergeMember(t, k, p[k]);
      InOrderIsMergedOn(next, p, rest);
      var others := set x | x in rest;
      assert k !in others;
      assert all == others + {k} by {
        assert keys == [k] + rest;
      }
      MergedOnStep(t, p, others, k);
    }
  }

  lemma MergedOnStep(t: map<string, Json>, p: map<string, Json>, others: set<string>, k: string)
    requires others <= p.Keys && k in p && k !in others
    ensures MergedOn(MergeMember(t, k, p[k]), p, others) == MergedOn(t, p, others + {k})
  {
    var next := MergeMember(t, k, p[k]);
    var a, b := MergedOn(next, p, others), MergedOn(t, p, others + {k});
    assert a.Keys == b.Keys;
    forall x | x in a ensures a[x] == b[x] {
      if x != k {
        assert MemberOrNull(next, x) == MemberOrNull(t, x);
      }
    }
  }

  /** The order in which the members of the patch are visited does not matter. */
  lemma OrderIndependent(target: Json, p: map<string, Json>, keys: seq<string>)
    requires Distinct(keys) && forall k :: k in keys <==> k in p
    ensures Object(MergeInOrder(MembersOf(target), p, keys)) == Merged(target, Object(p))
  {
    InOrderIsMergedOn(MembersOf(target), p, keys);
    assert (set k | k in keys) == p.Keys;
  }

  // ----- an arbitrary order at every level -----

  /** The keys of a map in some order. */
  ghost predicate Lists(keys: seq<string>, p: map<string, Json>) {
    Distinct(keys) && forall k :: k in keys <==> k in p
  }

  /** The algorithm can end with `result` when at every level it visits the members of the patch in an
      order of its own. */
  ghost predicate CanMerge(target: Json, patch: Json, result: Json)
    decreases patch, 1, 0
  {
    if !patch.Object? then result == patch
    else result.Object? && exists keys ::
           Lists(keys, patch.members) && CanMergeMembers(MembersOf(target), patch, keys, result.members)
  }

  ghost predicate CanMergeMembers(t: map<string, Json>, patch: Json, keys: seq<string>, end: map<string, Json>)
    requires patch.Object? && forall k | k in keys :: k in patch.members
    decreases patch, 0, |keys|
  {
    if keys == [] then t == end
    else
      var k, v := keys[0], patch.members[keys[0]];
      if v == Null then CanMergeMembers(t - {k}, patch, keys[1..], end)
      else exists c :: CanMerge(MemberOrNull(t, k), v, c) && CanMergeMembers(t[k := c], patch, keys[1..], end)
  }

  /** Whatever the orders, at every level: the algorithm can end with exactly one value. */
  lemma {:induction false} AnyOrderIff(target: Json, patch: Json, result: Json)
    ensures CanMerge(target, patch, result) <==> result == Merged(target, patch)
    decreases patch, 1, 0
  {
    if patch.Object? {
      var t, p := MembersOf(target), patch.members;
      forall keys | Lists(keys, p)
        ensures result.Object? ==>
                  (CanMergeMembers(t, patch, keys, result.members) <==> result == Merged(target, patch))
      {
        if result.Object? {
          AnyOrderOfMembers(t, patch, keys, result.members);
          OrderIndependent(target, p, keys);
        }
      }
      KeysOnce(p.Keys);
      assert Lists(SortedKeys(p.Keys), p);
    }
  }

  lemma {:induction false} AnyOrderOfMembers(t: map<string, Json>, patch: Json, keys: seq<string>,
                                             end: map<string, Json>)
    requires patch.Object? && forall k | k in keys :: k in patch.members
    ensures CanMergeMembers(t, patch, keys, end) <==> end == MergeInOrder(t, patch.members, keys)
    decreases patch, 0, |keys|
  {
    if keys != [] {
      var k, v := keys[0], patch.members[keys[0]];
      if v == Null {
        AnyOrderOfMembers(t - {k}, patch, keys[1..], end);
      } else {
        forall c ensures CanMerge(MemberOrNull(t, k), v, c) <==> c == Merged(MemberOrNull(t, k), v) {
          AnyOrderIff(MemberOrNull(t, k), v, c);
        }
        var merged := Merged(MemberOrNull(t, k), v);
        AnyOrderOfMembers(t[k := merged], patch, keys[1..], end);
        assert CanMerge(MemberOrNull(t, k), v, merged);
        assert CanMergeMembers(t, patch, keys, end) <==> CanMergeMembers(t[k := merged], patch, keys[1..], end);
      }
    }
  }

  /** What the patch members from the j-th on make of `t`. */
  ghost function MergeFrom(t: map<string, Json>, p: map<string, Json>, keys: seq<string>, j: nat): map<string, Json>
    requires j <= |keys| && forall k | k in keys :: k in p
  {
    MergeInOrder(t, p, keys[j..])
  }

  lemma MergeTurn(t: map<string, Json>, p: map<string, Json>, keys: seq<string>, j: nat)
    requires j < |keys| && forall k | k in keys :: k in p
    ensures MergeFrom(t, p, keys, j) == MergeFrom(MergeMember(t, keys[j], p[keys[j]]), p, keys, j + 1)
  {
    assert keys[j..][0] == keys[j] && keys[j..][1..] == keys[j + 1..];
  }

  // ----- merge_patch -----

  /** A basic_json that is changed in place. */
  class Document {
    var value: Json

    constructor (v: Json)
      ensures value == v
    {
      value := v;
    }

    /** basic_json::merge_patch. */
    method MergePatch(applyPatch: Json)
      modifies this
      ensures value == Merged(old(value), applyPatch)
      decreases applyPatch, 1, 0
    {
      if applyPatch.Object? {
        if !value.Object? {
          value := Object(map[]);
        }
        MergeMembers(applyPatch, old(value));
      } else {
        value := applyPatch;
      }
    }

    /** The loop over the members of the patch. */
    method MergeMembers(applyPatch: Json, ghost target: Json)
      requires applyPatch.Object? && value.Object? && value.members == MembersOf(target)
      modifies this
      ensures value == Merged(target, applyPatch)
      decreases applyPatch, 0, 0
    {
      var p := applyPatch.members;
      var keys := SortedKeys(p.Keys);
      KeysOnce(p.Keys);
      var j := 0;
      while j < |keys|
        invariant 0 <= j <= |keys| && value.Object?
        invariant MergeFrom(value.members, p, keys, j) == MergeFrom(MembersOf(target), p, keys, 0)
      {
        MergeTurn(value.members, p, keys, j);
        MergeInto(keys[j], p[keys[j]]);
        j := j + 1;
      }
      assert keys[0..] == keys;
      OrderIndependent(target, p, keys);
    }

    /** What one member of the patch does: erase, or merge into the member it names. */
    method MergeInto(k: string, v: Json)
      requires value.Object?
      modifies this
      ensures value == Object(MergeMember(old(value.members), k, v))
      decreases v, 1, 1
    {
      if v.Null? {
        value := Object(value.members - {k});
      } else {
        var member := new Document(MemberOrNull(value.members, k));
        member.MergePatch(v);
        value := Object(value.members[k := member.value]);
      }
    }
  }

  // ----- what a merge patch can and cannot do -----

  /** What becomes of each member of an object: one that the patch does not name is kept as it is, one that
      it names with null is gone, and any other is what its patch makes of it, or of null if it is new. */
  lemma EachMember(m: map<string, Json>, p: map<string, Json>, k: string)
    ensures Merged(Object(m), Object(p)).Object?
    ensures var r := Merged(Object(m), Object(p)).members;
            && (k !in p ==> (k in r <==> k in m) && (k in m ==> r[k] == m[k]))
            && (k in p && p[k] == Null ==> k !in r)
            && (k in p && p[k] != Null ==> k in r && r[k] == Merged(if k in m then m[k] else Null, p[k]))
  {
    hide Merged;
    MergedMembers(m, p);
  }

  lemma MergedMembers(m: map<string, Json>, p: map<string, Json>)
    ensures Merged(Object(m), Object(p))
            == Object(map k | k in m.Keys + p.Keys && (k in p ==> p[k] != Null)
                      :: if k in p then Merged(if k in m then m[k] else Null, p[k]) else m[k])
  {
  }

  /** A target that is no object is forgotten, whatever it is, a patch that is no object is the result, and
      an empty patch keeps an object as it is. */
  lemma OtherTargets(v: Json, m: map<string, Json>, p: map<string, Json>)
    ensures !v.Object? ==> Merged(v, Object(p)) == Merged(Object(map[]), Object(p))
    ensures !v.Object? ==> Merged(Object(m), v) == v
    ensures Merged(Object(m), Object(map[])) == Object(m)
  {
    hide Merged;
    MergedMembers(m, map[]);
    ScalarTarget(v, p);
    ScalarPatch(Object(m), v);
  }

  lemma ScalarTarget(v: Json, p: map<string, Json>)
    ensures !v.Object? ==> Merged(v, Object(p)) == Merged(Object(map[]), Object(p))
  {
  }

  lemma ScalarPatch(target: Json, v: Json)
    ensures !v.Object? ==> Merged(target, v) == v
  {
  }

  /** Applying a patch twice is applying it once. */
  lemma {:induction false} Idempotent(target: Json, patch: Json)
    ensures Merged(Merged(target, patch), patch) == Merged(target, patch)
    decreases patch
  {
    if patch.Object? {
      var p, t := patch.members, MembersOf(target);
      var once := Merged(target, patch).members;
      var twice := Merged(Merged(target, patch), patch).members;
      assert twice.Keys == once.Keys;
      forall k | k in once ensures twice[k] == once[k] {
        if k in p {
          Idempotent(MemberOrNull(t, k), p[k]);
        }
      }
      assert twice == once;
    }
  }

  /** `goal` can be made from `start`: wherever it holds a null member, `start` holds one already. */
  predicate Reachable(start: Json, goal: Json)
    decreases goal
  {
    goal.Object? ==>
      forall k | k in goal.members ::
        if goal.members[k] == Null then k in MembersOf(start) && MembersOf(start)[k] == Null
        else Reachable(MemberOrNull(MembersOf(start), k), goal.members[k])
  }

  /** A patch that leads from `start` to `goal`: it deletes, sets, and leaves nulls alone. */
  function PatchTo(start: Json, goal: Json): Json
    decreases goal
  {
    match goal
    case Object(g) =>
      var s := MembersOf(start);
      Object(map k | k in s.Keys + g.Keys && (k in g ==> g[k] != Null)
             :: if k in g then PatchTo(MemberOrNull(s, k), g[k]) else Null)
    case _ => goal
  }

  /** Exactly the reachable values are results of a merge patch: a patch cannot write a null member. */
  lemma {:induction false} PatchExistsIff(start: Json, goal: Json)
    ensures Reachable(start, goal) ==> Merged(start, PatchTo(start, goal)) == goal
    ensures forall patch | Merged(start, patch) == goal :: Reachable(start, goal)
  {
    if Reachable(start, goal) {
      PatchToArrives(start, goal);
    }
    forall patch | Merged(start, patch) == goal ensures Reachable(start, goal) {
      MergedIsReachable(start, patch);
    }
  }

  lemma {:induction false} PatchToArrives(start: Json, goal: Json)
    requires Reachable(start, goal)
    ensures Merged(start, PatchTo(start, goal)) == goal
    decreases goal
  {
    if goal.Object? {
      var s, g := MembersOf(start), goal.members;
      var p := PatchTo(start, goal).members;
      var result := Merged(start, PatchTo(start, goal)).members;
      forall k | k in g && g[k] != Null
        ensures p[k] != Null && Merged(MemberOrNull(s, k), p[k]) == g[k]
      {
        PatchToArrives(MemberOrNull(s, k), g[k]);
      }
      assert result.Keys == g.Keys;
      assert result == g;
    }
  }

  lemma {:induction false} MergedIsReachable(start: Json, patch: Json)
    ensures Reachable(start, Merged(start, patch))
    decreases patch
  {
    if patch.Object? {
      var s, p := MembersOf(start), patch.members;
      var g := Merged(start, patch).members;
      forall k | k in g
        ensures if g[k] == Null then k in s && s[k] == Null else Reachable(MemberOrNull(s, k), g[k])
      {
        if k in p {
          MergedIsReachable(MemberOrNull(s, k), p[k]);
          assert g[k] == Merged(MemberOrNull(s, k), p[k]);
        } else {
          Unchanged(s[k]);
        }
      }
    }
  }

  lemma {:induction false} Unchanged(v: Json)
    ensures Reachable(v, v)
    decreases v
  {
    if v.Object? {
      forall k | k in v.members ensures v.members[k] == Null || Reachable(v.members[k], v.members[k]) {
        Unchanged(v.members[k]);
      }
    }
  }
}
