/** basic_json::diff, and the invariant it documents: source.patch(diff(source, target)) == target. */
module JsonDiff {
  import opened Results
  import opened Text
  import opened Sequences
  import opened JsonValue
  import opened JsonPointer
  import opened JsonPatch
  import opened JsonPatchLaws

  // ----- edits below a child -----

  /** `op` on the value at a location, as an operation on the document. */
  function Prefixed(at: Path, op: Op): Op {
    match op
    case Add(path, v) => Add(at + path, v)
    case Remove(path) => Remove(at + path)
    case Replace(path, v) => Replace(at + path, v)
    case Move(path, from) => Move(at + path, at + from)
    case Copy(path, from) => Copy(at + path, at + from)
    case Test(path, v) => Test(at + path, v)
  }

  /** `op` on the child at `token`, as an operation on the parent. */
  function Below(token: string, op: Op): Op {
    Prefixed([token], op)
  }

  function AllBelow(token: string, ops: seq<Op>): (r: seq<Op>)
    ensures |r| == |ops|
  {
    if ops == [] then [] else [Below(token, ops[0])] + AllBelow(token, ops[1..])
  }

  // ----- the edit list -----

  /** The edits that diff emits, with paths relative to the two values compared. */
  function DiffOps(s: Json, t: Json): seq<Op>
    decreases s, 1, 0
  {
    if Equal(s, t) then []
    else match (s, t)
      case (Array(xs), Array(ys)) =>
        var n := Min(|xs|, |ys|);
        CommonEdits(xs, ys, n) + Removals(n, |xs|) + Appends(ys[n..])
      case (Object(m), Object(n)) =>
        SortedKeysElements(m.Keys);
        MemberEdits(s, SortedKeys(m.Keys), n) + NewMembers(m, SortedKeys(n.Keys), n)
      case _ => [Replace([], t)]
  }

  /** The edits of the first `n` elements. */
  function CommonEdits(xs: seq<Json>, ys: seq<Json>, n: nat): seq<Op>
    requires n <= |xs| && n <= |ys|
    decreases xs, 0, n
  {
    if n == 0 then [] else
      CommonEdits(xs, ys, n - 1) + AllBelow(Decimal(n - 1), DiffOps(xs[n - 1], ys[n - 1]))
  }

  /** Removals of the indices from `lo` up to `hi`, highest first. */
  function Removals(lo: nat, hi: nat): seq<Op>
    decreases hi
  {
    if hi <= lo then [] else [Remove([Decimal(hi - 1)])] + Removals(lo, hi - 1)
  }

  function Appends(ys: seq<Json>): seq<Op> {
    if ys == [] then [] else [Add(["-"], ys[0])] + Appends(ys[1..])
  }

  /** The edits of one member of the source object `s`. */
  function MemberEdit(s: Json, k: string, t: map<string, Json>): seq<Op>
    requires s.Object? && k in s.members
    decreases s, 0, 0
  {
    if k in t then AllBelow(k, DiffOps(s.members[k], t[k])) else [Remove([k])]
  }

  /** The edits of the members of the source object `s` named in `keys`. */
  function MemberEdits(s: Json, keys: seq<string>, t: map<string, Json>): seq<Op>
    requires s.Object? && forall k | k in keys :: k in s.members
    decreases s, 0, |keys|
  {
    if keys == [] then [] else MemberEdit(s, keys[0], t) + MemberEdits(s, keys[1..], t)
  }

  /** The additions of the members of `t` named in `keys` that the source lacks. */
  function NewMembers(s: map<string, Json>, keys: seq<string>, t: map<string, Json>): seq<Op> {
    if keys == [] then [] else
      (if keys[0] in t && keys[0] !in s then [Add([keys[0]], t[keys[0]])] else [])
      + NewMembers(s, keys[1..], t)
  }

  // ----- replaying edits -----

  /** A value can be put at the location: its parent exists and can hold it. */
  predicate CanPut(doc: Json, path: Path) {
    path == [] || CanAdd(doc, path)
  }

  /** The operation may run on `doc` under RFC 6902: what it names exists, what it adds has an existing
      parent that can hold it, and nothing is moved into itself. The root, which is never removed or moved
      away, is left out. */
  predicate Applicable(doc: Json, op: Op) {
    match op
    case Add(path, _) => CanPut(doc, path)
    case Remove(path) => path != [] && Exists(doc, path)
    case Replace(path, _) => Exists(doc, path)
    case Move(path, from) =>
      from != [] && Exists(doc, from) && !(from < path)
      && RemoveAt(doc, from).Ok? && CanPut(RemoveAt(doc, from).value, path)
    case Copy(path, from) => Exists(doc, from) && CanPut(doc, path)
    case Test(path, v) => Resolve(doc, path) == Ok(v)
  }

  /** The code performs whatever the RFC allows. */
  lemma ApplicableSucceeds(doc: Json, op: Op)
    requires Applicable(doc, op)
    ensures Apply(doc, op).Ok?
  {
    match op {
      case Add(path, v) => PutSucceeds(doc, path, v);
      case Remove(path) => AddUndoesRemove(doc, path);
      case Replace(path, v) => ReplaceThenRead(doc, path, v);
      case Move(path, from) => PutSucceeds(RemoveAt(doc, from).value, path, Resolve(doc, from).value);
      case Copy(path, from) => PutSucceeds(doc, path, Resolve(doc, from).value);
      case Test(path, v) => TestIff(doc, path, v);
    }
  }

  lemma PutSucceeds(doc: Json, path: Path, v: Json)
    requires CanPut(doc, path)
    ensures Apply(doc, Add(path, v)).Ok?
  {
    if path != [] {
      AddSucceeds(doc, path, v);
    }
  }

  /** Each edit is applicable when its turn comes, and the last one leaves `end`. */
  ghost predicate Replays(doc: Json, ops: seq<Op>, end: Json)
    decreases |ops|
  {
    if ops == [] then doc == end else
      && Applicable(doc, ops[0])
      && Apply(doc, ops[0]).Ok?
      && Replays(Apply(doc, ops[0]).value, ops[1..], end)
  }

  lemma {:induction false} ReplayIsApply(doc: Json, ops: seq<Op>, end: Json)
    requires Replays(doc, ops, end)
    ensures ApplyAll(doc, ops) == Ok(end)
    decreases |ops|
  {
    if ops != [] {
      ReplayIsApply(Apply(doc, ops[0]).value, ops[1..], end);
    }
  }

  lemma {:induction false} ReplayAppend(doc: Json, a: seq<Op>, mid: Json, b: seq<Op>, end: Json)
    requires Replays(doc, a, mid) && Replays(mid, b, end)
    ensures Replays(doc, a + b, end)
    decreases |a|
  {
    if a == [] {
      assert a + b == b;
    } else {
      AppendHead(a, b);
      ReplayAppend(Apply(doc, a[0]).value, a[1..], mid, b, end);
    }
  }

  lemma ReplayNone(doc: Json)
    ensures Replays(doc, [], doc)
  {
  }

  lemma ReplayOne(doc: Json, op: Op, end: Json)
    requires Applicable(doc, op) && Apply(doc, op) == Ok(end)
    ensures Replays(doc, [op], end)
  {
    assert [op][1..] == [];
  }

  /** Edits that cannot turn into something else when moved below a child. Only adding and removing
      at the root of the child would: there the container decides what the location means. */
  predicate Nestable(op: Op) {
    op.Replace? || ((op.Add? || op.Remove?) && op.path != [])
  }

  predicate AllNestable(ops: seq<Op>) {
    forall op | op in ops :: Nestable(op)
  }

  lemma NestableAppend(a: seq<Op>, b: seq<Op>)
    ensures AllNestable(a + b) <==> AllNestable(a) && AllNestable(b)
  {
    assert forall op :: op in a + b <==> op in a || op in b;
  }

  /** An edit below a child edits that child and nothing else. */
  lemma BelowIsLocal(doc: Json, token: string, op: Op)
    requires Nestable(op) && Child(doc, token).Ok?
    requires Applicable(Child(doc, token).value, op) && Apply(Child(doc, token).value, op).Ok?
    ensures Applicable(doc, Below(token, op))
    ensures Apply(doc, Below(token, op))
            == Ok(WithChild(doc, token, Apply(Child(doc, token).value, op).value))
  {
    var c := Child(doc, token).value;
    var path := [token] + op.path;
    assert path[0] == token && path[1..] == op.path;
    if op.Add? {
      CanAddSteps(doc, path);
      AddSucceeds(c, op.path, op.value);
      AddDescends(doc, path, op.value);
    }
  }

  /** Replaying a list of edits below a child changes only the subtree there. */
  lemma {:induction false} ReplayBelow(doc: Json, token: string, ops: seq<Op>, end: Json)
    requires Child(doc, token).Ok?
    requires AllNestable(ops)
    requires Replays(Child(doc, token).value, ops, end)
    ensures Replays(doc, AllBelow(token, ops), WithChild(doc, token, end))
    decreases |ops|
  {
    var c := Child(doc, token).value;
    WithChildLaws(doc, token, end);
    if ops != [] {
      var c' := Apply(c, ops[0]).value;
      BelowIsLocal(doc, token, ops[0]);
      WithChildLaws(doc, token, c');
      WithChildTwice(doc, token, c', end);
      ReplayBelow(WithChild(doc, token, c'), token, ops[1..], end);
      var all := AllBelow(token, ops);
      assert all[0] == Below(token, ops[0]) && all[1..] == AllBelow(token, ops[1..]);
    }
  }

  // ----- edits at a location -----

  function AllPrefixed(at: Path, ops: seq<Op>): (r: seq<Op>)
    ensures |r| == |ops|
  {
    if ops == [] then [] else [Prefixed(at, ops[0])] + AllPrefixed(at, ops[1..])
  }

  /** Putting a path before others is putting its tokens before them, the last one first. */
  lemma {:induction false} PrefixedBelow(at: Path, ops: seq<Op>)
    ensures at == [] ==> AllPrefixed(at, ops) == ops
    ensures at != [] ==> AllPrefixed(at, ops) == AllBelow(at[0], AllPrefixed(at[1..], ops))
  {
    if ops != [] {
      PrefixedBelow(at, ops[1..]);
      PrefixedOne(at, ops[0]);
      if at != [] {
        var inner := AllPrefixed(at[1..], ops);
        assert inner[0] == Prefixed(at[1..], ops[0]) && inner[1..] == AllPrefixed(at[1..], ops[1..]);
      }
    }
  }

  lemma PrefixedOne(at: Path, op: Op)
    ensures at == [] ==> Prefixed(at, op) == op
    ensures at != [] ==> Prefixed(at, op) == Below(at[0], Prefixed(at[1..], op))
  {
    if at == [] {
      assert at + op.path == op.path;
      assert op.Move? || op.Copy? ==> at + op.from == op.from;
    } else {
      assert at == [at[0]] + at[1..];
      Assoc([at[0]], at[1..], op.path);
      if op.Move? || op.Copy? {
        Assoc([at[0]], at[1..], op.from);
      }
    }
  }

  lemma {:induction false} PrefixedNestable(at: Path, ops: seq<Op>)
    requires AllNestable(ops)
    ensures AllNestable(AllPrefixed(at, ops))
    decreases |at|
  {
    PrefixedBelow(at, ops);
    if at != [] {
      PrefixedNestable(at[1..], ops);
      BelowNestable(at[0], AllPrefixed(at[1..], ops));
    }
  }

  /** Replaying edits at a location, however deep, replaces the value there by what they make of it, and
      changes nothing else. */
  lemma {:induction false} ReplayAt(doc: Json, at: Path, ops: seq<Op>, end: Json)
    requires Exists(doc, at) && AllNestable(ops) && Replays(Resolve(doc, at).value, ops, end)
    ensures Store(doc, at, end).Ok?
    ensures Replays(doc, AllPrefixed(at, ops), Store(doc, at, end).value)
    decreases |at|
  {
    PrefixedBelow(at, ops);
    if at != [] {
      hide Replays, AllPrefixed, AllBelow, AllNestable;
      var c := Child(doc, at[0]).value;
      ReplayAt(c, at[1..], ops, end);
      PrefixedNestable(at[1..], ops);
      ReplayBelow(doc, at[0], AllPrefixed(at[1..], ops), Store(c, at[1..], end).value);
    }
  }

  // ----- every edit of diff is nestable -----

  lemma {:induction false} DiffNestable(s: Json, t: Json)
    ensures AllNestable(DiffOps(s, t))
    decreases s, 1, 0
  {
    if !Equal(s, t) {
      hide CommonEdits, Removals, Appends, MemberEdits, NewMembers;
      match (s, t) {
        case (Array(xs), Array(ys)) =>
          var n := Min(|xs|, |ys|);
          CommonNestable(xs, ys, n);
          RemovalsNestable(n, |xs|);
          AppendsNestable(ys[n..]);
          NestableAppend(CommonEdits(xs, ys, n), Removals(n, |xs|));
          NestableAppend(CommonEdits(xs, ys, n) + Removals(n, |xs|), Appends(ys[n..]));
        case (Object(m), Object(n)) =>
          SortedKeysElements(m.Keys);
          MembersNestable(s, SortedKeys(m.Keys), n);
          NewNestable(m, SortedKeys(n.Keys), n);
          NestableAppend(MemberEdits(s, SortedKeys(m.Keys), n), NewMembers(m, SortedKeys(n.Keys), n));
        case _ =>
      }
    }
  }

  lemma {:induction false} BelowNestable(token: string, ops: seq<Op>)
    requires AllNestable(ops)
    ensures AllNestable(AllBelow(token, ops))
  {
    if ops != [] {
      BelowNestable(token, ops[1..]);
      assert ops[0] in ops;
    }
  }

  lemma {:induction false} CommonNestable(xs: seq<Json>, ys: seq<Json>, n: nat)
    requires n <= |xs| && n <= |ys|
    ensures AllNestable(CommonEdits(xs, ys, n))
    decreases xs, 0, n
  {
    if n > 0 {
      CommonNestable(xs, ys, n - 1);
      DiffNestable(xs[n - 1], ys[n - 1]);
      BelowNestable(Decimal(n - 1), DiffOps(xs[n - 1], ys[n - 1]));
      NestableAppend(CommonEdits(xs, ys, n - 1), AllBelow(Decimal(n - 1), DiffOps(xs[n - 1], ys[n - 1])));
    }
  }

  lemma {:induction false} RemovalsNestable(lo: nat, hi: nat)
    ensures AllNestable(Removals(lo, hi))
    decreases hi
  {
    if hi > lo {
      RemovalsNestable(lo, hi - 1);
    }
  }

  lemma {:induction false} AppendsNestable(ys: seq<Json>)
    ensures AllNestable(Appends(ys))
  {
    if ys != [] {
      AppendsNestable(ys[1..]);
    }
  }

  lemma {:induction false} MembersNestable(s: Json, keys: seq<string>, t: map<string, Json>)
    requires s.Object? && forall k | k in keys :: k in s.members
    ensures AllNestable(MemberEdits(s, keys, t))
    decreases s, 0, |keys|
  {
    if keys != [] {
      var k := keys[0];
      MembersNestable(s, keys[1..], t);
      if k in t {
        DiffNestable(s.members[k], t[k]);
        BelowNestable(k, DiffOps(s.members[k], t[k]));
      }
      NestableAppend(MemberEdit(s, k, t), MemberEdits(s, keys[1..], t));
    }
  }

  lemma {:induction false} NewNestable(s: map<string, Json>, keys: seq<string>, t: map<string, Json>)
    ensures AllNestable(NewMembers(s, keys, t))
  {
    if keys != [] {
      NewNestable(s, keys[1..], t);
    }
  }

  // ----- the main theorem -----

  /** Every array is shorter than the largest index, as on any 64-bit machine. */
  predicate FitsMemory(v: Json)
    decreases v
  {
    match v
    case Array(items) => |items| <= SIZE_MAX && forall i | 0 <= i < |items| :: FitsMemory(items[i])
    case Object(m) => forall k | k in m :: FitsMemory(m[k])
    case _ => true
  }

  lemma {:induction false} DiffReplays(s: Json, t: Json)
    requires FitsMemory(s)
    ensures Replays(s, DiffOps(s, t), t)
    decreases s, 2, 0
  {
    hide Equal, CommonEdits, Removals, Appends, MemberEdits, NewMembers, Replays;
    EqualIsIdentity(s, t);
    if Equal(s, t) {
      ReplayNone(s);
    } else {
      if s.Array? && t.Array? {
        ArrayReplays(s.items, t.items);
      } else if s.Object? && t.Object? {
        SortedKeysElements(s.members.Keys);
        ObjectReplays(s, t);
      } else {
        ReplayOne(s, Replace([], t), t);
      }
    }
  }

  /** Editing every member of the source and adding the new ones gives the members of the target. */
  lemma ExtendedEdited(m: map<string, Json>, keys: seq<string>, n: map<string, Json>, newKeys: seq<string>)
    requires forall k :: k in keys <==> k in m.Keys
    requires forall k :: k in newKeys <==> k in n.Keys
    ensures Extended(m, newKeys, n, Edited(keys, n, m)) == n
  {
    var mid := Edited(keys, n, m);
    var end := Extended(m, newKeys, n, mid);
    assert forall k :: k in mid <==> k in m && k in n;
    assert end.Keys == n.Keys;
    forall k | k in n ensures end[k] == n[k] {
      if k in m {
        assert mid[k] == n[k];
      }
    }
  }

  lemma {:induction false} ObjectReplays(s: Json, t: Json)
    requires s.Object? && t.Object? && FitsMemory(s)
    requires forall k | k in SortedKeys(s.members.Keys) :: k in s.members
    ensures Replays(s, MemberEdits(s, SortedKeys(s.members.Keys), t.members)
                       + NewMembers(s.members, SortedKeys(t.members.Keys), t.members), t)
    decreases s, 1, 0
  {
    var m, n := s.members, t.members;
    var keys, newKeys := SortedKeys(m.Keys), SortedKeys(n.Keys);
    var mid := Edited(keys, n, m);
    KeysOnce(m.Keys);
    KeysOnce(n.Keys);
    ExtendedEdited(m, keys, n, newKeys);
    MembersReplay(s, keys, n, m);
    NewReplay(m, newKeys, n, mid);
    ReplayAppend(s, MemberEdits(s, keys, n), Object(mid), NewMembers(m, newKeys, n), t);
  }

  lemma {:induction false} ArrayReplays(xs: seq<Json>, ys: seq<Json>)
    requires |xs| <= SIZE_MAX && forall i | 0 <= i < |xs| :: FitsMemory(xs[i])
    ensures var n := Min(|xs|, |ys|);
            Replays(Array(xs), CommonEdits(xs, ys, n) + Removals(n, |xs|) + Appends(ys[n..]), Array(ys))
    decreases xs, 1, 0
  {
    hide CommonEdits, Removals, Appends, Replays, FitsMemory;
    var n := Min(|xs|, |ys|);
    CommonReplays(xs, ys, n);
    var mixed := ys[..n] + xs[n..];
    RemovalsReplay(mixed, n);
    assert mixed[..n] == ys[..n];
    ReplayAppend(Array(xs), CommonEdits(xs, ys, n), Array(mixed), Removals(n, |xs|), Array(ys[..n]));
    if |xs| > n {
      assert ys[..n] == ys && ys[n..] == [];
    }
    AppendsReplay(ys[..n], ys[n..]);
    assert ys[..n] + ys[n..] == ys;
    ReplayAppend(Array(xs), CommonEdits(xs, ys, n) + Removals(n, |xs|), Array(ys[..n]),
                 Appends(ys[n..]), Array(ys));
  }

  /** The edits of the first n elements turn exactly those elements into the target's. */
  lemma {:induction false} CommonReplays(xs: seq<Json>, ys: seq<Json>, n: nat)
    requires n <= |xs| && n <= |ys| && |xs| <= SIZE_MAX && forall i | 0 <= i < |xs| :: FitsMemory(xs[i])
    ensures Replays(Array(xs), CommonEdits(xs, ys, n), Array(ys[..n] + xs[n..]))
    decreases xs, 0, n
  {
    if n == 0 {
      assert ys[..0] + xs[0..] == xs;
    } else {
      hide DiffOps, AllBelow, Replays, Decimal, ArrayIndex, FitsMemory;
      var i, token := n - 1, Decimal(n - 1);
      var mid := ys[..i] + xs[i..];
      CommonReplays(xs, ys, i);
      DiffReplays(xs[i], ys[i]);
      DiffNestable(xs[i], ys[i]);
      IndexChild(mid, i);
      assert mid[i] == xs[i];
      ReplayBelow(Array(mid), token, DiffOps(xs[i], ys[i]), ys[i]);
      NextCommon(xs, ys, i);
      ReplayAppend(Array(xs), CommonEdits(xs, ys, i), Array(mid),
                   AllBelow(token, DiffOps(xs[i], ys[i])), Array(ys[..n] + xs[n..]));
    }
  }

  lemma NextCommon(xs: seq<Json>, ys: seq<Json>, i: nat)
    requires i < |xs| && i < |ys|
    ensures (ys[..i] + xs[i..])[i := ys[i]] == ys[..i + 1] + xs[i + 1..]
  {
  }

  /** A printed index finds its element. */
  lemma IndexChild(items: seq<Json>, i: nat)
    requires i < |items| <= SIZE_MAX
    ensures ArrayIndex(Decimal(i)) == Ok(i) && Child(Array(items), Decimal(i)) == Ok(items[i])
    ensures [Decimal(i)][1..] == []
  {
    ArrayIndexIffPrinted(Decimal(i), i);
    DecimalRoundTrip(i);
    assert Decimal(i) != "-" by {
      assert IsDigit(Decimal(i)[0]);
    }
  }

  /** Removing from the top leaves the lower elements where they were. */
  lemma {:induction false} RemovalsReplay(items: seq<Json>, lo: nat)
    requires lo <= |items| <= SIZE_MAX
    ensures Replays(Array(items), Removals(lo, |items|), Array(items[..lo]))
    decreases |items|
  {
    if lo == |items| {
      assert items[..lo] == items;
    } else {
      var i := |items| - 1;
      IndexChild(items, i);
      var path := [Decimal(i)];
      OneStep(Array(items), path, Null);
      assert items[..i] + items[i + 1..] == items[..i];
      assert Apply(Array(items), Remove(path)) == Ok(Array(items[..i]));
      RemovalsReplay(items[..i], lo);
      assert items[..i][..lo] == items[..lo];
      var ops := Removals(lo, |items|);
      assert ops[0] == Remove(path) && ops[1..] == Removals(lo, i);
    }
  }

  lemma {:induction false} AppendsReplay(items: seq<Json>, ys: seq<Json>)
    ensures Replays(Array(items), Appends(ys), Array(items + ys))
    decreases |ys|
  {
    if ys == [] {
      assert items + ys == items;
    } else {
      var path: Path := ["-"];
      CanAddSteps(Array(items), path);
      assert Apply(Array(items), Add(path, ys[0])) == Ok(Array(items + [ys[0]]));
      AppendsReplay(items + [ys[0]], ys[1..]);
      assert items + [ys[0]] + ys[1..] == items + ys;
      var ops := Appends(ys);
      assert ops[0] == Add(path, ys[0]) && ops[1..] == Appends(ys[1..]);
    }
  }

  /** `cur` after the edits of the members in `keys`: those of the target take its value, the others go. */
  function Edited(keys: seq<string>, t: map<string, Json>, cur: map<string, Json>): map<string, Json> {
    map k | k in cur && (k in keys ==> k in t) :: if k in keys then t[k] else cur[k]
  }

  lemma {:induction false} MemberReplays(s: Json, k: string, t: map<string, Json>, cur: map<string, Json>)
    requires s.Object? && FitsMemory(s) && k in s.members && k in cur && cur[k] == s.members[k]
    ensures Replays(Object(cur), MemberEdit(s, k, t), Object(if k in t then cur[k := t[k]] else cur - {k}))
    decreases s, 0, 0
  {
    hide DiffOps, AllBelow, Replays;
    if k in t {
      DiffReplays(s.members[k], t[k]);
      DiffNestable(s.members[k], t[k]);
      ReplayBelow(Object(cur), k, DiffOps(s.members[k], t[k]), t[k]);
    } else {
      var path := [k];
      OneStep(Object(cur), path, Null);
      ReplayOne(Object(cur), Remove(path), Object(cur - {k}));
    }
  }

  lemma EditedStep(keys: seq<string>, t: map<string, Json>, cur: map<string, Json>)
    requires keys != [] && keys[0] !in keys[1..] && keys[0] in cur
    ensures var k := keys[0];
            Edited(keys[1..], t, if k in t then cur[k := t[k]] else cur - {k}) == Edited(keys, t, cur)
  {
    assert keys == [keys[0]] + keys[1..];
  }

  lemma {:induction false} MembersReplay(s: Json, keys: seq<string>, t: map<string, Json>, cur: map<string, Json>)
    requires s.Object? && FitsMemory(s)
    requires forall k | k in keys :: k in s.members && k in cur && cur[k] == s.members[k]
    requires Distinct(keys)
    ensures Replays(Object(cur), MemberEdits(s, keys, t), Object(Edited(keys, t, cur)))
    decreases s, 0, |keys|
  {
    hide DiffOps, AllBelow, FitsMemory;
    if keys == [] {
      assert Edited(keys, t, cur) == cur;
    } else {
      var k, rest := keys[0], keys[1..];
      var next := if k in t then cur[k := t[k]] else cur - {k};
      MemberReplays(s, k, t, cur);
      EditedStep(keys, t, cur);
      MembersReplay(s, rest, t, next);
      ReplayAppend(Object(cur), MemberEdit(s, k, t), Object(next), MemberEdits(s, rest, t),
                   Object(Edited(keys, t, cur)));
    }
  }

  /** `cur` with the members of `t` named in `keys` that `s` lacks. */
  function Extended(s: map<string, Json>, keys: seq<string>, t: map<string, Json>,
                    cur: map<string, Json>): map<string, Json> {
    cur + map k | k in t && k in keys && k !in s :: t[k]
  }

  lemma ExtendedStep(s: map<string, Json>, keys: seq<string>, t: map<string, Json>, cur: map<string, Json>)
    requires keys != []
    ensures var k := keys[0];
            var next := if k in t && k !in s then cur[k := t[k]] else cur;
            Extended(s, keys[1..], t, next) == Extended(s, keys, t, cur)
  {
    assert keys == [keys[0]] + keys[1..];
  }

  lemma {:induction false} NewReplay(s: map<string, Json>, keys: seq<string>, t: map<string, Json>,
                                     cur: map<string, Json>)
    ensures Replays(Object(cur), NewMembers(s, keys, t), Object(Extended(s, keys, t, cur)))
    decreases |keys|
  {
    if keys == [] {
      assert Extended(s, keys, t, cur) == cur;
    } else {
      var k, rest := keys[0], keys[1..];
      var end := Extended(s, keys, t, cur);
      ExtendedStep(s, keys, t, cur);
      if k in t && k !in s {
        var path := [k];
        var next := cur[k := t[k]];
        CanAddSteps(Object(cur), path);
        ReplayOne(Object(cur), Add(path, t[k]), Object(next));
        NewReplay(s, rest, t, next);
        ReplayAppend(Object(cur), [Add(path, t[k])], Object(next), NewMembers(s, rest, t), Object(end));
      } else {
        NewReplay(s, rest, t, cur);
        assert NewMembers(s, keys, t) == NewMembers(s, rest, t);
      }
    }
  }
}
