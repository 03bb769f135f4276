/** diff as it is called: two trees in, a patch document out. */
module JsonDiffDocument {
  import opened Results
  import opened Text
  import opened Sequences
  import opened JsonValue
  import opened JsonPointer
  import opened JsonPatch
  import opened JsonPatchLaws
  import opened JsonDiff

  // ----- writing edits below a child -----

  lemma {:induction false} PlainEscape(s: string)
    requires '~' !in s && '/' !in s
    ensures Escape(s) == s
  {
    if s != "" {
      PlainEscape(s[1..]);
      EscapeHead(s);
    }
  }

  /** Indices and the append mark are written as they are. */
  lemma IndexEscape(i: nat)
    ensures Escape(Decimal(i)) == Decimal(i) && Escape("-") == "-"
  {
    DecimalRoundTrip(i);
    PlainEscape(Decimal(i));
    PlainEscape("-");
  }

  lemma SegmentText(token: string)
    ensures ToString([token]) == "/" + Escape(token)
  {
    assert [token][1..] == [];
    assert "/" + Escape(token) + "" == "/" + Escape(token);
  }

  lemma EncodeBelow(base: string, token: string, op: Op)
    ensures Encode(base, Below(token, op)) == Encode(base + "/" + Escape(token), op)
  {
    PathBelow(base, token, op.path);
    if op.Move? || op.Copy? {
      PathBelow(base, token, op.from);
    }
  }

  lemma PathBelow(base: string, token: string, path: Path)
    ensures base + ToString([token] + path) == (base + "/" + Escape(token)) + ToString(path)
  {
    ToStringAppend([token], path);
    SegmentText(token);
    Assoc(base, "/" + Escape(token), ToString(path));
    Assoc(base, "/", Escape(token));
  }

  /** The edits of a child, written from the parent, are the edits of the child written with the
      child's token appended to the base path. */
  lemma {:induction false} EncodeAllBelow(base: string, token: string, ops: seq<Op>)
    ensures EncodeAll(base, AllBelow(token, ops)) == EncodeAll(base + "/" + Escape(token), ops)
  {
    if ops != [] {
      EncodeBelow(base, token, ops[0]);
      EncodeAllBelow(base, token, ops[1..]);
      var all := AllBelow(token, ops);
      assert all[0] == Below(token, ops[0]) && all[1..] == AllBelow(token, ops[1..]);
    }
  }

  lemma EncodeOne(base: string, op: Op)
    ensures EncodeAll(base, [op]) == [Encode(base, op)]
  {
    assert [op][1..] == [];
  }

  // ----- diff -----

  function ReplaceElement(path: string, v: Json): Json {
    Object(map["op" := String("replace"), "path" := String(path), "value" := v])
  }

  function RemoveElement(path: string): Json {
    Object(map["op" := String("remove"), "path" := String(path)])
  }

  function AddElement(path: string, v: Json): Json {
    Object(map["op" := String("add"), "path" := String(path), "value" := v])
  }

  /** What diff writes for an edit of one child. */
  lemma Elements(path: string, token: string, v: Json)
    ensures Encode(path, Replace([], v)) == ReplaceElement(path, v)
    ensures Encode(path, Remove([token])) == RemoveElement(path + "/" + Escape(token))
    ensures Encode(path, Add([token], v)) == AddElement(path + "/" + Escape(token), v)
  {
    SegmentText(token);
    Assoc(path, "/", Escape(token));
    assert path + "" == path;
  }

  /** The patch document that diff returns for edits located at `path`. */
  function DiffDocument(source: Json, target: Json, path: string): Json {
    Array(EncodeAll(path, DiffOps(source, target)))
  }

  /** basic_json::diff. */
  method Diff(source: Json, target: Json, path: string) returns (result: Json)
    ensures result == DiffDocument(source, target, path)
    decreases source, 1
  {
    if Equal(source, target) {
      return Array([]);
    }
    if Rank(source) != Rank(target) {
      Elements(path, "", target);
      EncodeOne(path, Replace([], target));
      return Array([ReplaceElement(path, target)]);
    }
    match source {
      case Array(xs) =>
        var edits := DiffArrays(xs, target.items, path);
        return Array(edits);
      case Object(m) =>
        var edits := DiffObjects(source, target, path);
        return Array(edits);
      case _ =>
        Elements(path, "", target);
        EncodeOne(path, Replace([], target));
        return Array([ReplaceElement(path, target)]);
    }
  }

  lemma CommonStep(path: string, xs: seq<Json>, ys: seq<Json>, i: nat)
    requires i < |xs| && i < |ys|
    ensures EncodeAll(path, CommonEdits(xs, ys, i + 1))
            == EncodeAll(path, CommonEdits(xs, ys, i))
               + EncodeAll(path + "/" + Decimal(i), DiffOps(xs[i], ys[i]))
  {
    IndexEscape(i);
    EncodeAllBelow(path, Decimal(i), DiffOps(xs[i], ys[i]));
    EncodeAllAppend(path, CommonEdits(xs, ys, i), AllBelow(Decimal(i), DiffOps(xs[i], ys[i])));
  }

  lemma RemovalStep(path: string, n: nat, i: nat)
    requires n <= i
    ensures EncodeAll(path, Removals(n, i + 1))
            == [RemoveElement(path + "/" + Decimal(i))] + EncodeAll(path, Removals(n, i))
  {
    IndexEscape(i);
    Elements(path, Decimal(i), Null);
    var ops := Removals(n, i + 1);
    assert ops[0] == Remove([Decimal(i)]) && ops[1..] == Removals(n, i);
  }

  lemma AppendStep(path: string, ys: seq<Json>, i: nat)
    requires i < |ys|
    ensures EncodeAll(path, Appends(ys[i..]))
            == [AddElement(path + "/-", ys[i])] + EncodeAll(path, Appends(ys[i + 1..]))
  {
    IndexEscape(i);
    Elements(path, "-", ys[i]);
    assert path + "/" + "-" == path + "/-";
    var ops := Appends(ys[i..]);
    assert ys[i..][0] == ys[i] && ys[i..][1..] == ys[i + 1..];
    assert ops[0] == Add(["-"], ys[i]) && ops[1..] == Appends(ys[i + 1..]);
  }

  lemma ThreeParts(path: string, a: seq<Op>, b: seq<Op>, c: seq<Op>)
    ensures EncodeAll(path, a + b + c) == EncodeAll(path, a) + EncodeAll(path, b) + EncodeAll(path, c)
  {
    EncodeAllAppend(path, a, b);
    EncodeAllAppend(path, a + b, c);
  }

  method DiffArrays(xs: seq<Json>, ys: seq<Json>, path: string) returns (result: seq<Json>)
    ensures var n := Min(|xs|, |ys|);
            result == EncodeAll(path, CommonEdits(xs, ys, n) + Removals(n, |xs|) + Appends(ys[n..]))
    decreases xs, 1
  {
    ghost var n := Min(|xs|, |ys|);
    var i;
    result, i := DiffCommon(xs, ys, path);
    result, i := RemoveRest(result, i, xs, path);
    result := AppendRest(result, i, ys, path);
    ThreeParts(path, CommonEdits(xs, ys, n), Removals(n, |xs|), Appends(ys[n..]));
    if |xs| > n {
      assert ys[n..] == [];
    }
  }

  /** First pass: the common elements. */
  method DiffCommon(xs: seq<Json>, ys: seq<Json>, path: string) returns (result: seq<Json>, i: nat)
    ensures i == Min(|xs|, |ys|)
    ensures result == EncodeAll(path, CommonEdits(xs, ys, i))
    decreases xs, 0
  {
    result := [];
    i := 0;
    while i < |xs| && i < |ys|
      invariant i <= |xs| && i <= |ys|
      invariant result == EncodeAll(path, CommonEdits(xs, ys, i))
    {
      var temp := Diff(xs[i], ys[i], path + "/" + Decimal(i));
      CommonStep(path, xs, ys, i);
      result := result + temp.items;
      i := i + 1;
    }
  }

  /** Second pass: the rest of the source. Each removal is put at the same place, before the earlier ones. */
  method RemoveRest(common: seq<Json>, from: nat, xs: seq<Json>, path: string) returns (result: seq<Json>, i: nat)
    requires from <= |xs|
    ensures i == |xs| && result == common + EncodeAll(path, Removals(from, |xs|))
  {
    result := common;
    i := from;
    var endIndex := |result|;
    while i < |xs|
      invariant from <= i <= |xs|
      invariant result == common + EncodeAll(path, Removals(from, i))
    {
      RemovalStep(path, from, i);
      ghost var removals := EncodeAll(path, Removals(from, i));
      assert result[..endIndex] == common && result[endIndex..] == removals;
      result := result[..endIndex] + [RemoveElement(path + "/" + Decimal(i))] + result[endIndex..];
      i := i + 1;
    }
  }

  /** The rest of the target, appended in order. */
  method AppendRest(edits: seq<Json>, from: nat, ys: seq<Json>, path: string) returns (result: seq<Json>)
    ensures result == edits + EncodeAll(path, Appends(if from <= |ys| then ys[from..] else []))
  {
    result := edits;
    var i := from;
    while i < |ys|
      invariant from <= i
      invariant i > |ys| ==> i == from && result == edits
      invariant i <= |ys| ==>
        result + EncodeAll(path, Appends(ys[i..])) == edits + EncodeAll(path, Appends(ys[from..]))
    {
      AppendStep(path, ys, i);
      ghost var rest := EncodeAll(path, Appends(ys[i + 1..]));
      Assoc(result, [AddElement(path + "/-", ys[i])], rest);
      result := result + [AddElement(path + "/-", ys[i])];
      i := i + 1;
    }
  }

  /** What one member of the source contributes. */
  lemma MemberStep(path: string, s: Json, keys: seq<string>, t: map<string, Json>)
    requires s.Object? && keys != [] && forall k | k in keys :: k in s.members
    ensures var k := keys[0];
            EncodeAll(path, MemberEdits(s, keys, t))
            == (if k in t then EncodeAll(path + "/" + Escape(k), DiffOps(s.members[k], t[k]))
                else [RemoveElement(path + "/" + Escape(k))])
               + EncodeAll(path, MemberEdits(s, keys[1..], t))
  {
    var k := keys[0];
    var rest := MemberEdits(s, keys[1..], t);
    if k in t {
      EncodeAllBelow(path, k, DiffOps(s.members[k], t[k]));
      EncodeAllAppend(path, AllBelow(k, DiffOps(s.members[k], t[k])), rest);
    } else {
      Elements(path, k, Null);
      EncodeOne(path, Remove([k]));
      EncodeAllAppend(path, [Remove([k])], rest);
    }
  }

  /** What one member of the target contributes. */
  lemma NewStep(path: string, s: map<string, Json>, keys: seq<string>, t: map<string, Json>)
    requires keys != [] && keys[0] in t
    ensures var k := keys[0];
            EncodeAll(path, NewMembers(s, keys, t))
            == (if k in s then [] else [AddElement(path + "/" + Escape(k), t[k])])
               + EncodeAll(path, NewMembers(s, keys[1..], t))
  {
    var k := keys[0];
    var rest := NewMembers(s, keys[1..], t);
    if k in s {
      assert [] + rest == rest;
    } else {
      Elements(path, k, t[k]);
      EncodeOne(path, Add([k], t[k]));
      EncodeAllAppend(path, [Add([k], t[k])], rest);
    }
  }

  method DiffObjects(source: Json, target: Json, path: string) returns (result: seq<Json>)
    requires source.Object? && target.Object?
    ensures forall k :: k in SortedKeys(source.members.Keys) ==> k in source.members
    ensures result == EncodeAll(path, MemberEdits(source, SortedKeys(source.members.Keys), target.members)
                              + NewMembers(source.members, SortedKeys(target.members.Keys), target.members))
    decreases source, 0, 1
  {
    var m, n := source.members, target.members;
    SortedKeysElements(m.Keys);
    SortedKeysElements(n.Keys);
    var keys, newKeys := SortedKeys(m.Keys), SortedKeys(n.Keys);
    result := DiffMembers(source, keys, n, path);
    result := AddMissing(result, m, newKeys, n, path);
    EncodeAllAppend(path, MemberEdits(source, keys, n), NewMembers(m, newKeys, n));
  }

  /** What the members of the source from the j-th on contribute. */
  ghost function MembersFrom(path: string, s: Json, keys: seq<string>, j: nat, t: map<string, Json>): seq<Json>
    requires s.Object? && j <= |keys| && forall k | k in keys :: k in s.members
  {
    EncodeAll(path, MemberEdits(s, keys[j..], t))
  }

  lemma MemberTurn(path: string, s: Json, keys: seq<string>, j: nat, t: map<string, Json>,
                   done: seq<Json>, edits: seq<Json>)
    requires s.Object? && j < |keys| && forall k | k in keys :: k in s.members
    requires edits == if keys[j] in t
                      then DiffDocument(s.members[keys[j]], t[keys[j]], path + "/" + Escape(keys[j])).items
                      else [RemoveElement(path + "/" + Escape(keys[j]))]
    ensures done + MembersFrom(path, s, keys, j, t) == (done + edits) + MembersFrom(path, s, keys, j + 1, t)
  {
    hide EncodeAll, MemberEdits, DiffOps;
    assert keys[j..][0] == keys[j] && keys[j..][1..] == keys[j + 1..];
    MemberStep(path, s, keys[j..], t);
    Assoc(done, edits, MembersFrom(path, s, keys, j + 1, t));
  }

  lemma MembersEnds(path: string, s: Json, keys: seq<string>, t: map<string, Json>)
    requires s.Object? && forall k | k in keys :: k in s.members
    ensures MembersFrom(path, s, keys, 0, t) == EncodeAll(path, MemberEdits(s, keys, t))
    ensures MembersFrom(path, s, keys, |keys|, t) == []
  {
    assert keys[0..] == keys;
  }

  /** First pass: the members of the source. */
  method DiffMembers(source: Json, keys: seq<string>, n: map<string, Json>, path: string)
    returns (result: seq<Json>)
    requires source.Object? && forall k | k in keys :: k in source.members
    ensures result == EncodeAll(path, MemberEdits(source, keys, n))
    decreases source, 0, 0
  {
    result := [];
    var j := 0;
    MembersEnds(path, source, keys, n);
    while j < |keys|
      invariant 0 <= j <= |keys|
      invariant result + MembersFrom(path, source, keys, j, n) == MembersFrom(path, source, keys, 0, n)
    {
      var k := keys[j];
      var edits;
      if k in n {
        var temp := Diff(source.members[k], n[k], path + "/" + Escape(k));
        edits := temp.items;
      } else {
        edits := [RemoveElement(path + "/" + Escape(k))];
      }
      MemberTurn(path, source, keys, j, n, result, edits);
      result := result + edits;
      j := j + 1;
    }
  }

  /** Second pass: the members only the target has. */
  method AddMissing(edits: seq<Json>, m: map<string, Json>, keys: seq<string>, n: map<string, Json>, path: string)
    returns (result: seq<Json>)
    requires forall k | k in keys :: k in n
    ensures result == edits + EncodeAll(path, NewMembers(m, keys, n))
  {
    result := edits;
    var j := 0;
    assert keys[0..] == keys;
    while j < |keys|
      invariant 0 <= j <= |keys|
      invariant result + EncodeAll(path, NewMembers(m, keys[j..], n))
                == edits + EncodeAll(path, NewMembers(m, keys, n))
    {
      var k := keys[j];
      assert keys[j..][0] == k && keys[j..][1..] == keys[j + 1..];
      NewStep(path, m, keys[j..], n);
      ghost var rest := EncodeAll(path, NewMembers(m, keys[j + 1..], n));
      if k !in m {
        var element := AddElement(path + "/" + Escape(k), n[k]);
        Assoc(result, [element], rest);
        result := result + [element];
      }
      j := j + 1;
    }
  }

  // ----- the documented invariant -----

  /** source.patch(diff(source, target)) == target, for all trees. */
  lemma PatchOfDiff(source: Json, target: Json)
    requires FitsMemory(source)
    ensures PatchOf(source, DiffDocument(source, target, "")) == Ok(target)
  {
    DiffReplays(source, target);
    ReplayIsApply(source, DiffOps(source, target), target);
    PatchEncoded(source, DiffOps(source, target));
  }

  /** Replaying the edits never fails half-way, and every single edit is one that RFC 6902 allows on
      the document it meets: its target exists, or its parent exists and can hold the new value. */
  lemma EveryEditApplies(source: Json, target: Json, k: nat)
    requires FitsMemory(source) && k <= |DiffOps(source, target)|
    ensures ApplyAll(source, DiffOps(source, target)[..k]).Ok?
    ensures k < |DiffOps(source, target)| ==>
      Applicable(ApplyAll(source, DiffOps(source, target)[..k]).value, DiffOps(source, target)[k])
  {
    DiffReplays(source, target);
    ReplayPrefix(source, DiffOps(source, target), target, k);
  }

  lemma {:induction false} ReplayPrefix(doc: Json, ops: seq<Op>, end: Json, k: nat)
    requires Replays(doc, ops, end) && k <= |ops|
    ensures ApplyAll(doc, ops[..k]).Ok?
    ensures k < |ops| ==> Applicable(ApplyAll(doc, ops[..k]).value, ops[k])
    decreases k
  {
    if k > 0 {
      ReplayPrefix(Apply(doc, ops[0]).value, ops[1..], end, k - 1);
      assert ops[..k][0] == ops[0] && ops[..k][1..] == ops[1..][..k - 1];
    }
  }

  /** diff at a location is diff at the root with that location's path put before every path. */
  lemma DiffAtLocation(source: Json, target: Json, at: Path)
    ensures DiffDocument(source, target, ToString(at))
            == Array(EncodeAll("", AllPrefixed(at, DiffOps(source, target))))
  {
    EncodeAllPrefixed(at, DiffOps(source, target));
  }

  lemma {:induction false} EncodeAllPrefixed(at: Path, ops: seq<Op>)
    ensures EncodeAll(ToString(at), ops) == EncodeAll("", AllPrefixed(at, ops))
  {
    if ops != [] {
      EncodePrefixed(at, ops[0]);
      EncodeAllPrefixed(at, ops[1..]);
      var all := AllPrefixed(at, ops);
      assert all[0] == Prefixed(at, ops[0]) && all[1..] == AllPrefixed(at, ops[1..]);
    }
  }

  lemma EncodePrefixed(at: Path, op: Op)
    ensures Encode(ToString(at), op) == Encode("", Prefixed(at, op))
  {
    ToStringAppend(at, op.path);
    assert "" + ToString(at + op.path) == ToString(at + op.path);
    if op.Move? || op.Copy? {
      ToStringAppend(at, op.from);
      assert "" + ToString(at + op.from) == ToString(at + op.from);
    }
  }

  /** Patching a document with the difference at a location replaces the value there, and nothing else:
      doc.patch(diff(doc.at(p), target, p)) is doc with target at p. */
  lemma PatchOfDiffAt(doc: Json, at: Path, target: Json)
    requires Exists(doc, at) && FitsMemory(Resolve(doc, at).value)
    ensures PatchOf(doc, DiffDocument(Resolve(doc, at).value, target, ToString(at))) == Store(doc, at, target)
    ensures Store(doc, at, target).Ok?
  {
    hide Replays, DiffOps, FitsMemory, AllNestable;
    var source := Resolve(doc, at).value;
    var ops := AllPrefixed(at, DiffOps(source, target));
    DiffReplays(source, target);
    DiffNestable(source, target);
    ReplayAt(doc, at, DiffOps(source, target), target);
    ReplayIsApply(doc, ops, Store(doc, at, target).value);
    DiffAtLocation(source, target, at);
    PatchEncoded(doc, ops);
  }

  /** The edits of two locations of which neither lies within the other can be replayed in either order. */
  lemma ApartCommute(doc: Json, a: Path, opsA: seq<Op>, endA: Json, b: Path, opsB: seq<Op>, endB: Json)
    requires Apart(a, b) && Exists(doc, a) && Exists(doc, b)
    requires AllNestable(opsA) && AllNestable(opsB)
    requires Replays(Resolve(doc, a).value, opsA, endA)
    requires Replays(Resolve(doc, b).value, opsB, endB)
    ensures ApplyAll(doc, AllPrefixed(a, opsA) + AllPrefixed(b, opsB)).Ok?
    ensures ApplyAll(doc, AllPrefixed(a, opsA) + AllPrefixed(b, opsB))
            == ApplyAll(doc, AllPrefixed(b, opsB) + AllPrefixed(a, opsA))
  {
    hide Replays, AllNestable, AllPrefixed;
    TwoPlaces(doc, a, endA, b, endB);
    OneThenOther(doc, a, opsA, endA, b, opsB, endB);
    OneThenOther(doc, b, opsB, endB, a, opsA, endA);
  }

  /** So the differences at two such locations can be written into one patch in either order. */
  lemma DiffsCommute(doc: Json, a: Path, x: Json, b: Path, y: Json)
    requires Apart(a, b) && Exists(doc, a) && Exists(doc, b)
    requires FitsMemory(Resolve(doc, a).value) && FitsMemory(Resolve(doc, b).value)
    ensures var atA := DiffDocument(Resolve(doc, a).value, x, ToString(a)).items;
            var atB := DiffDocument(Resolve(doc, b).value, y, ToString(b)).items;
            && PatchOf(doc, Array(atA + atB)).Ok?
            && PatchOf(doc, Array(atA + atB)) == PatchOf(doc, Array(atB + atA))
  {
    hide Replays, AllNestable, AllPrefixed, DiffOps, FitsMemory, Resolve, PatchOf, EncodeAll, ToString;
    var s, t := Resolve(doc, a).value, Resolve(doc, b).value;
    var opsA, opsB := AllPrefixed(a, DiffOps(s, x)), AllPrefixed(b, DiffOps(t, y));
    DiffReplays(s, x);
    DiffReplays(t, y);
    DiffNestable(s, x);
    DiffNestable(t, y);
    ApartCommute(doc, a, DiffOps(s, x), x, b, DiffOps(t, y), y);
    DiffAtLocation(s, x, a);
    DiffAtLocation(t, y, b);
    EncodeAllAppend("", opsA, opsB);
    EncodeAllAppend("", opsB, opsA);
    PatchEncoded(doc, opsA + opsB);
    PatchEncoded(doc, opsB + opsA);
  }

  lemma OneThenOther(doc: Json, a: Path, opsA: seq<Op>, endA: Json, b: Path, opsB: seq<Op>, endB: Json)
    requires Exists(doc, a) && Exists(doc, b)
    requires Store(doc, a, endA).Ok? && Resolve(Store(doc, a, endA).value, b) == Resolve(doc, b)
    requires AllNestable(opsA) && AllNestable(opsB)
    requires Replays(Resolve(doc, a).value, opsA, endA)
    requires Replays(Resolve(doc, b).value, opsB, endB)
    ensures ApplyAll(doc, AllPrefixed(a, opsA) + AllPrefixed(b, opsB)) == Store(Store(doc, a, endA).value, b, endB)
  {
    hide Replays, AllNestable, AllPrefixed;
    var mid := Store(doc, a, endA).value;
    ReplayAt(doc, a, opsA, endA);
    ReplayAt(mid, b, opsB, endB);
    var end := Store(mid, b, endB).value;
    ReplayAppend(doc, AllPrefixed(a, opsA), mid, AllPrefixed(b, opsB), end);
    ReplayIsApply(doc, AllPrefixed(a, opsA) + AllPrefixed(b, opsB), end);
  }

  // ----- when the edit list is empty -----

  /** diff is silent exactly on equal values. */
  lemma EmptyDiffIffEqual(source: Json, target: Json, path: string)
    ensures DiffDocument(source, target, path) == Array([]) <==> Equal(source, target)
  {
    SilentIsEqual(source, target);
    EqualIsIdentity(source, target);
  }

  lemma {:induction false} SilentIsEqual(s: Json, t: Json)
    ensures DiffOps(s, t) == [] ==> s == t
    decreases s, 2, 0
  {
    EqualIsIdentity(s, t);
    if !Equal(s, t) {
      if s.Array? && t.Array? {
        SilentArray(s.items, t.items);
      } else if s.Object? && t.Object? {
        KeysOnce(s.members.Keys);
        KeysOnce(t.members.Keys);
        SilentObject(s, SortedKeys(s.members.Keys), t, SortedKeys(t.members.Keys));
      }
    }
  }

  lemma {:induction false} SilentArray(xs: seq<Json>, ys: seq<Json>)
    ensures var n := Min(|xs|, |ys|);
            CommonEdits(xs, ys, n) + Removals(n, |xs|) + Appends(ys[n..]) == [] ==> xs == ys
    decreases xs, 1, 0
  {
    hide CommonEdits, Removals, Appends;
    var n := Min(|xs|, |ys|);
    SilentCommon(xs, ys, n);
    RemovalsLength(n, |xs|);
    AppendsLength(ys[n..]);
    assert xs == xs[..n] + xs[n..] && ys == ys[..n] + ys[n..];
  }

  lemma {:induction false} SilentCommon(xs: seq<Json>, ys: seq<Json>, n: nat)
    requires n <= |xs| && n <= |ys|
    ensures CommonEdits(xs, ys, n) == [] ==> xs[..n] == ys[..n]
    decreases xs, 0, n
  {
    if n > 0 {
      hide DiffOps, AllBelow;
      var i := n - 1;
      SilentCommon(xs, ys, i);
      SilentIsEqual(xs[i], ys[i]);
      OneMore(xs, i);
      OneMore(ys, i);
    }
  }

  lemma {:induction false} SilentObject(s: Json, keys: seq<string>, t: Json, newKeys: seq<string>)
    requires s.Object? && t.Object?
    requires forall k :: k in keys <==> k in s.members
    requires forall k :: k in newKeys <==> k in t.members
    ensures MemberEdits(s, keys, t.members) + NewMembers(s.members, newKeys, t.members) == [] ==> s == t
    decreases s, 1, 0
  {
    hide MemberEdits, NewMembers;
    var m, n := s.members, t.members;
    SilentMembers(s, keys, n);
    SilentNew(m, newKeys, n);
    if MemberEdits(s, keys, n) == [] && NewMembers(m, newKeys, n) == [] {
      assert m.Keys == n.Keys;
      assert forall k | k in m :: k in keys && n[k] == m[k];
      assert m == n;
    }
  }

  lemma {:induction false} SilentMembers(s: Json, keys: seq<string>, t: map<string, Json>)
    requires s.Object? && forall k | k in keys :: k in s.members
    ensures MemberEdits(s, keys, t) == [] ==> forall k | k in keys :: k in t && t[k] == s.members[k]
    decreases s, 0, |keys|
  {
    if keys != [] {
      var k := keys[0];
      assert MemberEdits(s, keys, t) == [] ==> MemberEdit(s, k, t) == [];
      SilentMembers(s, keys[1..], t);
      if k in t {
        SilentIsEqual(s.members[k], t[k]);
      }
      assert keys == [k] + keys[1..];
    }
  }

  lemma {:induction false} SilentNew(s: map<string, Json>, keys: seq<string>, t: map<string, Json>)
    ensures NewMembers(s, keys, t) == [] ==> forall k | k in keys && k in t :: k in s
  {
    if keys != [] {
      SilentNew(s, keys[1..], t);
      assert keys == [keys[0]] + keys[1..];
    }
  }

  // ----- how long the edit list is -----

  lemma {:induction false} BoundedLength(s: Json, t: Json)
    ensures |DiffOps(s, t)| <= Nodes(s) + Nodes(t) - 1
    decreases s, 2, 0
  {
    if !Equal(s, t) {
      if s.Array? && t.Array? {
        ArrayLength(s.items, t.items);
      } else if s.Object? && t.Object? {
        KeysOnce(s.members.Keys);
        KeysOnce(t.members.Keys);
        ObjectLength(s, SortedKeys(s.members.Keys), t, SortedKeys(t.members.Keys));
      }
    }
  }

  lemma {:induction false} ArrayLength(xs: seq<Json>, ys: seq<Json>)
    ensures var n := Min(|xs|, |ys|);
            |CommonEdits(xs, ys, n) + Removals(n, |xs|) + Appends(ys[n..])| <= NodesOf(xs) + NodesOf(ys)
    decreases xs, 2, 0
  {
    hide CommonEdits, Removals, Appends, NodesOf;
    var n := Min(|xs|, |ys|);
    CommonLength(xs, ys, n);
    RemovalsLength(n, |xs|);
    AppendsLength(ys[n..]);
    NodesCount(xs[n..]);
    NodesCount(ys[n..]);
    NodesOfAppend(xs[..n], xs[n..]);
    NodesOfAppend(ys[..n], ys[n..]);
    assert xs == xs[..n] + xs[n..] && ys == ys[..n] + ys[n..];
  }

  lemma {:induction false} NodesCount(items: seq<Json>)
    ensures |items| <= NodesOf(items)
  {
    if items != [] {
      NodesCount(items[1..]);
    }
  }

  lemma {:induction false} CommonLength(xs: seq<Json>, ys: seq<Json>, n: nat)
    requires n <= |xs| && n <= |ys|
    ensures |CommonEdits(xs, ys, n)| <= NodesOf(xs[..n]) + NodesOf(ys[..n])
    decreases xs, 1, n
  {
    if n > 0 {
      hide DiffOps, AllBelow, Nodes, NodesOf;
      CommonLength(xs, ys, n - 1);
      BoundedLength(xs[n - 1], ys[n - 1]);
      OneMore(xs, n - 1);
      OneMore(ys, n - 1);
      NodesOfAppend(xs[..n - 1], [xs[n - 1]]);
      NodesOfAppend(ys[..n - 1], [ys[n - 1]]);
      NodesOfOne(xs[n - 1]);
      NodesOfOne(ys[n - 1]);
    }
  }

  lemma {:induction false} RemovalsLength(lo: nat, hi: nat)
    requires lo <= hi
    ensures |Removals(lo, hi)| == hi - lo
    decreases hi
  {
    if lo < hi {
      RemovalsLength(lo, hi - 1);
    }
  }

  lemma {:induction false} AppendsLength(ys: seq<Json>)
    ensures |Appends(ys)| == |ys|
  {
    if ys != [] {
      AppendsLength(ys[1..]);
    }
  }

  /** The keys that `m` lacks. */
  function Missing(m: map<string, Json>, keys: seq<string>): seq<string> {
    if keys == [] then [] else (if keys[0] in m then [] else [keys[0]]) + Missing(m, keys[1..])
  }

  lemma {:induction false} ObjectLength(s: Json, keys: seq<string>, t: Json, newKeys: seq<string>)
    requires s.Object? && t.Object?
    requires forall k :: k in keys <==> k in s.members
    requires forall k :: k in newKeys <==> k in t.members
    requires Distinct(keys)
    requires Distinct(newKeys)
    ensures |MemberEdits(s, keys, t.members)| + |NewMembers(s.members, newKeys, t.members)|
            <= MemberNodes(s, keys) + MemberNodes(t, newKeys)
    decreases s, 1, 0
  {
    var missing := Missing(s.members, newKeys);
    MemberEditsLength(s, keys, t);
    NewMembersLength(s.members, newKeys, t);
    MissingKeys(s.members, newKeys);
    var all := keys + missing;
    MemberNodesAppend(t, keys, missing);
    assert Distinct(all) by {
      forall i, j | 0 <= i < j < |all| ensures all[i] != all[j] {
        if i < |keys| <= j {
          assert all[i] in keys && all[j] in missing;
        }
      }
    }
    SelectedNodes(t, all, newKeys);
  }

  lemma {:induction false} MissingKeys(m: map<string, Json>, keys: seq<string>)
    requires Distinct(keys)
    ensures forall k | k in Missing(m, keys) :: k in keys && k !in m
    ensures Distinct(Missing(m, keys))
  {
    if keys != [] {
      MissingKeys(m, keys[1..]);
      forall k | k in keys[1..] ensures k in keys && k != keys[0] {
        var i :| 0 <= i < |keys| - 1 && keys[1..][i] == k;
        assert keys[i + 1] == k;
      }
      var r, rest := Missing(m, keys), Missing(m, keys[1..]);
      assert forall i | 0 <= i < |rest| :: rest[i] in rest;
      if keys[0] !in m {
        assert r == [keys[0]] + rest;
        assert keys[0] !in rest;
      } else {
        assert r == rest;
      }
    }
  }

  lemma {:induction false} MemberEditsLength(s: Json, keys: seq<string>, t: Json)
    requires s.Object? && t.Object? && forall k | k in keys :: k in s.members
    ensures |MemberEdits(s, keys, t.members)| <= MemberNodes(s, keys) + MemberNodes(t, keys)
    decreases s, 0, |keys|
  {
    if keys != [] {
      var k := keys[0];
      MemberEditsLength(s, keys[1..], t);
      if k in t.members {
        BoundedLength(s.members[k], t.members[k]);
      }
    }
  }

  lemma {:induction false} NewMembersLength(m: map<string, Json>, keys: seq<string>, t: Json)
    requires t.Object?
    ensures |NewMembers(m, keys, t.members)| <= MemberNodes(t, Missing(m, keys))
    decreases |keys|
  {
    if keys != [] {
      NewMembersLength(m, keys[1..], t);
      var missing := Missing(m, keys);
      if keys[0] !in m {
        assert missing[0] == keys[0] && missing[1..] == Missing(m, keys[1..]);
      } else {
        assert missing == Missing(m, keys[1..]);
      }
    }
  }

  /** Members counted once each are part of the whole. */
  lemma {:induction false} SelectedNodes(v: Json, some: seq<string>, all: seq<string>)
    requires v.Object?
    requires Distinct(some)
    requires forall k | k in some && k in v.members :: k in all
    ensures MemberNodes(v, some) <= MemberNodes(v, all)
    decreases |some|
  {
    if some != [] {
      var k := some[0];
      if k in v.members {
        assert k in some;
        var i :| 0 <= i < |all| && all[i] == k;
        var before, after := all[..i], all[i + 1..];
        assert all == before + ([k] + after);
        assert ([k] + after)[1..] == after;
        MemberNodesAppend(v, before, [k] + after);
        MemberNodesAppend(v, before, after);
        forall x | x in some[1..] && x in v.members ensures x in before + after {
          assert x in some && x != k;
          assert x in all;
        }
        SelectedNodes(v, some[1..], before + after);
      } else {
        forall x | x in some[1..] && x in v.members ensures x in all {
          assert x in some;
        }
        SelectedNodes(v, some[1..], all);
      }
    }
  }
}
