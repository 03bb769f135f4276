/** What diff reports, edit by edit, in terms of the two documents alone. */
module JsonDiffEdits {
  import opened Results
  import opened Text
  import opened Sequences
  import opened JsonValue
  import opened JsonPointer
  import opened JsonPatch
  import opened JsonPatchLaws
  import opened JsonDiff

  // ----- a difference between two documents -----

  /** Both values are there, and they are both arrays or both objects. */
  predicate SameKind(a: Result<Json>, b: Result<Json>) {
    a.Ok? && b.Ok? && ((a.value.Array? && b.value.Array?) || (a.value.Object? && b.value.Object?))
  }

  /** The documents agree in kind at every location on the way. */
  predicate SharedWay(s: Json, t: Json, path: Path) {
    forall k | 0 <= k < |path| :: SameKind(Resolve(s, path[..k]), Resolve(t, path[..k]))
  }

  /** `v` is what the second parent holds under the token and the first lacks: a member that is new, or an
      element behind the end of the first, which is appended. */
  predicate IsNew(a: Json, b: Json, token: string, v: Json) {
    || (a.Object? && b.Object? && token !in a.members && token in b.members && b.members[token] == v)
    || (a.Array? && b.Array? && token == "-" && exists j | |a.items| <= j < |b.items| :: b.items[j] == v)
  }

  /** The edit is a difference of the documents: a value that has another one in its place and cannot be
      edited further, one that is missing in the target, or one that is new there. */
  predicate IsDifference(s: Json, t: Json, op: Op) {
    SharedWay(s, t, op.path)
    && match op
       case Replace(path, v) =>
         && Exists(s, path) && Resolve(t, path) == Ok(v)
         && Resolve(s, path) != Ok(v) && !SameKind(Resolve(s, path), Resolve(t, path))
       case Remove(path) => path != [] && Exists(s, path) && !Exists(t, path)
       case Add(path, v) =>
         && path != [] && Exists(s, Parent(path)) && Exists(t, Parent(path))
         && IsNew(Resolve(s, Parent(path)).value, Resolve(t, Parent(path)).value, path[|path| - 1], v)
       case _ => false
  }

  // ----- one token further -----

  /** diff emits no other operations. */
  predicate IsSimple(op: Op) {
    op.Add? || op.Remove? || op.Replace?
  }

  /** The edit as the child on its path sees it. */
  function Inner(op: Op): Op
    requires IsSimple(op) && op.path != []
  {
    match op
    case Add(path, v) => Add(path[1..], v)
    case Remove(path) => Remove(path[1..])
    case Replace(path, v) => Replace(path[1..], v)
  }

  lemma WayStep(s: Json, t: Json, path: Path)
    requires path != []
    ensures SharedWay(s, t, path) <==>
            && SameKind(Ok(s), Ok(t))
            && (|path| > 1 ==>
                  && Child(s, path[0]).Ok? && Child(t, path[0]).Ok?
                  && SharedWay(Child(s, path[0]).value, Child(t, path[0]).value, path[1..]))
  {
    hide Child, SameKind;
    var rest := path[1..];
    forall k | 0 <= k < |rest| ensures path[..k + 1][0] == path[0] && path[..k + 1][1..] == rest[..k] {
    }
    assert path[..0] == [] && rest[..0] == [];
    if SharedWay(s, t, path) && |path| > 1 {
      assert SameKind(Resolve(s, path[..0]), Resolve(t, path[..0]));
      KindNeedsBoth(Resolve(s, path[..0 + 1]), Resolve(t, path[..0 + 1]));
      forall k | 0 <= k < |rest|
        ensures SameKind(Resolve(Child(s, path[0]).value, rest[..k]), Resolve(Child(t, path[0]).value, rest[..k]))
      {
        assert SameKind(Resolve(s, path[..k + 1]), Resolve(t, path[..k + 1]));
      }
    }
    if SameKind(Ok(s), Ok(t)) && Child(s, path[0]).Ok? && Child(t, path[0]).Ok?
       && SharedWay(Child(s, path[0]).value, Child(t, path[0]).value, rest) {
      forall k | 0 <= k < |path| ensures SameKind(Resolve(s, path[..k]), Resolve(t, path[..k])) {
        if k > 0 {
          assert path[..k][0] == path[0] && path[..k][1..] == rest[..k - 1];
        }
      }
    }
  }

  lemma KindNeedsBoth(a: Result<Json>, b: Result<Json>)
    ensures SameKind(a, b) ==> a.Ok? && b.Ok?
  {
  }

  /** A difference below a child is a difference of the children. */
  lemma DifferenceBelow(s: Json, t: Json, op: Op)
    requires IsSimple(op) && op.path != [] && (|op.path| > 1 || op.Replace?)
    ensures IsDifference(s, t, op) <==>
            && SameKind(Ok(s), Ok(t)) && Child(s, op.path[0]).Ok? && Child(t, op.path[0]).Ok?
            && IsDifference(Child(s, op.path[0]).value, Child(t, op.path[0]).value, Inner(op))
  {
    hide SharedWay, SameKind, Child, IsNew;
    WayStep(s, t, op.path);
    NoWay(s, t);
    if Child(s, op.path[0]).Ok? && Child(t, op.path[0]).Ok? {
      NoWay(Child(s, op.path[0]).value, Child(t, op.path[0]).value);
    }
    if |op.path| > 1 {
      ParentTail(op.path);
    } else {
      assert op.path[1..] == [];
    }
  }

  lemma NoWay(s: Json, t: Json)
    ensures SharedWay(s, t, [])
  {
  }

  /** A difference between the members or elements of the two values themselves. */
  lemma DifferenceHere(s: Json, t: Json, op: Op)
    requires |op.path| == 1 && (op.Add? || op.Remove?)
    ensures IsDifference(s, t, op) <==>
            && SameKind(Ok(s), Ok(t))
            && (op.Remove? ==> Child(s, op.path[0]).Ok? && Child(t, op.path[0]).Err?)
            && (op.Add? ==> IsNew(s, t, op.path[0], op.value))
  {
    hide SharedWay, SameKind, Child, IsNew;
    WayStep(s, t, op.path);
    NoWay(s, t);
    OneStep(s, op.path, Null);
    OneStep(t, op.path, Null);
    assert Parent(op.path) == [] && op.path[1..] == [];
  }

  /** Equal values do not differ anywhere. */
  lemma NoDifference(s: Json, op: Op)
    ensures !IsDifference(s, s, op)
  {
  }

  /** At the root only values that cannot be edited further differ, and they differ as a whole. */
  lemma DifferenceAtRoot(s: Json, t: Json, op: Op)
    requires s != t
    ensures SameKind(Ok(s), Ok(t)) && IsDifference(s, t, op) ==> op.path != []
    ensures !SameKind(Ok(s), Ok(t)) ==> (IsDifference(s, t, op) <==> op == Replace([], t))
  {
    if op.path != [] {
      WayStep(s, t, op.path);
    }
  }

  // ----- which edits the lists hold -----

  lemma {:induction false} InBelow(token: string, ops: seq<Op>, op: Op)
    requires AllNestable(ops)
    ensures op in AllBelow(token, ops) <==>
            IsSimple(op) && op.path != [] && op.path[0] == token && Inner(op) in ops
  {
    if ops != [] {
      InBelow(token, ops[1..], op);
      assert ops == [ops[0]] + ops[1..];
      assert ops[0] in ops;
      BelowInner(token, ops[0], op);
    }
  }

  lemma BelowInner(token: string, inner: Op, op: Op)
    requires IsSimple(inner)
    ensures op == Below(token, inner) <==>
            IsSimple(op) && op.path != [] && op.path[0] == token && Inner(op) == inner
  {
    if op.path != [] {
      assert op.path == [op.path[0]] + op.path[1..];
    }
    assert ([token] + inner.path)[1..] == inner.path;
  }

  predicate RemovesIndex(op: Op, i: nat) {
    op == Remove([Decimal(i)])
  }

  lemma {:induction false} InRemovals(lo: nat, hi: nat, op: Op)
    ensures op in Removals(lo, hi) <==> exists i: nat :: lo <= i < hi && RemovesIndex(op, i)
    decreases hi
  {
    hide Decimal;
    if lo < hi {
      InRemovals(lo, hi - 1, op);
      assert op in Removals(lo, hi) <==> RemovesIndex(op, hi - 1) || op in Removals(lo, hi - 1);
    }
  }

  lemma {:induction false} InAppends(ys: seq<Json>, op: Op)
    ensures op in Appends(ys) <==> exists j | 0 <= j < |ys| :: op == Add(["-"], ys[j])
  {
    if ys != [] {
      InAppends(ys[1..], op);
      assert forall j | 0 <= j < |ys| - 1 :: ys[1..][j] == ys[j + 1];
      if op in Appends(ys[1..]) {
        var j :| 0 <= j < |ys| - 1 && op == Add(["-"], ys[1..][j]);
        assert op == Add(["-"], ys[j + 1]);
      }
      if j :| 0 < j < |ys| && op == Add(["-"], ys[j]) {
        assert ys[1..][j - 1] == ys[j];
      }
    }
  }

  lemma {:induction false} InNew(s: map<string, Json>, keys: seq<string>, t: map<string, Json>, op: Op)
    ensures op in NewMembers(s, keys, t) <==>
            op.Add? && |op.path| == 1 && op.path[0] in keys && op.path[0] in t && op.path[0] !in s
            && op.value == t[op.path[0]]
  {
    if keys != [] {
      InNew(s, keys[1..], t, op);
      assert keys == [keys[0]] + keys[1..];
      assert |op.path| == 1 ==> op.path == [op.path[0]];
    }
  }

  /** The edit is one of the first n common elements. */
  predicate InElement(xs: seq<Json>, ys: seq<Json>, n: nat, op: Op)
    requires n <= |xs| && n <= |ys|
  {
    IsSimple(op) && op.path != []
    && exists i | 0 <= i < n :: op.path[0] == Decimal(i) && Inner(op) in DiffOps(xs[i], ys[i])
  }

  lemma {:induction false} InCommon(xs: seq<Json>, ys: seq<Json>, n: nat, op: Op)
    requires n <= |xs| && n <= |ys|
    ensures op in CommonEdits(xs, ys, n) <==> InElement(xs, ys, n, op)
    decreases n
  {
    hide DiffOps, Decimal, AllBelow;
    if n > 0 {
      InCommon(xs, ys, n - 1, op);
      DiffNestable(xs[n - 1], ys[n - 1]);
      InBelow(Decimal(n - 1), DiffOps(xs[n - 1], ys[n - 1]), op);
    }
  }

  lemma {:induction false} InMembers(s: Json, keys: seq<string>, t: map<string, Json>, op: Op)
    requires s.Object? && forall k | k in keys :: k in s.members
    ensures op in MemberEdits(s, keys, t) <==>
            && IsSimple(op) && op.path != [] && op.path[0] in keys
            && if op.path[0] in t then Inner(op) in DiffOps(s.members[op.path[0]], t[op.path[0]])
               else op == Remove([op.path[0]])
    decreases |keys|
  {
    hide DiffOps, AllBelow;
    if keys != [] {
      var k := keys[0];
      InMembers(s, keys[1..], t, op);
      assert keys == [k] + keys[1..];
      if k in t {
        DiffNestable(s.members[k], t[k]);
        InBelow(k, DiffOps(s.members[k], t[k]), op);
      }
    }
  }

  // ----- exactly the differences -----

  /** diff reports exactly the differences of the two documents: for every edit, it is in the list if and
      only if it is a difference. */
  lemma {:induction false} DiffIff(s: Json, t: Json, op: Op)
    requires FitsMemory(s)
    ensures op in DiffOps(s, t) <==> IsDifference(s, t, op)
    decreases s, 2
  {
    hide IsDifference, CommonEdits, Removals, Appends, MemberEdits, NewMembers;
    EqualIsIdentity(s, t);
    if s == t {
      NoDifference(s, op);
    } else {
      DifferenceAtRoot(s, t, op);
      if s.Array? && t.Array? {
        ArrayIff(s, t, op);
      } else if s.Object? && t.Object? {
        SortedKeysElements(s.members.Keys);
        ObjectIff(s, t, op);
      }
    }
  }

  lemma {:induction false} ArrayIff(s: Json, t: Json, op: Op)
    requires FitsMemory(s) && s.Array? && t.Array? && s != t
    ensures var xs, ys := s.items, t.items;
            var n := Min(|xs|, |ys|);
            op in CommonEdits(xs, ys, n) + Removals(n, |xs|) + Appends(ys[n..]) <==> IsDifference(s, t, op)
    decreases s, 1
  {
    hide IsDifference, CommonEdits, Removals, Appends, DiffOps, Decimal, ArrayIndex;
    var xs, ys := s.items, t.items;
    var n := Min(|xs|, |ys|);
    InCommon(xs, ys, n, op);
    InRemovals(n, |xs|, op);
    InAppends(ys[n..], op);
    DifferenceAtRoot(s, t, op);
    if op.path != [] && IsSimple(op) {
      if |op.path| > 1 || op.Replace? {
        DifferenceBelow(s, t, op);
        ElementIff(s, t, op);
      } else {
        DifferenceHere(s, t, op);
        NotInElement(xs, ys, n, op);
        EndIff(xs, ys, op);
      }
    } else {
      OnlySimple(s, t, op);
    }
  }

  lemma OnlySimple(s: Json, t: Json, op: Op)
    ensures IsDifference(s, t, op) ==> IsSimple(op)
  {
  }

  /** Adding or removing a child is no edit of an element. */
  lemma NotInElement(xs: seq<Json>, ys: seq<Json>, n: nat, op: Op)
    requires n <= |xs| && n <= |ys| && |op.path| == 1 && (op.Add? || op.Remove?)
    ensures !InElement(xs, ys, n, op)
  {
    hide DiffOps;
    forall i | 0 <= i < n ensures Inner(op) !in DiffOps(xs[i], ys[i]) {
      DiffNestable(xs[i], ys[i]);
    }
  }

  /** A token names an element exactly if it is the element's index in decimal. */
  lemma IndexNames(items: seq<Json>, token: string)
    ensures Child(Array(items), token).Ok? ==> exists i | 0 <= i < |items| :: token == Decimal(i)
    ensures forall i | 0 <= i < |items| && i < SIZE_MAX && token == Decimal(i) ::
              Child(Array(items), token) == Ok(items[i])
  {
    hide Decimal, ArrayIndex;
    if Child(Array(items), token).Ok? {
      ArrayIndexIffPrinted(token, ArrayIndex(token).value);
    }
    forall i | 0 <= i < |items| && i < SIZE_MAX && token == Decimal(i)
      ensures Child(Array(items), token) == Ok(items[i])
    {
      ArrayIndexIffPrinted(token, i);
      IndexIsNoDash(i);
    }
  }

  lemma {:induction false} ElementIff(s: Json, t: Json, op: Op)
    requires FitsMemory(s) && s.Array? && t.Array? && IsSimple(op) && op.path != []
    ensures InElement(s.items, t.items, Min(|s.items|, |t.items|), op) <==>
            && Child(s, op.path[0]).Ok? && Child(t, op.path[0]).Ok?
            && IsDifference(Child(s, op.path[0]).value, Child(t, op.path[0]).value, Inner(op))
    decreases s, 0
  {
    hide IsDifference, DiffOps, Decimal, Child;
    var xs, ys, token := s.items, t.items, op.path[0];
    IndexNames(xs, token);
    IndexNames(ys, token);
    forall i | 0 <= i < |xs| && i < |ys|
      ensures Inner(op) in DiffOps(xs[i], ys[i]) <==> IsDifference(xs[i], ys[i], Inner(op))
    {
      DiffIff(xs[i], ys[i], Inner(op));
    }
    if Child(s, token).Ok? && Child(t, token).Ok? {
      var i :| 0 <= i < |xs| && token == Decimal(i);
      var j :| 0 <= j < |ys| && token == Decimal(j);
      DecimalRoundTrip(i);
      DecimalRoundTrip(j);
    }
  }

  /** What is at the end of the longer array, and only there. */
  lemma EndIff(xs: seq<Json>, ys: seq<Json>, op: Op)
    requires |xs| <= SIZE_MAX && |op.path| == 1 && (op.Add? || op.Remove?)
    ensures var n := Min(|xs|, |ys|);
            op in Removals(n, |xs|) + Appends(ys[n..]) <==>
            && (op.Remove? ==> Child(Array(xs), op.path[0]).Ok? && Child(Array(ys), op.path[0]).Err?)
            && (op.Add? ==> IsNew(Array(xs), Array(ys), op.path[0], op.value))
  {
    hide Decimal, Child, Removals, Appends, IsNew;
    var n := Min(|xs|, |ys|);
    assert op.path == [op.path[0]];
    if op.Add? {
      AddedIff(xs, ys, op);
    } else {
      RemovedIff(xs, ys, op);
    }
  }

  lemma AddedIff(xs: seq<Json>, ys: seq<Json>, op: Op)
    requires op.Add? && |op.path| == 1
    ensures op !in Removals(Min(|xs|, |ys|), |xs|)
    ensures op in Appends(ys[Min(|xs|, |ys|)..]) <==> IsNew(Array(xs), Array(ys), op.path[0], op.value)
  {
    hide Removals, Appends;
    var n := Min(|xs|, |ys|);
    InRemovals(n, |xs|, op);
    InAppends(ys[n..], op);
    assert op.path == [op.path[0]];
    assert forall j | 0 <= j < |ys| - n :: ys[n..][j] == ys[n + j];
    assert forall j | n <= j < |ys| :: ys[j] == ys[n..][j - n];
  }

  lemma RemovedIff(xs: seq<Json>, ys: seq<Json>, op: Op)
    requires |xs| <= SIZE_MAX && op.Remove? && |op.path| == 1
    ensures op !in Appends(ys[Min(|xs|, |ys|)..])
    ensures op in Removals(Min(|xs|, |ys|), |xs|) <==>
            Child(Array(xs), op.path[0]).Ok? && Child(Array(ys), op.path[0]).Err?
  {
    hide Decimal, Child, Removals, Appends;
    var n, token := Min(|xs|, |ys|), op.path[0];
    InRemovals(n, |xs|, op);
    InAppends(ys[n..], op);
    assert op.path == [token];
    IndexNames(xs, token);
    IndexNames(ys, token);
    if Child(Array(xs), token).Ok? {
      var i: nat :| 0 <= i < |xs| && token == Decimal(i);
      assert RemovesIndex(op, i);
    }
    if op in Removals(n, |xs|) {
      var i: nat :| n <= i < |xs| && RemovesIndex(op, i);
      DecimalRoundTrip(i);
      if Child(Array(ys), token).Ok? {
        var j :| 0 <= j < |ys| && token == Decimal(j);
        DecimalRoundTrip(j);
      }
    }
  }

  lemma {:induction false} ObjectIff(s: Json, t: Json, op: Op)
    requires FitsMemory(s) && s.Object? && t.Object? && s != t
    requires forall k | k in SortedKeys(s.members.Keys) :: k in s.members
    ensures op in MemberEdits(s, SortedKeys(s.members.Keys), t.members)
                  + NewMembers(s.members, SortedKeys(t.members.Keys), t.members)
            <==> IsDifference(s, t, op)
    decreases s, 1
  {
    hide IsDifference, MemberEdits, NewMembers, DiffOps, SortedKeys;
    var m, n := s.members, t.members;
    KeysOnce(m.Keys);
    KeysOnce(n.Keys);
    InMembers(s, SortedKeys(m.Keys), n, op);
    InNew(m, SortedKeys(n.Keys), n, op);
    DifferenceAtRoot(s, t, op);
    if op.path != [] && IsSimple(op) {
      var k := op.path[0];
      if k in m && k in n {
        DiffIff(m[k], n[k], Inner(op));
        DiffNestable(m[k], n[k]);
      }
      if |op.path| > 1 || op.Replace? {
        DifferenceBelow(s, t, op);
      } else {
        assert op.path == [k];
        DifferenceHere(s, t, op);
      }
    } else {
      OnlySimple(s, t, op);
    }
  }

  // ----- each once, and in order -----

  /** `x` may stand before `y`: the members of the source come in the order of their keys, before the new
      ones in theirs; common elements come in the order of their indices, before removals from the highest
      index down, before what is appended; and so on within each child. Nothing comes twice. */
  predicate Comes(s: Json, t: Json, x: Op, y: Op)
    decreases |x.path|
  {
    && IsSimple(x) && IsSimple(y) && x.path != [] && y.path != []
    && var a, b := x.path[0], y.path[0];
       match (s, t)
       case (Object(m), Object(n)) =>
         if a == b then a in m && a in n && Comes(m[a], n[a], Inner(x), Inner(y))
         else if b in m then a in m && StringLess(a, b)
         else a in m || StringLess(a, b)
       case (Array(xs), Array(ys)) =>
         b == "-"
         || (ArrayIndex(a).Ok? && ArrayIndex(b).Ok?
             && var i, j := ArrayIndex(a).value, ArrayIndex(b).value;
                if i == j then i < |xs| && i < |ys| && Comes(xs[i], ys[i], Inner(x), Inner(y))
                else if j < |ys| then i < j
                else i < |ys| || i > j)
       case _ => false
  }

  ghost predicate InOrder(s: Json, t: Json, ops: seq<Op>) {
    forall i, j | 0 <= i < j < |ops| :: Comes(s, t, ops[i], ops[j])
  }

  lemma InOrderAppend(s: Json, t: Json, a: seq<Op>, b: seq<Op>)
    requires InOrder(s, t, a) && InOrder(s, t, b)
    requires forall x, y | x in a && y in b :: Comes(s, t, x, y)
    ensures InOrder(s, t, a + b)
  {
    hide Comes;
    forall i, j | 0 <= i < j < |a + b| ensures Comes(s, t, (a + b)[i], (a + b)[j]) {
      if i < |a| <= j {
        assert a[i] in a && b[j - |a|] in b;
      }
    }
  }

  lemma {:induction false} BelowAt(token: string, ops: seq<Op>, i: nat)
    requires i < |ops|
    ensures AllBelow(token, ops)[i] == Below(token, ops[i])
  {
    if i > 0 {
      BelowAt(token, ops[1..], i - 1);
    }
  }

  /** The order within a child is the order below it. */
  lemma InOrderBelow(s: Json, t: Json, token: string, ops: seq<Op>)
    requires SameKind(Ok(s), Ok(t)) && Child(s, token).Ok? && Child(t, token).Ok? && AllNestable(ops)
    requires InOrder(Child(s, token).value, Child(t, token).value, ops)
    ensures InOrder(s, t, AllBelow(token, ops))
  {
    hide Comes, Child, SameKind;
    forall i, j | 0 <= i < j < |ops|
      ensures Comes(s, t, AllBelow(token, ops)[i], AllBelow(token, ops)[j])
    {
      BelowAt(token, ops, i);
      BelowAt(token, ops, j);
      assert ops[i] in ops && ops[j] in ops;
      ComesBelow(s, t, token, ops[i], ops[j]);
    }
  }

  lemma ComesBelow(s: Json, t: Json, token: string, x: Op, y: Op)
    requires SameKind(Ok(s), Ok(t)) && Child(s, token).Ok? && Child(t, token).Ok? && IsSimple(x) && IsSimple(y)
    requires Comes(Child(s, token).value, Child(t, token).value, x, y)
    ensures Comes(s, t, Below(token, x), Below(token, y))
  {
    hide ArrayIndex;
    BelowInner(token, x, Below(token, x));
    BelowInner(token, y, Below(token, y));
  }

  /** diff puts its edits into this order, and so reports nothing twice. */
  lemma {:induction false} DiffInOrder(s: Json, t: Json)
    requires FitsMemory(s)
    ensures InOrder(s, t, DiffOps(s, t))
    decreases s, 2
  {
    hide Comes, InOrder, Equal, CommonEdits, Removals, Appends, MemberEdits, NewMembers;
    EqualIsIdentity(s, t);
    if s == t {
      NoneInOrder(s, t);
    } else if s.Array? && t.Array? {
      ArrayInOrder(s, t);
    } else if s.Object? && t.Object? {
      SortedKeysElements(s.members.Keys);
      ObjectInOrder(s, t);
    } else {
      OneInOrder(s, t, Replace([], t));
    }
  }

  lemma {:induction false} ArrayInOrder(s: Json, t: Json)
    requires FitsMemory(s) && s.Array? && t.Array?
    ensures var n := Min(|s.items|, |t.items|);
            InOrder(s, t, CommonEdits(s.items, t.items, n) + Removals(n, |s.items|) + Appends(t.items[n..]))
    decreases s, 1
  {
    hide Comes, CommonEdits, Removals, Appends, InOrder;
    var xs, ys := s.items, t.items;
    var n := Min(|xs|, |ys|);
    var a, b, c := CommonEdits(xs, ys, n), Removals(n, |xs|), Appends(ys[n..]);
    CommonInOrder(s, t, n);
    RemovalsInOrder(s, t, n, |xs|);
    AppendsInOrder(s, t, ys[n..]);
    forall x, y | x in a && y in b ensures Comes(s, t, x, y) {
      InCommon(xs, ys, n, x);
      InRemovals(n, |xs|, y);
      var i: nat :| n <= i < |xs| && RemovesIndex(y, i);
      RemovalComes(s, t, x, y, n, i);
    }
    InOrderAppend(s, t, a, b);
    forall x, y | x in a + b && y in c ensures Comes(s, t, x, y) {
      InCommon(xs, ys, n, x);
      InRemovals(n, |xs|, x);
      InAppends(ys[n..], y);
      AppendComes(s, t, x, y);
    }
    InOrderAppend(s, t, a + b, c);
  }

  lemma AppendComes(s: Json, t: Json, x: Op, y: Op)
    requires s.Array? && t.Array? && IsSimple(x) && x.path != [] && IsSimple(y) && y.path == ["-"]
    ensures Comes(s, t, x, y)
  {
  }

  lemma RemovalComes(s: Json, t: Json, x: Op, y: Op, n: nat, i: nat)
    requires s.Array? && t.Array? && n == Min(|s.items|, |t.items|) && n <= i < |s.items| <= SIZE_MAX
    requires InElement(s.items, t.items, n, x) && RemovesIndex(y, i)
    ensures Comes(s, t, x, y)
  {
    hide DiffOps, Decimal, ArrayIndex;
    var j :| 0 <= j < n && x.path[0] == Decimal(j) && Inner(x) in DiffOps(s.items[j], t.items[j]);
    ArrayIndexIffPrinted(Decimal(i), i);
    ArrayIndexIffPrinted(Decimal(j), j);
  }

  lemma {:induction false} CommonInOrder(s: Json, t: Json, n: nat)
    requires FitsMemory(s) && s.Array? && t.Array? && n <= |s.items| && n <= |t.items|
    ensures InOrder(s, t, CommonEdits(s.items, t.items, n))
    decreases s, 0, n
  {
    if n > 0 {
      hide Comes, DiffOps, AllBelow, Decimal, ArrayIndex, Child, InOrder;
      var xs, ys, i := s.items, t.items, n - 1;
      CommonInOrder(s, t, i);
      DiffInOrder(xs[i], ys[i]);
      DiffNestable(xs[i], ys[i]);
      IndexNames(xs, Decimal(i));
      IndexNames(ys, Decimal(i));
      var below := AllBelow(Decimal(i), DiffOps(xs[i], ys[i]));
      InOrderBelow(s, t, Decimal(i), DiffOps(xs[i], ys[i]));
      forall x, y | x in CommonEdits(xs, ys, i) && y in below ensures Comes(s, t, x, y) {
        InCommon(xs, ys, i, x);
        InBelow(Decimal(i), DiffOps(xs[i], ys[i]), y);
        ElementComes(s, t, x, y, i);
      }
      InOrderAppend(s, t, CommonEdits(xs, ys, i), below);
    }
  }

  lemma ElementComes(s: Json, t: Json, x: Op, y: Op, i: nat)
    requires s.Array? && t.Array? && i < |s.items| <= SIZE_MAX && i < |t.items|
    requires InElement(s.items, t.items, i, x) && IsSimple(y) && y.path != [] && y.path[0] == Decimal(i)
    ensures Comes(s, t, x, y)
  {
    hide DiffOps, Decimal, ArrayIndex;
    var j :| 0 <= j < i && x.path[0] == Decimal(j) && Inner(x) in DiffOps(s.items[j], t.items[j]);
    ArrayIndexIffPrinted(Decimal(i), i);
    ArrayIndexIffPrinted(Decimal(j), j);
  }

  lemma {:induction false} RemovalsInOrder(s: Json, t: Json, lo: nat, hi: nat)
    requires s.Array? && t.Array? && hi <= |s.items| <= SIZE_MAX && (lo < hi ==> lo == |t.items|)
    ensures InOrder(s, t, Removals(lo, hi))
    decreases hi
  {
    if lo < hi {
      hide Decimal, Comes;
      var first, rest := Remove([Decimal(hi - 1)]), Removals(lo, hi - 1);
      RemovalsInOrder(s, t, lo, hi - 1);
      forall y | y in rest ensures Comes(s, t, first, y) {
        InRemovals(lo, hi - 1, y);
        var i: nat :| lo <= i < hi - 1 && RemovesIndex(y, i);
        HigherFirst(s, t, first, y, hi - 1, i);
      }
      InOrderAppend(s, t, [first], rest);
    }
  }

  lemma HigherFirst(s: Json, t: Json, x: Op, y: Op, i: nat, j: nat)
    requires s.Array? && t.Array? && |t.items| <= j < i < SIZE_MAX && RemovesIndex(x, i) && RemovesIndex(y, j)
    ensures Comes(s, t, x, y)
  {
    hide Decimal, ArrayIndex;
    ArrayIndexIffPrinted(Decimal(i), i);
    ArrayIndexIffPrinted(Decimal(j), j);
  }

  lemma AppendsInOrder(s: Json, t: Json, ys: seq<Json>)
    requires s.Array? && t.Array?
    ensures InOrder(s, t, Appends(ys))
  {
    hide Comes, Appends;
    var ops := Appends(ys);
    forall i, j | 0 <= i < j < |ops| ensures Comes(s, t, ops[i], ops[j]) {
      assert ops[i] in ops && ops[j] in ops;
      InAppends(ys, ops[i]);
      InAppends(ys, ops[j]);
      AppendComes(s, t, ops[i], ops[j]);
    }
  }

  lemma {:induction false} ObjectInOrder(s: Json, t: Json)
    requires FitsMemory(s) && s.Object? && t.Object?
    requires forall k | k in SortedKeys(s.members.Keys) :: k in s.members
    ensures InOrder(s, t, MemberEdits(s, SortedKeys(s.members.Keys), t.members)
                          + NewMembers(s.members, SortedKeys(t.members.Keys), t.members))
    decreases s, 1
  {
    hide Comes, MemberEdits, NewMembers, InOrder, SortedKeys, DiffOps;
    var m, n := s.members, t.members;
    var keys, newKeys := SortedKeys(m.Keys), SortedKeys(n.Keys);
    SortedKeysElements(m.Keys);
    SortedKeysElements(n.Keys);
    MembersInOrder(s, keys, t);
    NewInOrder(s, newKeys, t);
    forall x, y | x in MemberEdits(s, keys, n) && y in NewMembers(m, newKeys, n) ensures Comes(s, t, x, y) {
      InMembers(s, keys, n, x);
      InNew(m, newKeys, n, y);
      KeyComes(s, t, x, y);
    }
    InOrderAppend(s, t, MemberEdits(s, keys, n), NewMembers(m, newKeys, n));
  }

  lemma KeyComes(s: Json, t: Json, x: Op, y: Op)
    requires s.Object? && t.Object? && IsSimple(x) && IsSimple(y) && x.path != [] && y.path != []
    requires x.path[0] != y.path[0]
    requires if x.path[0] in s.members <==> y.path[0] in s.members then StringLess(x.path[0], y.path[0])
             else x.path[0] in s.members
    ensures Comes(s, t, x, y)
  {
  }

  lemma {:induction false} MembersInOrder(s: Json, keys: seq<string>, t: Json)
    requires FitsMemory(s) && s.Object? && t.Object? && StrictlySorted(keys)
    requires forall k | k in keys :: k in s.members
    ensures InOrder(s, t, MemberEdits(s, keys, t.members))
    decreases s, 0, |keys|
  {
    if keys != [] {
      hide Comes, DiffOps, AllBelow, InOrder;
      var k, rest, n := keys[0], keys[1..], t.members;
      MembersInOrder(s, rest, t);
      if k in n {
        DiffInOrder(s.members[k], n[k]);
        DiffNestable(s.members[k], n[k]);
        InOrderBelow(s, t, k, DiffOps(s.members[k], n[k]));
      } else {
        OneInOrder(s, t, Remove([k]));
      }
      forall x, y | x in MemberEdit(s, k, n) && y in MemberEdits(s, rest, n) ensures Comes(s, t, x, y) {
        if k in n {
          DiffNestable(s.members[k], n[k]);
          InBelow(k, DiffOps(s.members[k], n[k]), x);
        }
        InMembers(s, rest, n, y);
        LaterKey(keys, y.path[0]);
        KeyComes(s, t, x, y);
      }
      InOrderAppend(s, t, MemberEdit(s, k, n), MemberEdits(s, rest, n));
    }
  }

  lemma LaterKey(keys: seq<string>, k: string)
    requires keys != [] && StrictlySorted(keys) && k in keys[1..]
    ensures StringLess(keys[0], k) && keys[0] != k
  {
    SortedIsDistinct(keys);
    var i :| 0 <= i < |keys| - 1 && keys[1..][i] == k;
    assert keys[i + 1] == k;
  }

  lemma NoneInOrder(s: Json, t: Json)
    ensures InOrder(s, t, [])
  {
  }

  lemma OneInOrder(s: Json, t: Json, op: Op)
    ensures InOrder(s, t, [op])
  {
  }

  lemma {:induction false} NewInOrder(s: Json, keys: seq<string>, t: Json)
    requires s.Object? && t.Object? && StrictlySorted(keys)
    ensures InOrder(s, t, NewMembers(s.members, keys, t.members))
    decreases |keys|
  {
    if keys != [] {
      hide Comes, InOrder;
      var k, rest, m, n := keys[0], keys[1..], s.members, t.members;
      NewInOrder(s, rest, t);
      if k in n && k !in m {
        OneInOrder(s, t, Add([k], n[k]));
        forall y | y in NewMembers(m, rest, n) ensures Comes(s, t, Add([k], n[k]), y) {
          InNew(m, rest, n, y);
          LaterKey(keys, y.path[0]);
          KeyComes(s, t, Add([k], n[k]), y);
        }
        InOrderAppend(s, t, [Add([k], n[k])], NewMembers(m, rest, n));
      } else {
        assert NewMembers(m, keys, n) == NewMembers(m, rest, n);
      }
    }
  }
}
