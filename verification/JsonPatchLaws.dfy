/** What the patch operations mean for the document: laws between add, remove, replace and move. */
module JsonPatchLaws {
  import opened Results
  import opened Text
  import opened Sequences
  import opened JsonValue
  import opened JsonPointer
  import opened JsonPatch

  function Parent(path: Path): Path
    requires path != []
  {
    path[..|path| - 1]
  }

  lemma ParentTail(path: Path)
    requires |path| > 1
    ensures Parent(path)[1..] == Parent(path[1..]) && Parent(path)[0] == path[0]
    ensures path[1..][|path| - 2] == path[|path| - 1]
  {
  }

  lemma OneStep(doc: Json, path: Path, v: Json)
    requires |path| == 1
    ensures Resolve(doc, path) == Child(doc, path[0])
    ensures Child(doc, path[0]).Ok? ==> Store(doc, path, v) == Ok(WithChild(doc, path[0], v))
  {
    assert path[1..] == [];
    if Child(doc, path[0]).Ok? {
      var c := Child(doc, path[0]).value;
      assert Resolve(c, path[1..]) == Ok(c) && Store(c, path[1..], v) == Ok(v);
    }
  }

  /** An add below an existing child is an add to that child. */
  lemma AddDescends(doc: Json, path: Path, v: Json)
    requires |path| > 1 && Child(doc, path[0]).Ok?
    ensures AddAt(doc, path, v)
            == (var r := AddUnchecked(Child(doc, path[0]).value, path[1..], v);
                if r.Ok? then Ok(WithChild(doc, path[0], r.value)) else r)
  {
  }

  // ----- replace -----

  /** Replace works exactly at the existing locations, and is seen there afterwards. */
  lemma {:induction false} ReplaceThenRead(doc: Json, path: Path, v: Json)
    ensures Store(doc, path, v).Ok? <==> Exists(doc, path)
    ensures Exists(doc, path) ==> Resolve(Store(doc, path, v).value, path) == Ok(v)
    ensures Exists(doc, path) ==> Store(doc, path, Resolve(doc, path).value) == Ok(doc)
  {
    if path != [] && Child(doc, path[0]).Ok? {
      var c := Child(doc, path[0]).value;
      ReplaceThenRead(c, path[1..], v);
      if Exists(doc, path) {
        WithChildLaws(doc, path[0], Store(c, path[1..], v).value);
      }
    }
  }

  lemma ReplaceOneToken(doc: Json, path: Path, v: Json)
    requires |path| == 1 && Exists(doc, path)
    ensures Apply(doc, Remove(path)).Ok?
    ensures Apply(Apply(doc, Remove(path)).value, Add(path, v)) == Apply(doc, Replace(path, v))
  {
    hide ArrayIndex;
    OneStep(doc, path, v);
    var token := path[0];
    match doc {
      case Object(m) => assert (m - {token})[token := v] == m[token := v];
      case Array(items) =>
        var i := ArrayIndex(token).value;
        var rest := items[..i] + items[i + 1..];
        assert rest[..i] + [v] + rest[i..] == items[i := v];
    }
  }

  /** Section 4.3 of RFC 6902: at an existing location below the root, replace gives the tree that
      remove followed by add gives. */
  lemma {:induction false} ReplaceIsRemoveThenAdd(doc: Json, path: Path, v: Json)
    requires path != [] && Exists(doc, path)
    ensures Apply(doc, Remove(path)).Ok?
    ensures Apply(Apply(doc, Remove(path)).value, Add(path, v)) == Apply(doc, Replace(path, v))
  {
    var token := path[0];
    var c := Child(doc, token).value;
    if |path| == 1 {
      ReplaceOneToken(doc, path, v);
    } else {
      hide Child, WithChild, RemoveChild, AddChild;
      ReplaceIsRemoveThenAdd(c, path[1..], v);
      var c' := RemoveAt(c, path[1..]).value;
      var d := RemoveAt(doc, path).value;
      assert d == WithChild(doc, token, c');
      WithChildLaws(doc, token, c');
      AddDescends(d, path, v);
      ReplaceThenRead(c, path[1..], v);
      WithChildTwice(doc, token, c', Store(c, path[1..], v).value);
    }
  }

  /** Adding a removed value back restores the document. */
  lemma AddUndoesRemove(doc: Json, path: Path)
    requires path != [] && Exists(doc, path)
    ensures Apply(doc, Remove(path)).Ok?
    ensures Apply(Apply(doc, Remove(path)).value, Add(path, Resolve(doc, path).value)) == Ok(doc)
  {
    ReplaceIsRemoveThenAdd(doc, path, Resolve(doc, path).value);
    ReplaceThenRead(doc, path, Null);
  }

  /** A move onto itself changes nothing, at any existing location below the root. */
  lemma MoveOntoItself(doc: Json, path: Path)
    requires path != [] && Exists(doc, path)
    ensures Apply(doc, Move(path, path)) == Ok(doc)
  {
    AddUndoesRemove(doc, path);
  }

  // ----- add -----

  /** A value can be added to `parent` under `token` (section 4.1 of RFC 6902). */
  predicate CanHold(parent: Json, token: string) {
    match parent
    case Object(_) => true
    case Array(items) => token == "-" || (ArrayIndex(token).Ok? && ArrayIndex(token).value <= |items|)
    case _ => false
  }

  /** The parent exists and can hold the value: where RFC 6902 allows an add below the root. */
  predicate CanAdd(doc: Json, path: Path)
    requires path != []
  {
    var parent := Resolve(doc, Parent(path));
    parent.Ok? && CanHold(parent.value, path[|path| - 1])
  }

  lemma {:induction false} CanAddSteps(doc: Json, path: Path)
    requires path != []
    ensures |path| == 1 ==> (CanAdd(doc, path) <==> CanHold(doc, path[0]))
    ensures |path| > 1 ==>
      (CanAdd(doc, path) <==> Child(doc, path[0]).Ok? && CanAdd(Child(doc, path[0]).value, path[1..]))
  {
    if |path| == 1 {
      assert Parent(path) == [];
    } else {
      ParentTail(path);
    }
  }

  /** Wherever RFC 6902 allows an add, the code performs it; unchecked access changes nothing more. */
  lemma {:induction false} AddSucceeds(doc: Json, path: Path, v: Json)
    requires path != [] && CanAdd(doc, path)
    ensures AddAt(doc, path, v).Ok? && AddAt(doc, path, v) == AddUnchecked(doc, path, v)
  {
    CanAddSteps(doc, path);
    if |path| > 1 {
      AddSucceeds(Child(doc, path[0]).value, path[1..], v);
      AddDescends(doc, path, v);
    }
  }

  /** The location is new: an absent member, or a place in an array where elements move up. */
  predicate IsFresh(doc: Json, path: Path)
    requires path != []
  {
    var parent := Resolve(doc, Parent(path));
    var token := path[|path| - 1];
    && parent.Ok?
    && match parent.value
       case Object(m) => token !in m
       case Array(items) => token != "-" && CanHold(parent.value, token)
       case _ => false
  }

  /** Removing a value that was added at a new location restores the document. */
  lemma {:induction false} RemoveUndoesAdd(doc: Json, path: Path, v: Json)
    requires path != [] && IsFresh(doc, path)
    ensures Apply(doc, Add(path, v)).Ok?
    ensures Resolve(Apply(doc, Add(path, v)).value, path) == Ok(v)
    ensures Apply(Apply(doc, Add(path, v)).value, Remove(path)) == Ok(doc)
  {
    var token := path[0];
    if |path| == 1 {
      assert Parent(path) == [];
      assert path[1..] == [];
      match doc {
        case Object(m) => assert m[token := v] - {token} == m;
        case Array(items) =>
          var i := ArrayIndex(token).value;
          var longer := items[..i] + [v] + items[i..];
          assert longer[..i] + longer[i + 1..] == items;
      }
    } else {
      ParentTail(path);
      var c := Child(doc, token).value;
      RemoveUndoesAdd(c, path[1..], v);
      AddSucceeds(c, path[1..], v);
      AddDescends(doc, path, v);
      WithChildLaws(doc, token, AddUnchecked(c, path[1..], v).value);
    }
  }

  /** `-` names the element after the last one. */
  lemma DashIsAppend(items: seq<Json>, v: Json)
    requires |items| < SIZE_MAX
    ensures Apply(Array(items), Add(["-"], v)) == Apply(Array(items), Add([Decimal(|items|)], v))
    ensures Apply(Array(items), Add(["-"], v)) == Ok(Array(items + [v]))
  {
    hide ArrayIndex, Decimal;
    var token := Decimal(|items|);
    ArrayIndexIffPrinted(token, |items|);
    IndexIsNoDash(|items|);
    AddOne(Array(items), token, v);
    AddOne(Array(items), "-", v);
    assert items[..|items|] == items && items[|items|..] == [] && (items + [v]) + [] == items + [v];
  }

  lemma AddOne(doc: Json, token: string, v: Json)
    ensures Apply(doc, Add([token], v)) == AddChild(doc, token, v)
  {
    hide AddChild;
  }

  lemma IndexIsNoDash(i: nat)
    ensures Decimal(i) != "-"
  {
    DecimalRoundTrip(i);
    assert IsDigit(Decimal(i)[0]);
  }

  // ----- move and test -----

  /** Moving a value to a new location and back restores the document. */
  lemma MoveThereAndBack(doc: Json, from: Path, path: Path)
    requires from != [] && path != [] && Exists(doc, from)
    requires Apply(doc, Remove(from)).Ok? ==> IsFresh(Apply(doc, Remove(from)).value, path)
    ensures Apply(doc, Move(path, from)).Ok?
    ensures Apply(Apply(doc, Move(path, from)).value, Move(from, path)) == Ok(doc)
  {
    AddUndoesRemove(doc, from);
    RemoveUndoesAdd(Apply(doc, Remove(from)).value, path, Resolve(doc, from).value);
  }

  /** A test succeeds exactly when the value is there, and changes nothing. */
  lemma TestIff(doc: Json, path: Path, v: Json)
    ensures Apply(doc, Test(path, v)).Ok? <==> Resolve(doc, path) == Ok(v)
    ensures Apply(doc, Test(path, v)).Ok? ==> Apply(doc, Test(path, v)) == Ok(doc)
    ensures Exists(doc, path) && Resolve(doc, path) != Ok(v) ==> Apply(doc, Test(path, v)) == Err(OtherError(501))
  {
    if Exists(doc, path) {
      EqualIsIdentity(Resolve(doc, path).value, v);
    }
  }

  // ----- separate locations -----

  /** Neither location lies within the other. */
  predicate Apart(a: Path, b: Path) {
    !(a <= b) && !(b <= a)
  }

  /** Storing at one location does not show at one apart from it. */
  lemma {:induction false} TwoPlaces(doc: Json, a: Path, x: Json, b: Path, y: Json)
    requires Apart(a, b) && Exists(doc, a) && Exists(doc, b)
    ensures Store(doc, a, x).Ok? && Store(doc, b, y).Ok?
    ensures Resolve(Store(doc, a, x).value, b) == Resolve(doc, b)
    ensures Resolve(Store(doc, b, y).value, a) == Resolve(doc, a)
    ensures Store(Store(doc, a, x).value, b, y).Ok?
    ensures Store(Store(doc, a, x).value, b, y) == Store(Store(doc, b, y).value, a, x)
    decreases |a|
  {
    hide Child, WithChild;
    ReplaceThenRead(doc, a, x);
    ReplaceThenRead(doc, b, y);
    var c, d := Child(doc, a[0]).value, Child(doc, b[0]).value;
    var c', d' := Store(c, a[1..], x).value, Store(d, b[1..], y).value;
    if a[0] == b[0] {
      assert a == [a[0]] + a[1..] && b == [b[0]] + b[1..];
      TwoPlaces(c, a[1..], x, b[1..], y);
      var both := Store(c', b[1..], y).value;
      WithChildLaws(doc, a[0], c');
      WithChildLaws(doc, a[0], d');
      WithChildTwice(doc, a[0], c', both);
      WithChildTwice(doc, a[0], d', both);
    } else {
      TwoChildren(doc, a[0], c', b[0], d');
    }
  }

  /** Two different children are two different places. */
  lemma TwoChildren(doc: Json, a: string, x: Json, b: string, y: Json)
    requires a != b && Child(doc, a).Ok? && Child(doc, b).Ok?
    ensures Child(WithChild(doc, a, x), b) == Child(doc, b)
    ensures Child(WithChild(doc, b, y), a) == Child(doc, a)
    ensures WithChild(WithChild(doc, a, x), b, y) == WithChild(WithChild(doc, b, y), a, x)
  {
    if doc.Object? {
      assert doc.members[a := x][b := y] == doc.members[b := y][a := x];
    } else {
      DistinctIndices(a, b);
      var i, j := ArrayIndex(a).value, ArrayIndex(b).value;
      assert doc.items[i := x][j := y] == doc.items[j := y][i := x];
    }
  }

  lemma {:induction false} ResolveAppend(doc: Json, a: Path, b: Path)
    requires Exists(doc, a)
    ensures Resolve(doc, a + b) == Resolve(Resolve(doc, a).value, b)
    decreases |a|
  {
    if a == [] {
      assert a + b == b;
    } else {
      AppendHead(a, b);
      ResolveAppend(Child(doc, a[0]).value, a[1..], b);
    }
  }
}
