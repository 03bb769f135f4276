/** Where the operations of a patch succeed, exactly, and where the code accepts more than RFC 6902. */
module JsonPatchDomain {
  import opened Results
  import opened Text
  import opened JsonValue
  import opened JsonPointer
  import opened JsonPatch
  import opened JsonPatchLaws

  // ----- how much of a path exists -----

  /** The deepest existing value on the way to the parent. */
  function Deepest(doc: Json, path: Path): Json
    requires path != []
    decreases |path|
  {
    if |path| == 1 || Child(doc, path[0]).Err? then doc else Deepest(Child(doc, path[0]).value, path[1..])
  }

  /** The tokens that lead on from there; just the last one if the parent exists. */
  function Onward(doc: Json, path: Path): (rest: Path)
    requires path != []
    ensures 0 < |rest| <= |path|
    decreases |path|
  {
    if |path| == 1 || Child(doc, path[0]).Err? then path else Onward(Child(doc, path[0]).value, path[1..])
  }

  /** `Deepest` and `Onward` are what their names say: the longest part of the path that resolves, short
      of the last token, leads to the one, and the other is the rest of the path. */
  lemma {:induction false} DeepestIsDeepest(doc: Json, path: Path)
    requires path != []
    ensures var j := |path| - |Onward(doc, path)|;
            && path[j..] == Onward(doc, path) && Resolve(doc, path[..j]) == Ok(Deepest(doc, path))
            && forall k | j < k < |path| :: !Exists(doc, path[..k])
    decreases |path|
  {
    hide Child;
    forall k | 0 < k <= |path| ensures path[..k][0] == path[0] && path[..k][1..] == path[1..][..k - 1] {
    }
    if |path| > 1 && Child(doc, path[0]).Ok? {
      DeepestIsDeepest(Child(doc, path[0]).value, path[1..]);
    }
  }

  // ----- add -----

  /** The token could be an index or is no number at all. */
  predicate Plain(token: string) {
    AllDigits(token) ==> ArrayIndex(token).Ok?
  }

  /** All tokens but the last can be created from nothing. */
  predicate Creatable(path: Path) {
    forall i | 0 <= i < |path| - 1 :: Plain(path[i])
  }

  /** Unchecked access can go on from `v` with a token that names no child of it. */
  predicate Opens(v: Json, token: string) {
    match v
    case Null => Plain(token)
    case Object(_) => true
    case Array(_) => token == "-" || ArrayIndex(token).Ok?
    case _ => false
  }

  /** The parent exists but is null. */
  predicate ParentIsNull(doc: Json, path: Path)
    requires path != []
  {
    Resolve(doc, Parent(path)) == Ok(Null)
  }

  /** The parent does not exist, but unchecked access creates it: the first token names an existing
      child, the deepest existing value can be extended, and the tokens after it can be created. */
  predicate ParentIsCreated(doc: Json, path: Path)
    requires path != []
  {
    var rest := Onward(doc, path);
    1 < |rest| < |path| && Opens(Deepest(doc, path), rest[0]) && Creatable(rest[1..])
  }

  /** Exactly when an add below the root succeeds: where RFC 6902 allows it, and in two more cases, below
      a null and where a parent is created. The three cases exclude each other, so the code and the RFC
      agree exactly where neither of the two holds. */
  lemma AddSucceedsIff(doc: Json, path: Path, v: Json)
    requires path != []
    ensures Apply(doc, Add(path, v)).Ok? <==>
            CanAdd(doc, path) || ParentIsNull(doc, path) || ParentIsCreated(doc, path)
    ensures !(CanAdd(doc, path) && ParentIsNull(doc, path))
    ensures ParentIsCreated(doc, path) ==> !CanAdd(doc, path) && !ParentIsNull(doc, path)
  {
    hide CanAdd, ParentIsNull, CanHold, Creatable, Opens, Onward, Deepest, Apply;
    ParentIs(doc, path);
    AddTakes(doc, path, v);
  }

  /** What the RFC asks for, in terms of the deepest existing value. */
  lemma ParentIs(doc: Json, path: Path)
    requires path != []
    ensures var rest, v := Onward(doc, path), Deepest(doc, path);
            && (CanAdd(doc, path) <==> |rest| == 1 && CanHold(v, rest[0]))
            && (ParentIsNull(doc, path) <==> |rest| == 1 && v.Null?)
            && !(CanHold(v, rest[0]) && v.Null?)
  {
    hide ArrayIndex, Onward, Deepest, Resolve;
    DeepestIsDeepest(doc, path);
    assert path[..|path| - 1] == Parent(path);
  }

  lemma AddTakes(doc: Json, path: Path, v: Json)
    requires path != []
    ensures Apply(doc, Add(path, v)).Ok? <==> Takes(doc, path) && (|path| > 1 ==> |Onward(doc, path)| < |path|)
  {
    hide ArrayIndex, Creatable, Opens;
    UncheckedIff(doc, path, v);
  }

  /** What makes unchecked access and the add at its end succeed. */
  predicate Takes(doc: Json, path: Path)
    requires path != []
  {
    var rest, v := Onward(doc, path), Deepest(doc, path);
    if |rest| == 1 then v.Null? || CanHold(v, rest[0]) else Opens(v, rest[0]) && Creatable(rest[1..])
  }

  lemma {:induction false} UncheckedIff(doc: Json, path: Path, v: Json)
    requires path != []
    ensures AddUnchecked(doc, path, v).Ok? <==> Takes(doc, path)
    decreases |path|
  {
    hide ArrayIndex, Creatable;
    if |path| > 1 {
      hide Child, Opens, AddUnchecked;
      UncheckedStep(doc, path, v);
      if Child(doc, path[0]).Ok? {
        UncheckedIff(Child(doc, path[0]).value, path[1..], v);
      } else {
        FromNull(path[1..], v);
      }
    }
  }

  /** The first step of unchecked access. */
  lemma UncheckedStep(doc: Json, path: Path, v: Json)
    requires |path| > 1
    ensures var c, rest := Child(doc, path[0]), path[1..];
            AddUnchecked(doc, path, v).Ok? <==>
            if c.Ok? then AddUnchecked(c.value, rest, v).Ok?
            else Opens(doc, path[0]) && AddUnchecked(Null, rest, v).Ok?
  {
    hide ArrayIndex;
    IndexOfDash();
  }

  lemma IndexOfDash()
    ensures ArrayIndex("-").Err? && !AllDigits("-")
  {
    assert !IsDigit("-"[0]);
  }

  lemma {:induction false} FromNull(path: Path, v: Json)
    requires path != []
    ensures AddUnchecked(Null, path, v).Ok? <==> Creatable(path)
    decreases |path|
  {
    if |path| > 1 {
      hide ArrayIndex, AddUnchecked, Creatable, Plain;
      UncheckedStep(Null, path, v);
      FromNull(path[1..], v);
      CreatableStep(path);
    }
  }

  lemma CreatableStep(path: Path)
    requires |path| > 1
    ensures Creatable(path) <==> Plain(path[0]) && Creatable(path[1..])
  {
    hide Plain;
    if Creatable(path[1..]) {
      assert forall i | 0 < i < |path| - 1 :: path[i] == path[1..][i - 1];
    }
  }

  // ----- what an add leaves behind -----

  /** Somewhere the add uses `-` to append to an array: to one that exists, or to one it creates. */
  predicate Appends(doc: Json, path: Path)
    requires path != []
  {
    var rest, v := Onward(doc, path), Deepest(doc, path);
    || (rest[0] == "-" && (v.Array? || (v.Null? && |rest| > 1)))
    || DashWithin(rest[1..])
  }

  predicate DashWithin(path: Path) {
    exists i | 0 <= i < |path| - 1 :: path[i] == "-"
  }

  /** Whatever parents an add finds or creates, its value is at its location afterwards, unless `-` has
      been used to append: then the location is one that never exists. */
  lemma AddThenReadIff(doc: Json, path: Path, v: Json)
    requires path != [] && Apply(doc, Add(path, v)).Ok?
    ensures Resolve(Apply(doc, Add(path, v)).value, path)
            == if Appends(doc, path) then Err(OutOfRange(402)) else Ok(v)
  {
    hide Appends, Child, Resolve, AddChild;
    assert Apply(doc, Add(path, v)) == AddUnchecked(doc, path, v);
    ReadUnchecked(doc, path, v);
  }

  /** What unchecked access finds under its first token afterwards. */
  lemma FirstStep(doc: Json, path: Path, v: Json)
    requires |path| > 1 && AddUnchecked(doc, path, v).Ok?
    ensures var token, rest, result := path[0], path[1..], AddUnchecked(doc, path, v).value;
            var below := if Child(doc, token).Ok? then Child(doc, token).value else Null;
            && AddUnchecked(below, rest, v).Ok?
            && Child(result, token) == if token == "-" && !doc.Object? then Err(OutOfRange(402))
                                       else Ok(AddUnchecked(below, rest, v).value)
  {
    hide ArrayIndex;
    IndexOfDash();
  }

  lemma {:induction false} ReadUnchecked(doc: Json, path: Path, v: Json)
    requires path != [] && AddUnchecked(doc, path, v).Ok?
    ensures Resolve(AddUnchecked(doc, path, v).value, path)
            == if Appends(doc, path) then Err(OutOfRange(402)) else Ok(v)
    decreases |path|
  {
    if |path| == 1 {
      ReadOne(doc, path, v);
    } else {
      hide AddUnchecked, Child, Appends, Resolve;
      var token, rest := path[0], path[1..];
      var below := if Child(doc, token).Ok? then Child(doc, token).value else Null;
      FirstStep(doc, path, v);
      ReadUnchecked(below, rest, v);
      AppendsStep(doc, path);
      ResolveStep(AddUnchecked(doc, path, v).value, path);
    }
  }

  lemma ResolveStep(doc: Json, path: Path)
    requires path != []
    ensures var c := Child(doc, path[0]);
            Resolve(doc, path) == if c.Ok? then Resolve(c.value, path[1..]) else Err(c.error)
  {
    hide Child;
  }

  lemma ReadOne(doc: Json, path: Path, v: Json)
    requires |path| == 1 && AddUnchecked(doc, path, v).Ok?
    ensures Resolve(AddUnchecked(doc, path, v).value, path)
            == if Appends(doc, path) then Err(OutOfRange(402)) else Ok(v)
  {
    hide ArrayIndex;
    IndexOfDash();
    assert path[1..] == [];
  }

  lemma AppendsStep(doc: Json, path: Path)
    requires |path| > 1
    ensures var token, rest := path[0], path[1..];
            var below := if Child(doc, token).Ok? then Child(doc, token).value else Null;
            && (Appends(doc, path) <==> Appends(below, rest) || (token == "-" && !doc.Object? && Opens(doc, token)))
  {
    hide ArrayIndex, DashWithin;
    IndexOfDash();
    if Child(doc, path[0]).Err? {
      DashStep(path[1..]);
    }
  }

  lemma DashStep(path: Path)
    requires path != []
    ensures DashWithin(path) <==> (path[0] == "-" && |path| > 1) || DashWithin(path[1..])
  {
    if DashWithin(path[1..]) {
      var i :| 0 <= i < |path| - 2 && path[1..][i] == "-";
      assert path[i + 1] == "-";
    }
    if DashWithin(path) && path[0] != "-" {
      var i :| 0 <= i < |path| - 1 && path[i] == "-";
      assert path[1..][i - 1] == "-";
    }
  }

  /** Creating parents leaves everything else as it was: what exists off the path is still there. */
  lemma CreationDisturbsNothing(doc: Json, path: Path, v: Json, other: Path)
    requires path != [] && ParentIsCreated(doc, path) && Exists(doc, other) && !(other <= path)
    ensures Apply(doc, Add(path, v)).Ok?
    ensures Resolve(Apply(doc, Add(path, v)).value, other) == Resolve(doc, other)
  {
    hide ArrayIndex, Creatable, Opens;
    AddSucceedsIff(doc, path, v);
    UncheckedDisturbsNothing(doc, path, v, other);
  }

  lemma {:induction false} UncheckedDisturbsNothing(doc: Json, path: Path, v: Json, other: Path)
    requires path != [] && |Onward(doc, path)| > 1 && AddUnchecked(doc, path, v).Ok?
    requires Exists(doc, other) && !(other <= path)
    ensures Resolve(AddUnchecked(doc, path, v).value, other) == Resolve(doc, other)
    decreases |path|
  {
    hide ArrayIndex;
    IndexOfDash();
    var token, rest := path[0], path[1..];
    if Child(doc, token).Ok? && other[0] == token {
      assert path == [token] + rest && other == [token] + other[1..];
      UncheckedDisturbsNothing(Child(doc, token).value, rest, v, other[1..]);
    } else if doc.Array? && ArrayIndex(token).Ok? {
      DistinctIndices(token, other[0]);
    }
  }

  /** What an add to an existing parent makes of the document: the parent gets one more member, or a new
      value for one, or one more element before the named one; a null becomes an object with one member. */
  lemma {:induction false} AddIsStore(doc: Json, path: Path, v: Json)
    requires path != [] && (CanAdd(doc, path) || ParentIsNull(doc, path))
    ensures var last := path[|path| - 1];
            Apply(doc, Add(path, v))
            == Store(doc, Parent(path),
                     match Resolve(doc, Parent(path)).value
                     case Null => Object(map[last := v])
                     case Object(m) => Object(m[last := v])
                     case Array(items) =>
                       var i := if last == "-" then |items| else ArrayIndex(last).value;
                       Array(items[..i] + [v] + items[i..])
                     case other => other)
    ensures Apply(doc, Add(path, v)).Ok?
    decreases |path|
  {
    hide ArrayIndex;
    if |path| == 1 {
      assert Parent(path) == [];
      if doc.Array? && path[0] == "-" {
        assert doc.items[..|doc.items|] + [v] + doc.items[|doc.items|..] == doc.items + [v];
      }
    } else {
      ParentTail(path);
      AddIsStore(Child(doc, path[0]).value, path[1..], v);
      AddDescends(doc, path, v);
      AddSucceedsIff(doc, path, v);
      AddSucceedsIff(Child(doc, path[0]).value, path[1..], v);
      UncheckedIsAdd(Child(doc, path[0]).value, path[1..], v);
    }
  }

  /** Where the first token of a longer path exists, checking for it makes no difference. */
  lemma UncheckedIsAdd(doc: Json, path: Path, v: Json)
    requires path != [] && (|path| > 1 ==> Child(doc, path[0]).Ok?)
    ensures AddAt(doc, path, v) == AddUnchecked(doc, path, v)
  {
  }

  /** An add onto an existing member replaces it. */
  lemma AddOntoMember(doc: Json, path: Path, v: Json)
    requires path != [] && Exists(doc, path)
    requires Resolve(doc, Parent(path)).Ok? && Resolve(doc, Parent(path)).value.Object?
    ensures Apply(doc, Add(path, v)) == Apply(doc, Replace(path, v))
  {
    AddIsStore(doc, path, v);
    StoreInParent(doc, path, v);
  }

  /** Storing a value is storing its parent with the value in it. */
  lemma {:induction false} StoreInParent(doc: Json, path: Path, v: Json)
    requires path != [] && Exists(doc, path)
    ensures Exists(doc, Parent(path)) && Child(Resolve(doc, Parent(path)).value, path[|path| - 1]).Ok?
    ensures Store(doc, path, v)
            == Store(doc, Parent(path), WithChild(Resolve(doc, Parent(path)).value, path[|path| - 1], v))
    decreases |path|
  {
    if |path| == 1 {
      assert Parent(path) == [];
      OneStep(doc, path, v);
    } else {
      hide Child, WithChild;
      ParentTail(path);
      StoreInParent(Child(doc, path[0]).value, path[1..], v);
    }
  }

  /** An add whose parent is no array leaves everything apart from its location as it was. */
  lemma AddElsewhere(doc: Json, path: Path, v: Json, other: Path)
    requires path != [] && Apply(doc, Add(path, v)).Ok? && Exists(doc, other) && Apart(other, path)
    requires Exists(doc, Parent(path)) ==> !Resolve(doc, Parent(path)).value.Array?
    ensures Resolve(Apply(doc, Add(path, v)).value, other) == Resolve(doc, other)
  {
    hide AddUnchecked, Resolve, Child;
    assert Apply(doc, Add(path, v)) == AddUnchecked(doc, path, v) by {
      AddIsUnchecked(doc, path, v);
    }
    UncheckedElsewhere(doc, path, v, other);
  }

  /** Where the parent is an object that is there already, nothing appears elsewhere either. */
  lemma {:induction false} MemberAddIsLocal(doc: Json, path: Path, v: Json, other: Path)
    requires path != [] && CanAdd(doc, path) && Resolve(doc, Parent(path)).value.Object? && Apart(other, path)
    ensures Apply(doc, Add(path, v)).Ok?
    ensures Resolve(Apply(doc, Add(path, v)).value, other) == Resolve(doc, other)
    decreases |path|
  {
    hide ArrayIndex;
    AddSucceeds(doc, path, v);
    var token, rest := path[0], path[1..];
    if |path| == 1 {
      assert Parent(path) == [] && path == [token];
      assert other == [other[0]] + other[1..];
    } else {
      ParentTail(path);
      CanAddSteps(doc, path);
      var c := Child(doc, token).value;
      AddSucceeds(c, rest, v);
      AddDescends(doc, path, v);
      var c' := AddAt(c, rest, v).value;
      WithChildLaws(doc, token, c');
      if other[0] == token {
        assert path == [token] + rest && other == [token] + other[1..];
        MemberAddIsLocal(c, rest, v, other[1..]);
      } else {
        OtherChild(doc, token, c', other[0]);
      }
    }
  }

  lemma OtherChild(doc: Json, a: string, x: Json, b: string)
    requires a != b && Child(doc, a).Ok?
    ensures Child(WithChild(doc, a, x), b) == Child(doc, b)
  {
    hide ArrayIndex;
    if ArrayIndex(a).Ok? && ArrayIndex(b).Ok? {
      DistinctIndices(a, b);
    }
  }

  lemma AddIsUnchecked(doc: Json, path: Path, v: Json)
    requires path != [] && Apply(doc, Add(path, v)).Ok?
    ensures Apply(doc, Add(path, v)) == AddUnchecked(doc, path, v)
  {
  }

  lemma NotAppended(doc: Json, token: string)
    requires Child(doc, token).Ok?
    ensures token == "-" ==> doc.Object?
  {
  }

  /** A child that the path does not name stays. */
  lemma OldChild(doc: Json, path: Path, v: Json, token: string)
    requires |path| > 1 && AddUnchecked(doc, path, v).Ok? && token != path[0] && Child(doc, token).Ok?
    ensures Child(AddUnchecked(doc, path, v).value, token) == Child(doc, token)
  {
    hide ArrayIndex;
    IndexOfDash();
    if ArrayIndex(token).Ok? && ArrayIndex(path[0]).Ok? {
      DistinctIndices(token, path[0]);
    }
  }

  lemma {:induction false} UncheckedElsewhere(doc: Json, path: Path, v: Json, other: Path)
    requires path != [] && AddUnchecked(doc, path, v).Ok? && Exists(doc, other) && Apart(other, path)
    requires Exists(doc, Parent(path)) ==> !Resolve(doc, Parent(path)).value.Array?
    ensures Resolve(AddUnchecked(doc, path, v).value, other) == Resolve(doc, other)
    decreases |path|
  {
    var token, rest := path[0], path[1..];
    if |path| == 1 {
      assert Parent(path) == [] && path == [token];
      assert other == [other[0]] + other[1..];
    } else {
      hide AddUnchecked, Child, Resolve;
      ParentTail(path);
      FirstStep(doc, path, v);
      ResolveStep(doc, other);
      ResolveStep(AddUnchecked(doc, path, v).value, other);
      ResolveStep(doc, Parent(path));
      assert path == [token] + rest && other == [other[0]] + other[1..];
      if other[0] == token {
        NotAppended(doc, token);
        UncheckedElsewhere(Child(doc, token).value, rest, v, other[1..]);
      } else {
        OldChild(doc, path, v, other[0]);
      }
    }
  }

  /** An array that has room before the i-th element and has a j-th one. */
  predicate HasElements(v: Json, i: nat, j: nat) {
    v.Array? && i <= |v.items| && i < SIZE_MAX && j < |v.items| && j + 1 < SIZE_MAX
  }

  /** An insertion into an array moves the elements from its place on up by one, with all that is in them. */
  lemma InsertElsewhere(doc: Json, at: Path, i: nat, v: Json, j: nat, rest: Path)
    requires Exists(doc, at) && HasElements(Resolve(doc, at).value, i, j)
    ensures Apply(doc, Add(at + [Decimal(i)], v)).Ok?
    ensures Resolve(Apply(doc, Add(at + [Decimal(i)], v)).value, at + ([Decimal(if j < i then j else j + 1)] + rest))
            == Resolve(doc, at + ([Decimal(j)] + rest))
  {
    hide Decimal, Store, Resolve, Apply;
    var items := Resolve(doc, at).value.items;
    var next := Inserted(items, i, v);
    InsertIsStore(doc, at, i, v);
    ReplaceThenRead(doc, at, Array(next));
    ReadElement(doc, at, items, j, rest);
    ReadElement(Store(doc, at, Array(next)).value, at, next, if j < i then j else j + 1, rest);
  }

  function Inserted(items: seq<Json>, i: nat, v: Json): (r: seq<Json>)
    requires i <= |items|
    ensures |r| == |items| + 1 && r[i] == v
    ensures forall j | 0 <= j < |items| :: r[if j < i then j else j + 1] == items[j]
  {
    items[..i] + [v] + items[i..]
  }

  lemma InsertIsStore(doc: Json, at: Path, i: nat, v: Json)
    requires Exists(doc, at) && Resolve(doc, at).value.Array?
    requires i <= |Resolve(doc, at).value.items| && i < SIZE_MAX
    ensures Apply(doc, Add(at + [Decimal(i)], v)) == Store(doc, at, Array(Inserted(Resolve(doc, at).value.items, i, v)))
    ensures Apply(doc, Add(at + [Decimal(i)], v)).Ok?
  {
    hide Decimal, Store, Resolve, Apply, CanAdd;
    IndexPath(doc, at, i);
    AddIsStore(doc, at + [Decimal(i)], v);
  }

  lemma ReadElement(doc: Json, at: Path, items: seq<Json>, j: nat, rest: Path)
    requires Resolve(doc, at) == Ok(Array(items)) && j < |items| && j < SIZE_MAX
    ensures Resolve(doc, at + ([Decimal(j)] + rest)) == Resolve(items[j], rest)
  {
    hide Decimal, Resolve;
    ResolveAppend(doc, at, [Decimal(j)] + rest);
    ResolveIndex(items, j, rest);
  }

  lemma IndexPath(doc: Json, at: Path, i: nat)
    requires Exists(doc, at) && Resolve(doc, at).value.Array?
    requires i <= |Resolve(doc, at).value.items| && i < SIZE_MAX
    ensures Parent(at + [Decimal(i)]) == at && CanAdd(doc, at + [Decimal(i)])
    ensures ArrayIndex(Decimal(i)) == Ok(i) && Decimal(i) != "-"
  {
    hide Decimal, Resolve;
    ArrayIndexIffPrinted(Decimal(i), i);
    IndexIsNoDash(i);
    assert Parent(at + [Decimal(i)]) == at;
  }

  lemma ResolveIndex(items: seq<Json>, j: nat, rest: Path)
    requires j < |items| && j < SIZE_MAX
    ensures Resolve(Array(items), [Decimal(j)] + rest) == Resolve(items[j], rest)
  {
    hide Decimal;
    ArrayIndexIffPrinted(Decimal(j), j);
    IndexIsNoDash(j);
    assert ([Decimal(j)] + rest)[1..] == rest;
  }

  /** A child of the result that the path does not name was there before, or is a null. */
  lemma NewChild(doc: Json, path: Path, v: Json, token: string)
    requires |path| > 1 && AddUnchecked(doc, path, v).Ok? && token != path[0]
    requires path[0] == "-" ==> doc.Object?
    ensures var c := Child(AddUnchecked(doc, path, v).value, token);
            c.Ok? ==> c == Child(doc, token) || c == Ok(Null)
  {
    hide ArrayIndex;
    IndexOfDash();
    if ArrayIndex(token).Ok? && ArrayIndex(path[0]).Ok? {
      DistinctIndices(token, path[0]);
    }
  }

  lemma OnlyMember(token: string, v: Json, path: Path)
    requires Exists(Object(map[token := v]), path)
    ensures path == [] || path[0] == token
  {
  }

  /** Creating parents adds nothing that was not asked for: apart from the path there is only what was there
      before, and the nulls that fill an array up. */
  lemma CreationAddsNothing(doc: Json, path: Path, v: Json, other: Path)
    requires path != [] && ParentIsCreated(doc, path) && !Appends(doc, path)
    ensures Apply(doc, Add(path, v)).Ok?
    ensures var r := Apply(doc, Add(path, v)).value;
            Exists(r, other) && Apart(other, path) ==> Exists(doc, other) || Resolve(r, other) == Ok(Null)
  {
    hide ArrayIndex, Creatable, Opens, Appends, AddUnchecked;
    AddSucceedsIff(doc, path, v);
    AddIsUnchecked(doc, path, v);
    if Exists(AddUnchecked(doc, path, v).value, other) && Apart(other, path) {
      NothingElseCreated(doc, path, v, other);
    }
  }

  lemma NullHasNone(path: Path)
    ensures Exists(Null, path) ==> path == [] && Resolve(Null, path) == Ok(Null)
    ensures path != [] ==> Child(Null, path[0]).Err?
  {
  }

  lemma OneCreated(path: Path, v: Json)
    requires |path| == 1
    ensures AddUnchecked(Null, path, v) == Ok(Object(map[path[0] := v]))
  {
  }

  lemma CreatedOpens(doc: Json, path: Path, v: Json)
    requires |path| > 1 && AddUnchecked(doc, path, v).Ok? && !Appends(doc, path)
    ensures path[0] == "-" ==> doc.Object?
  {
    hide ArrayIndex, Appends;
    AppendsStep(doc, path);
    UncheckedStep(doc, path, v);
    IndexOfDash();
  }

  lemma {:induction false} NothingElseCreated(doc: Json, path: Path, v: Json, other: Path)
    requires path != [] && |Onward(doc, path)| > 1 && AddUnchecked(doc, path, v).Ok? && !Appends(doc, path)
    requires Exists(AddUnchecked(doc, path, v).value, other) && Apart(other, path)
    ensures Exists(doc, other) || Resolve(AddUnchecked(doc, path, v).value, other) == Ok(Null)
    decreases |path|
  {
    hide AddUnchecked, Child, Resolve, Appends;
    var token, rest := path[0], path[1..];
    var below := if Child(doc, token).Ok? then Child(doc, token).value else Null;
    AppendsStep(doc, path);
    FirstStep(doc, path, v);
    ResolveStep(doc, other);
    ResolveStep(AddUnchecked(doc, path, v).value, other);
    NullHasNone(other[1..]);
    NullHasNone(rest);
    assert path == [token] + rest && other == [other[0]] + other[1..];
    if other[0] == token {
      if |rest| > 1 {
        NothingElseCreated(below, rest, v, other[1..]);
      } else {
        OneCreated(rest, v);
        OnlyMember(rest[0], v, other[1..]);
      }
    } else {
      CreatedOpens(doc, path, v);
      NewChild(doc, path, v, other[0]);
    }
  }

  /** Inputs on which the code adds where section 4.1 of RFC 6902 has it fail: below a null, and below
      parents that do not exist. */
  lemma AddBelowNull(v: Json)
    ensures Apply(Null, Add(["x"], v)) == Ok(Object(map["x" := v]))
    ensures !CanAdd(Null, ["x"])
  {
    var path: Path := ["x"];
    assert Parent(path) == [];
  }

  lemma AddBelowNothing(v: Json)
    ensures var doc := Object(map["a" := Object(map[])]);
            && Apply(doc, Add(["a", "b", "c"], v))
               == Ok(Object(map["a" := Object(map["b" := Object(map["c" := v])])]))
            && !CanAdd(doc, ["a", "b", "c"])
  {
    var doc, path: Path := Object(map["a" := Object(map[])]), ["a", "b", "c"];
    var two, one := path[1..], path[1..][1..];
    assert two == ["b", "c"] && one == ["c"];
    assert Parent(path) == ["a", "b"] && Parent(path)[1..] == ["b"];
    assert Resolve(Object(map[]), Parent(path)[1..]).Err?;
    assert AddUnchecked(Null, one, v) == Ok(Object(map["c" := v]));
    assert AddUnchecked(Object(map[]), two, v) == Ok(Object(map["b" := Object(map["c" := v])]));
    assert Child(doc, "a") == Ok(Object(map[]));
    AddDescends(doc, path, v);
    assert map["a" := Object(map[])]["a" := Object(map["b" := Object(map["c" := v])])]
           == map["a" := Object(map["b" := Object(map["c" := v])])];
  }

  // ----- remove -----

  /** The parent exists and is neither an object nor an array. */
  predicate ParentIsPrimitive(doc: Json, path: Path)
    requires path != []
  {
    var parent := Resolve(doc, Parent(path));
    parent.Ok? && !parent.value.Object? && !parent.value.Array?
  }

  /** Exactly when remove succeeds: below the root, where RFC 6902 asks that the target exist, and in
      one more case, below a primitive value, where it changes nothing. */
  lemma {:induction false} RemoveSucceedsIff(doc: Json, path: Path)
    ensures Apply(doc, Remove(path)).Ok? <==> path != [] && (Exists(doc, path) || ParentIsPrimitive(doc, path))
    ensures path != [] && ParentIsPrimitive(doc, path) ==>
              !Exists(doc, path) && Apply(doc, Remove(path)) == Ok(doc)
  {
    if |path| == 1 {
      assert Parent(path) == [];
      OneStep(doc, path, Null);
      IndexOfDash();
    } else if |path| > 1 {
      ParentTail(path);
      if Child(doc, path[0]).Ok? {
        RemoveSucceedsIff(Child(doc, path[0]).value, path[1..]);
        WithChildLaws(doc, path[0], doc);
      }
    }
  }

  /** What a remove makes of the document: the parent loses the member, or the element, and those behind it
      move up. */
  lemma {:induction false} RemoveIsStore(doc: Json, path: Path)
    requires path != [] && Exists(doc, path)
    ensures Apply(doc, Remove(path)).Ok? && Exists(doc, Parent(path))
    ensures var parent, last := Resolve(doc, Parent(path)).value, path[|path| - 1];
            parent.Object? ==> Apply(doc, Remove(path)) == Store(doc, Parent(path), Object(parent.members - {last}))
    ensures var parent, i := Resolve(doc, Parent(path)).value, ArrayIndex(path[|path| - 1]);
            parent.Array? ==>
              && i.Ok? && i.value < |parent.items|
              && Apply(doc, Remove(path))
                 == Store(doc, Parent(path), Array(parent.items[..i.value] + parent.items[i.value + 1..]))
    ensures Resolve(doc, Parent(path)).value.Object? || Resolve(doc, Parent(path)).value.Array?
    decreases |path|
  {
    hide ArrayIndex;
    if |path| == 1 {
      assert Parent(path) == [];
      OneStep(doc, path, Null);
    } else {
      ParentTail(path);
      RemoveIsStore(Child(doc, path[0]).value, path[1..]);
    }
  }

  /** A remove from an object leaves everything apart from its location as it was. */
  lemma {:induction false} RemoveElsewhere(doc: Json, path: Path, other: Path)
    requires path != [] && Exists(doc, path) && Exists(doc, other) && Apart(other, path)
    requires Exists(doc, Parent(path)) ==> Resolve(doc, Parent(path)).value.Object?
    ensures Apply(doc, Remove(path)).Ok?
    ensures Resolve(Apply(doc, Remove(path)).value, other) == Resolve(doc, other)
    decreases |path|
  {
    hide ArrayIndex;
    RemoveSucceedsIff(doc, path);
    var token, rest := path[0], path[1..];
    if |path| == 1 {
      assert Parent(path) == [] && path == [token];
      assert other == [other[0]] + other[1..];
    } else {
      ParentTail(path);
      var c := Child(doc, token).value;
      RemoveSucceedsIff(c, rest);
      var c' := RemoveAt(c, rest).value;
      WithChildLaws(doc, token, c');
      if other[0] == token {
        assert path == [token] + rest && other == [token] + other[1..];
        RemoveElsewhere(c, rest, other[1..]);
      } else {
        TwoChildren(doc, token, c', other[0], c');
      }
    }
  }

  /** An input on which the code removes what is not there. */
  lemma RemoveBelowNumber(n: int)
    ensures var doc := Object(map["a" := Number(n)]);
            Apply(doc, Remove(["a", "b"])) == Ok(doc) && !Exists(doc, ["a", "b"])
  {
    var doc, path: Path := Object(map["a" := Number(n)]), ["a", "b"];
    assert Parent(path) == ["a"] && ["a"][1..] == [];
    assert Resolve(doc, Parent(path)) == Ok(Number(n));
    RemoveSucceedsIff(doc, path);
  }

  // ----- move and copy -----

  /** The add that a move or a copy ends with succeeds. */
  predicate AddAccepted(doc: Json, path: Path) {
    path != [] ==> CanAdd(doc, path) || ParentIsNull(doc, path) || ParentIsCreated(doc, path)
  }

  /** Exactly when move and copy succeed: whether one location lies within the other is not asked. */
  lemma MoveSucceedsIff(doc: Json, path: Path, from: Path)
    ensures Apply(doc, Move(path, from)).Ok? <==>
            && from != [] && Exists(doc, from)
            && Apply(doc, Remove(from)).Ok? && AddAccepted(Apply(doc, Remove(from)).value, path)
    ensures Apply(doc, Copy(path, from)).Ok? <==> Exists(doc, from) && AddAccepted(doc, path)
  {
    RemoveSucceedsIff(doc, from);
    if Exists(doc, from) {
      var v := Resolve(doc, from).value;
      if path != [] {
        AddSucceedsIff(doc, path, v);
      }
      if from != [] && path != [] {
        AddSucceedsIff(RemoveAt(doc, from).value, path, v);
      }
    }
  }

  /** A copy puts the value of its source at its location; the source, like everything apart from the
      location, stays as it was. */
  lemma CopyThenRead(doc: Json, path: Path, from: Path)
    requires Apply(doc, Copy(path, from)).Ok?
    ensures Resolve(Apply(doc, Copy(path, from)).value, path)
            == if path != [] && Appends(doc, path) then Err(OutOfRange(402)) else Resolve(doc, from)
  {
    hide Appends, Child, AddAt;
    if path == [] {
      RootAdd(doc, Resolve(doc, from).value);
    } else {
      AddThenReadIff(doc, path, Resolve(doc, from).value);
    }
  }

  lemma RootAdd(doc: Json, v: Json)
    ensures Apply(doc, Add([], v)) == Ok(v)
  {
  }

  lemma CopyElsewhere(doc: Json, path: Path, from: Path, other: Path)
    requires path != [] && Apply(doc, Copy(path, from)).Ok? && Exists(doc, other) && Apart(other, path)
    requires Exists(doc, Parent(path)) ==> !Resolve(doc, Parent(path)).value.Array?
    ensures Resolve(Apply(doc, Copy(path, from)).value, other) == Resolve(doc, other)
  {
    AddElsewhere(doc, path, Resolve(doc, from).value, other);
  }

  /** Removing a copy from a new location restores the document. */
  lemma RemoveUndoesCopy(doc: Json, path: Path, from: Path)
    requires path != [] && IsFresh(doc, path) && Exists(doc, from)
    ensures Apply(doc, Copy(path, from)).Ok?
    ensures Apply(Apply(doc, Copy(path, from)).value, Remove(path)) == Ok(doc)
  {
    RemoveUndoesAdd(doc, path, Resolve(doc, from).value);
  }

  /** A move puts the value of its source at its location, whether something is replaced there or not. */
  lemma MoveThenRead(doc: Json, path: Path, from: Path)
    requires Apply(doc, Move(path, from)).Ok?
    ensures Apply(doc, Remove(from)).Ok?
    ensures var rest := Apply(doc, Remove(from)).value;
            Resolve(Apply(doc, Move(path, from)).value, path)
            == if path != [] && Appends(rest, path) then Err(OutOfRange(402)) else Resolve(doc, from)
  {
    hide Appends, Child, AddAt, RemoveAt;
    var rest := Apply(doc, Remove(from)).value;
    if path == [] {
      RootAdd(rest, Resolve(doc, from).value);
    } else {
      AddThenReadIff(rest, path, Resolve(doc, from).value);
    }
  }

  /** The parent of the location, if there is one, is no array. */
  predicate NotIntoArray(doc: Result<Json>, path: Path)
    requires path != []
  {
    doc.Ok? && Exists(doc.value, Parent(path)) ==> !Resolve(doc.value, Parent(path)).value.Array?
  }

  /** The parent of the location is an object. */
  predicate IntoObject(doc: Result<Json>, path: Path)
    requires path != []
  {
    doc.Ok? ==> CanAdd(doc.value, path) && Resolve(doc.value, Parent(path)).value.Object?
  }

  /** A move between objects leaves everything apart from its two locations as it was. */
  lemma MoveElsewhere(doc: Json, path: Path, from: Path, other: Path)
    requires path != [] && Apply(doc, Move(path, from)).Ok?
    requires Exists(doc, other) && Apart(other, path) && Apart(other, from)
    requires from != [] && Exists(doc, Parent(from)) ==> Resolve(doc, Parent(from)).value.Object?
    requires NotIntoArray(RemoveAt(doc, from), path)
    ensures Resolve(Apply(doc, Move(path, from)).value, other) == Resolve(doc, other)
  {
    hide AddAt, RemoveAt, Child;
    RemoveSucceedsIff(doc, from);
    RemoveElsewhere(doc, from, other);
    AddElsewhere(Apply(doc, Remove(from)).value, path, Resolve(doc, from).value, other);
  }

  /** A member that is moved to another object, or to another name, is gone from where it was. */
  lemma MoveLeaves(doc: Json, path: Path, from: Path)
    requires from != [] && path != [] && Exists(doc, from) && Apart(from, path)
    requires Resolve(doc, Parent(from)).Ok? ==> Resolve(doc, Parent(from)).value.Object?
    requires IntoObject(RemoveAt(doc, from), path)
    ensures Apply(doc, Move(path, from)).Ok?
    ensures !Exists(Apply(doc, Move(path, from)).value, from)
  {
    hide AddAt, RemoveAt, Child;
    RemoveSucceedsIff(doc, from);
    RemovedIsGone(doc, from);
    MemberAddIsLocal(Apply(doc, Remove(from)).value, path, Resolve(doc, from).value, from);
  }

  lemma {:induction false} RemovedIsGone(doc: Json, path: Path)
    requires path != [] && Exists(doc, path)
    requires Exists(doc, Parent(path)) ==> Resolve(doc, Parent(path)).value.Object?
    ensures Apply(doc, Remove(path)).Ok? && !Exists(Apply(doc, Remove(path)).value, path)
    decreases |path|
  {
    RemoveSucceedsIff(doc, path);
    if |path| == 1 {
      assert Parent(path) == [];
      OneStep(Apply(doc, Remove(path)).value, path, Null);
    } else {
      ParentTail(path);
      var c := Child(doc, path[0]).value;
      RemovedIsGone(c, path[1..]);
      WithChildLaws(doc, path[0], RemoveAt(c, path[1..]).value);
    }
  }

  /** Exactly when a value can be moved into itself, which section 4.4 of RFC 6902 forbids. Mostly its
      removal leaves nothing where it was; then its parent must not be the root, and the path below it is
      created anew. But in an array the next element may have moved up, and then takes the value in. */
  lemma MoveIntoItselfIff(doc: Json, path: Path, from: Path)
    requires from < path && from != [] && Exists(doc, from)
    ensures Apply(doc, Remove(from)).Ok?
    ensures var rest := Apply(doc, Remove(from)).value;
            Apply(doc, Move(path, from)).Ok? <==>
              if Exists(rest, from) then Takes(Resolve(rest, from).value, path[|from|..])
              else |from| > 1 && Creatable(path[|from|..])
  {
    hide Takes, Onward, Deepest, Opens, Creatable, AddAt, RemoveAt;
    RemoveSucceedsIff(doc, from);
    var v, rest := Resolve(doc, from).value, Apply(doc, Remove(from)).value;
    if Exists(rest, from) {
      AddBelow(rest, path, from, v);
      UncheckedIff(Resolve(rest, from).value, path[|from|..], v);
    } else {
      Vacated(doc, path, from);
      OnlyCreated(rest, path, from, v);
    }
  }

  lemma OnlyCreated(doc: Json, path: Path, from: Path, v: Json)
    requires from < path && from != []
    requires Onward(doc, path) == path[|from| - 1..] && Opens(Deepest(doc, path), path[|from| - 1])
    ensures Apply(doc, Add(path, v)).Ok? <==> |from| > 1 && Creatable(path[|from|..])
  {
    hide Opens, Creatable, Onward, Deepest, Apply, CanHold;
    AddTakes(doc, path, v);
    assert path[|from| - 1..][1..] == path[|from|..];
  }

  lemma LaterTail(path: Path, n: nat)
    requires 0 < n <= |path|
    ensures path[n..] == path[1..][n - 1..]
  {
  }

  /** An add below an existing location is an unchecked one there. */
  lemma {:induction false} AddBelow(doc: Json, path: Path, at: Path, v: Json)
    requires at < path && at != [] && Exists(doc, at)
    ensures Apply(doc, Add(path, v)).Ok? <==> AddUnchecked(Resolve(doc, at).value, path[|at|..], v).Ok?
    decreases |path|
  {
    hide ArrayIndex, AddUnchecked, AddAt, Child;
    var c, rest := Child(doc, path[0]).value, path[1..];
    AddDescends(doc, path, v);
    if |at| == 1 {
      OneStep(doc, at, v);
    } else {
      AddBelow(c, rest, at[1..], v);
      UncheckedIsAdd(c, rest, v);
      LaterTail(path, |at|);
    }
  }

  /** After a removal that leaves nothing behind, the place of the value is where the path ends. */
  lemma {:induction false} Vacated(doc: Json, path: Path, from: Path)
    requires from < path && from != [] && Exists(doc, from)
    requires RemoveAt(doc, from).Ok? && !Exists(RemoveAt(doc, from).value, from)
    ensures var rest := RemoveAt(doc, from).value;
            Onward(rest, path) == path[|from| - 1..] && Opens(Deepest(rest, path), path[|from| - 1])
    decreases |path|
  {
    var token := from[0];
    if |from| == 1 {
      OneStep(doc, from, Null);
      OneStep(RemoveChild(doc, token).value, from, Null);
    } else {
      WithChildLaws(doc, token, RemoveAt(Child(doc, token).value, from[1..]).value);
      Vacated(Child(doc, token).value, path[1..], from[1..]);
    }
  }

  /** An input on which the code moves a value into itself. */
  lemma MoveIntoItself(v: Json)
    ensures var doc := Object(map["a" := Object(map["b" := v])]);
            Apply(doc, Move(["a", "b", "c"], ["a", "b"]))
            == Ok(Object(map["a" := Object(map["b" := Object(map["c" := v])])]))
  {
    var doc, from: Path := Object(map["a" := Object(map["b" := v])]), ["a", "b"];
    var inner, one := Object(map["b" := v]), from[1..];
    assert one == ["b"] && one[1..] == [];
    assert map["b" := v] - {"b"} == map[];
    assert RemoveAt(inner, one) == Ok(Object(map[])) && Resolve(inner, one) == Ok(v);
    assert Child(doc, "a") == Ok(inner);
    var rest := Object(map["a" := Object(map[])]);
    assert map["a" := Object(map["b" := v])]["a" := Object(map[])] == map["a" := Object(map[])];
    assert Apply(doc, Remove(from)) == Ok(rest) && Resolve(doc, from) == Ok(v);
    AddBelowNothing(v);
  }
}
