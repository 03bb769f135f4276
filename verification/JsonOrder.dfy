/** operator< of basic_json, and the proof that it is a strict total order. */
module JsonOrder {
  import opened Text
  import opened Sequences
  import opened JsonValue

  predicate Less(a: Json, b: Json)
    decreases Nodes(a) + Nodes(b), 0
  {
    match (a, b)
    case (Null, Null) => false
    case (Bool(x), Bool(y)) => !x && y
    case (Number(x), Number(y)) => x < y
    case (String(x), String(y)) => StringLess(x, y)
    case (Array(xs), Array(ys)) => LessArrays(xs, ys)
    case (Object(m), Object(n)) =>
      SortedKeysElements(m.Keys);
      SortedKeysElements(n.Keys);
      LessMembers(a, SortedKeys(m.Keys), b, SortedKeys(n.Keys))
    case _ => Rank(a) < Rank(b)
  }

  /** std::lexicographical_compare on the elements of two vectors. */
  predicate LessArrays(xs: seq<Json>, ys: seq<Json>)
    decreases NodesOf(xs) + NodesOf(ys), 1
  {
    if ys == [] then false
    else if xs == [] then true
    else if Less(xs[0], ys[0]) then true
    else if Less(ys[0], xs[0]) then false
    else LessArrays(xs[1..], ys[1..])
  }

  /** std::lexicographical_compare on the members of two maps, each a pair of key and value; the
      members are those of `a` and `b` named in `ks` and `ls`. */
  predicate LessMembers(a: Json, ks: seq<string>, b: Json, ls: seq<string>)
    requires a.Object? && b.Object?
    requires forall k | k in ks :: k in a.members
    requires forall l | l in ls :: l in b.members
    decreases MemberNodes(a, ks) + MemberNodes(b, ls), 1
  {
    if ls == [] then false
    else if ks == [] then true
    else
      var x, y := a.members[ks[0]], b.members[ls[0]];
      if StringLess(ks[0], ls[0]) then true
      else if StringLess(ls[0], ks[0]) then false
      else if Less(x, y) then true
      else if Less(y, x) then false
      else LessMembers(a, ks[1..], b, ls[1..])
  }

  predicate SameMembers(a: Json, ks: seq<string>, b: Json, ls: seq<string>)
    requires a.Object? && b.Object?
  {
    ks == ls && forall k | k in ks :: k in a.members && k in b.members && a.members[k] == b.members[k]
  }

  predicate ExactlyOne(p: bool, q: bool, r: bool) {
    (p || q || r) && !(p && q) && !(q && r) && !(p && r)
  }

  // ----- exactly one of a < b, a == b, b < a -----

  lemma {:induction false} Trichotomy(a: Json, b: Json)
    ensures ExactlyOne(Less(a, b), a == b, Less(b, a))
    decreases Nodes(a) + Nodes(b), 0
  {
    if Rank(a) == Rank(b) {
      match a {
        case String(x) => StringLessTotal(x, b.s); StringLessIrreflexive(x);
        case Array(xs) => ArrayTrichotomy(xs, b.items);
        case Object(m) =>
          SortedKeysElements(m.Keys);
          SortedKeysElements(b.members.Keys);
          var ks, ls := SortedKeys(m.Keys), SortedKeys(b.members.Keys);
          MemberTrichotomy(a, ks, b, ls);
          SameMembersSame(a, b);
        case _ =>
      }
    }
  }

  lemma SameMembersSame(a: Json, b: Json)
    requires a.Object? && b.Object?
    ensures SameMembers(a, SortedKeys(a.members.Keys), b, SortedKeys(b.members.Keys)) <==> a == b
  {
    SortedKeysElements(a.members.Keys);
    SortedKeysElements(b.members.Keys);
    if SameMembers(a, SortedKeys(a.members.Keys), b, SortedKeys(b.members.Keys)) {
      assert forall k :: k in a.members.Keys <==> k in b.members.Keys;
      assert a.members == b.members;
    }
  }

  lemma {:induction false} ArrayTrichotomy(xs: seq<Json>, ys: seq<Json>)
    ensures ExactlyOne(LessArrays(xs, ys), xs == ys, LessArrays(ys, xs))
    decreases NodesOf(xs) + NodesOf(ys), 1
  {
    if xs != [] && ys != [] {
      Trichotomy(xs[0], ys[0]);
      ArrayTrichotomy(xs[1..], ys[1..]);
      assert xs == [xs[0]] + xs[1..] && ys == [ys[0]] + ys[1..];
    }
  }

  lemma {:induction false} MemberTrichotomy(a: Json, ks: seq<string>, b: Json, ls: seq<string>)
    requires a.Object? && b.Object?
    requires forall k | k in ks :: k in a.members
    requires forall l | l in ls :: l in b.members
    ensures ExactlyOne(LessMembers(a, ks, b, ls), SameMembers(a, ks, b, ls), LessMembers(b, ls, a, ks))
    decreases MemberNodes(a, ks) + MemberNodes(b, ls), 1
  {
    if ks != [] && ls != [] {
      StringLessTotal(ks[0], ls[0]);
      StringLessIrreflexive(ks[0]);
      Trichotomy(a.members[ks[0]], b.members[ls[0]]);
      MemberTrichotomy(a, ks[1..], b, ls[1..]);
      assert ks == [ks[0]] + ks[1..] && ls == [ls[0]] + ls[1..];
    }
  }

  // ----- transitivity -----

  lemma {:induction false} Transitive(a: Json, b: Json, c: Json)
    requires Less(a, b) && Less(b, c)
    ensures Less(a, c)
    decreases Nodes(a) + Nodes(b) + Nodes(c), 0
  {
    match (a, b, c) {
      case (String(x), String(y), String(z)) => StringLessTransitive(x, y, z);
      case (Array(xs), Array(ys), Array(zs)) => ArrayTransitive(xs, ys, zs);
      case (Object(m), Object(n), Object(o)) =>
        SortedKeysElements(m.Keys);
        SortedKeysElements(n.Keys);
        SortedKeysElements(o.Keys);
        MemberTransitive(a, SortedKeys(m.Keys), b, SortedKeys(n.Keys), c, SortedKeys(o.Keys));
      case _ =>
    }
  }

  /** One step of a lexicographic comparison: the heads decide, or the heads are equal. */
  lemma {:induction false} HeadTransitive(x: Json, y: Json, z: Json)
    requires !Less(y, x) && !Less(z, y)
    ensures x == y == z || (Less(x, z) && !Less(z, x))
    decreases Nodes(x) + Nodes(y) + Nodes(z), 1
  {
    Trichotomy(x, y);
    Trichotomy(y, z);
    Trichotomy(x, z);
    if Less(x, y) && Less(y, z) {
      Transitive(x, y, z);
    }
  }

  lemma {:induction false} ArrayTransitive(xs: seq<Json>, ys: seq<Json>, zs: seq<Json>)
    requires LessArrays(xs, ys) && LessArrays(ys, zs)
    ensures LessArrays(xs, zs)
    decreases NodesOf(xs) + NodesOf(ys) + NodesOf(zs), 2
  {
    if xs != [] {
      Trichotomy(xs[0], ys[0]);
      Trichotomy(ys[0], zs[0]);
      HeadTransitive(xs[0], ys[0], zs[0]);
      Trichotomy(xs[0], xs[0]);
      if xs[0] == ys[0] == zs[0] {
        ArrayTransitive(xs[1..], ys[1..], zs[1..]);
      }
    }
  }

  lemma {:induction false} MemberTransitive(a: Json, ks: seq<string>, b: Json, ls: seq<string>,
                                            c: Json, ms: seq<string>)
    requires a.Object? && b.Object? && c.Object?
    requires forall k | k in ks :: k in a.members
    requires forall l | l in ls :: l in b.members
    requires forall m | m in ms :: m in c.members
    requires LessMembers(a, ks, b, ls) && LessMembers(b, ls, c, ms)
    ensures LessMembers(a, ks, c, ms)
    decreases MemberNodes(a, ks) + MemberNodes(b, ls) + MemberNodes(c, ms), 2
  {
    if ks != [] {
      var k, l, m := ks[0], ls[0], ms[0];
      StringLessTotal(k, l);
      StringLessTotal(l, m);
      KeyTransitive(k, l, m);
      if k == l == m {
        var x, y, z := a.members[k], b.members[l], c.members[m];
        Trichotomy(x, y);
        Trichotomy(y, z);
        HeadTransitive(x, y, z);
        Trichotomy(x, x);
        if x == y == z {
          MemberTransitive(a, ks[1..], b, ls[1..], c, ms[1..]);
        }
      }
    }
  }

  lemma KeyTransitive(k: string, l: string, m: string)
    requires !StringLess(l, k) && !StringLess(m, l)
    ensures (k == l == m && !StringLess(k, k)) || (StringLess(k, m) && !StringLess(m, k))
  {
    StringLessIrreflexive(k);
    StringLessTotal(k, l);
    StringLessTotal(l, m);
    StringLessTotal(k, m);
    if StringLess(k, l) && StringLess(l, m) {
      StringLessTransitive(k, l, m);
    }
  }

  // ----- the main result -----

  /** operator< is a strict total order compatible with operator==: no value is below itself, it is
      transitive, and of two values exactly one of <, ==, > holds. */
  lemma StrictTotalOrder(a: Json, b: Json, c: Json)
    ensures !Less(a, a)
    ensures Less(a, b) && Less(b, c) ==> Less(a, c)
    ensures ExactlyOne(Less(a, b), Equal(a, b), Less(b, a))
  {
    Trichotomy(a, a);
    Trichotomy(a, b);
    EqualIsIdentity(a, b);
    if Less(a, b) && Less(b, c) {
      Transitive(a, b, c);
    }
  }

  // ----- which way values are ordered -----

  /** The type of `a` comes before the type of `b`: null, boolean, number, object, array, string. */
  predicate TypeBefore(a: Json, b: Json) {
    match a
    case Null => !b.Null?
    case Bool(_) => !b.Null? && !b.Bool?
    case Number(_) => b.Object? || b.Array? || b.String?
    case Object(_) => b.Array? || b.String?
    case Array(_) => b.String?
    case String(_) => false
  }

  type Member = (string, Json)

  /** The members of an object, each with its key, in the order of the keys. */
  function Pairs(v: Json): (pairs: seq<Member>)
    requires v.Object?
  {
    SortedKeysElements(v.members.Keys);
    PairsOf(v, SortedKeys(v.members.Keys))
  }

  function PairsOf(v: Json, keys: seq<string>): seq<Member>
    requires v.Object? && forall k | k in keys :: k in v.members
  {
    if keys == [] then [] else [(keys[0], v.members[keys[0]])] + PairsOf(v, keys[1..])
  }

  /** operator< of std::pair: the keys decide, and the values under equal keys. */
  predicate MemberLess(x: Member, y: Member) {
    StringLess(x.0, y.0) || (x.0 == y.0 && Less(x.1, y.1))
  }

  /** What the order is: numbers as integers, false before true, strings, arrays and objects as
      lexicographic sequences, and values of different types by their types. */
  lemma LessIff(a: Json, b: Json)
    ensures Less(a, b) <==>
            match (a, b)
            case (Number(x), Number(y)) => x < y
            case (Bool(x), Bool(y)) => x == false && y == true
            case (String(x), String(y)) => Lexicographic(x, y, (c, d) => c < d)
            case (Array(xs), Array(ys)) => Lexicographic(xs, ys, Less)
            case (Object(_), Object(_)) => Lexicographic(Pairs(a), Pairs(b), MemberLess)
            case _ => TypeBefore(a, b)
  {
    match (a, b) {
      case (String(x), String(y)) => StringLessIff(x, y);
      case (Array(xs), Array(ys)) => ArrayLessIff(xs, ys);
      case (Object(m), Object(n)) =>
        SortedKeysElements(m.Keys);
        SortedKeysElements(n.Keys);
        MembersLessIff(a, SortedKeys(m.Keys), b, SortedKeys(n.Keys));
      case _ =>
    }
  }

  lemma {:induction false} ArrayLessIff(xs: seq<Json>, ys: seq<Json>)
    ensures LessArrays(xs, ys) <==> Lexicographic(xs, ys, Less)
  {
    hide Less;
    LexicographicStep(xs, ys, Less);
    if xs != [] && ys != [] {
      Trichotomy(xs[0], ys[0]);
      ArrayLessIff(xs[1..], ys[1..]);
    }
  }

  lemma {:induction false} MembersLessIff(a: Json, ks: seq<string>, b: Json, ls: seq<string>)
    requires a.Object? && b.Object?
    requires forall k | k in ks :: k in a.members
    requires forall l | l in ls :: l in b.members
    ensures LessMembers(a, ks, b, ls) <==> Lexicographic(PairsOf(a, ks), PairsOf(b, ls), MemberLess)
    decreases |ks|
  {
    hide Less;
    LexicographicStep(PairsOf(a, ks), PairsOf(b, ls), MemberLess);
    if ks != [] && ls != [] {
      StringLessTotal(ks[0], ls[0]);
      StringLessIrreflexive(ks[0]);
      Trichotomy(a.members[ks[0]], b.members[ls[0]]);
      MembersLessIff(a, ks[1..], b, ls[1..]);
      PairsStep(a, ks);
      PairsStep(b, ls);
    }
  }

  lemma PairsStep(v: Json, keys: seq<string>)
    requires v.Object? && keys != [] && forall k | k in keys :: k in v.members
    ensures PairsOf(v, keys)[0] == (keys[0], v.members[keys[0]]) && PairsOf(v, keys)[1..] == PairsOf(v, keys[1..])
  {
  }
}
