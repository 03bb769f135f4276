/** JSON value trees, their equality and their order. */
module JsonValue {
  import opened Text
  import opened Sequences

  /** A basic_json without floating-point, binary and discarded values, and with one integer type.
      An object is the contents of its std::map; `SortedKeys` gives its iteration order. */
  datatype Json =
    | Null
    | Bool(b: bool)
    | Number(n: int)
    | String(s: string)
    | Array(items: seq<Json>)
    | Object(members: map<string, Json>)

  /** The place of a value's type in the order of types; it identifies the type. */
  function Rank(v: Json): nat {
    match v
    case Null => 0
    case Bool(_) => 1
    case Number(_) => 2
    case Object(_) => 3
    case Array(_) => 4
    case String(_) => 5
  }

  // ----- size -----

  /** The number of values in a tree, the tree itself included. */
  function Nodes(v: Json): (n: nat)
    ensures n >= 1
    decreases v, 1, 0
  {
    match v
    case Array(items) => 1 + NodesOf(items)
    case Object(members) => 1 + MemberNodes(v, SortedKeys(members.Keys))
    case _ => 1
  }

  function NodesOf(items: seq<Json>): nat
    decreases items, 0, 0
  {
    if items == [] then 0 else Nodes(items[0]) + NodesOf(items[1..])
  }

  function MemberNodes(v: Json, keys: seq<string>): nat
    requires v.Object?
    decreases v, 0, |keys|
  {
    if keys == [] then 0 else
      (if keys[0] in v.members then Nodes(v.members[keys[0]]) else 0) + MemberNodes(v, keys[1..])
  }

  lemma {:induction false} NodesOfAppend(a: seq<Json>, b: seq<Json>)
    ensures NodesOf(a + b) == NodesOf(a) + NodesOf(b)
  {
    if a == [] {
      assert a + b == b;
    } else {
      NodesOfAppend(a[1..], b);
      AppendHead(a, b);
    }
  }

  lemma NodesOfOne(v: Json)
    ensures NodesOf([v]) == Nodes(v)
  {
    assert [v][1..] == [];
  }

  lemma {:induction false} MemberNodesAppend(v: Json, a: seq<string>, b: seq<string>)
    requires v.Object?
    ensures MemberNodes(v, a + b) == MemberNodes(v, a) + MemberNodes(v, b)
  {
    if a == [] {
      assert a + b == b;
    } else {
      MemberNodesAppend(v, a[1..], b);
      AppendHead(a, b);
    }
  }

  // ----- operator== -----

  /** operator== of basic_json: std::vector and std::map compare sizes, then elements in order. */
  predicate Equal(a: Json, b: Json)
    decreases a
  {
    match (a, b)
    case (Null, Null) => true
    case (Bool(x), Bool(y)) => x == y
    case (Number(x), Number(y)) => x == y
    case (String(x), String(y)) => x == y
    case (Array(xs), Array(ys)) =>
      |xs| == |ys| && forall i | 0 <= i < |xs| :: Equal(xs[i], ys[i])
    case (Object(m), Object(n)) =>
      SortedKeysElements(m.Keys);
      SortedKeysElements(n.Keys);
      var ks, ls := SortedKeys(m.Keys), SortedKeys(n.Keys);
      |ks| == |ls| && forall i | 0 <= i < |ks| :: ks[i] == ls[i] && Equal(m[ks[i]], n[ls[i]])
    case _ => false
  }

  /** Values that operator== calls equal are the same tree, and conversely. */
  lemma {:induction false} EqualIsIdentity(a: Json, b: Json)
    ensures Equal(a, b) <==> a == b
    decreases a
  {
    hide SortedKeys;
    match (a, b) {
      case (Array(xs), Array(ys)) =>
        forall i | 0 <= i < |xs| && i < |ys| ensures Equal(xs[i], ys[i]) <==> xs[i] == ys[i] {
          EqualIsIdentity(xs[i], ys[i]);
        }
        assert Equal(a, b) ==> xs == ys;
      case (Object(m), Object(n)) =>
        SortedKeysElements(m.Keys);
        SortedKeysElements(n.Keys);
        forall k | k in m.Keys && k in n.Keys ensures Equal(m[k], n[k]) <==> m[k] == n[k] {
          EqualIsIdentity(m[k], n[k]);
        }
        var ks, ls := SortedKeys(m.Keys), SortedKeys(n.Keys);
        if Equal(a, b) {
          assert ks == ls;
          assert m.Keys == n.Keys by {
            assert forall k :: k in m.Keys <==> k in ks;
          }
          forall k | k in m.Keys ensures m[k] == n[k] {
            assert k in ks;
          }
          assert m == n;
        }
      case _ =>
    }
  }
}
