/** json_value::destroy: tearing a tree down with an explicit stack instead of recursion. */
module JsonTeardown {
  import opened Text
  import opened Sequences
  import opened JsonValue

  /** The members of an object, in key order. */
  function MemberValues(v: Json, keys: seq<string>): seq<Json>
    requires v.Object? && forall k | k in keys :: k in v.members
  {
    if keys == [] then [] else [v.members[keys[0]]] + MemberValues(v, keys[1..])
  }

  function Children(v: Json): seq<Json> {
    match v
    case Array(items) => items
    case Object(m) => SortedKeysElements(m.Keys); MemberValues(v, SortedKeys(m.Keys))
    case _ => []
  }

  /** A value once its children have been moved out and its container has been cleared. */
  function Emptied(v: Json): Json {
    match v
    case Array(_) => Array([])
    case Object(_) => Object(map[])
    case _ => v
  }

  lemma {:induction false} MemberValuesNodes(v: Json, keys: seq<string>)
    requires v.Object? && forall k | k in keys :: k in v.members
    ensures NodesOf(MemberValues(v, keys)) == MemberNodes(v, keys)
    decreases |keys|
  {
    if keys != [] {
      MemberValuesNodes(v, keys[1..]);
      var values := MemberValues(v, keys);
      assert values[0] == v.members[keys[0]] && values[1..] == MemberValues(v, keys[1..]);
    }
  }

  lemma ChildrenNodes(v: Json)
    ensures Nodes(v) == 1 + NodesOf(Children(v))
  {
    if v.Object? {
      SortedKeysElements(v.members.Keys);
      MemberValuesNodes(v, SortedKeys(v.members.Keys));
    }
  }

  /** How often `x` occurs in the given trees, the roots included. */
  ghost function Occurrences(x: Json, items: seq<Json>): nat
    decreases NodesOf(items)
  {
    if items == [] then 0 else
      ChildrenNodes(items[0]);
      (if items[0] == x then 1 else 0) + Occurrences(x, Children(items[0])) + Occurrences(x, items[1..])
  }

  lemma {:induction false} OccurrencesAppend(x: Json, a: seq<Json>, b: seq<Json>)
    ensures Occurrences(x, a + b) == Occurrences(x, a) + Occurrences(x, b)
    decreases |a|
  {
    if a == [] {
      assert a + b == b;
    } else {
      hide Children;
      OccurrencesAppend(x, a[1..], b);
      AppendHead(a, b);
    }
  }

  lemma EmptiedIsChildless(v: Json)
    ensures Nodes(Emptied(v)) == 1
  {
    ChildrenNodes(Emptied(v));
  }

  /** Taking one value off the stack and putting its children on accounts for exactly that value. */
  lemma TakeOne(x: Json, stack: seq<Json>, v: Json)
    ensures Occurrences(x, stack + [v])
            == (if v == x then 1 else 0) + Occurrences(x, stack + Children(v))
  {
    OccurrencesAppend(x, stack, [v]);
    OccurrencesAppend(x, stack, Children(v));
    assert [v][1..] == [];
  }

  lemma TakeOneNodes(stack: seq<Json>, v: Json)
    ensures NodesOf(stack + [v]) == 1 + NodesOf(stack + Children(v))
  {
    NodesOfAppend(stack, [v]);
    NodesOfAppend(stack, Children(v));
    NodesOfOne(v);
    ChildrenNodes(v);
  }

  /** Between the values taken and the trees on the stack, each descendant is accounted for once. */
  ghost predicate Accounted(v: Json, taken: seq<Json>, stack: seq<Json>) {
    forall x :: multiset(taken)[x] + Occurrences(x, stack) == Occurrences(x, Children(v))
  }

  lemma AccountOne(v: Json, taken: seq<Json>, stack: seq<Json>, item: Json)
    requires Accounted(v, taken, stack + [item])
    ensures Accounted(v, taken + [item], stack + Children(item))
  {
    forall x ensures multiset(taken + [item])[x] + Occurrences(x, stack + Children(item))
                     == Occurrences(x, Children(v)) {
      TakeOne(x, stack, item);
      assert multiset(taken)[x] + Occurrences(x, stack + [item]) == Occurrences(x, Children(v));
    }
  }

  lemma NoneTaken(v: Json)
    ensures Accounted(v, [], Children(v))
  {
  }

  lemma AllTaken(v: Json, taken: seq<Json>)
    requires Accounted(v, taken, [])
    ensures forall x :: multiset(taken)[x] == Occurrences(x, Children(v))
    ensures NodesOf([]) == 0
  {
    assert forall x :: Occurrences(x, []) == 0;
  }

  /** destroy. It returns the values in the order in which they are taken off the stack, and what is
      left of each when its own destructor runs. The loop ends; every proper descendant is taken
      exactly as often as it occurs; and no value that is dropped has a child left, so no destructor
      calls another. */
  method Destroy(v: Json) returns (taken: seq<Json>, dropped: seq<Json>)
    ensures forall x :: multiset(taken)[x] == Occurrences(x, Children(v))
    ensures |taken| == |dropped| == Nodes(v) - 1
    ensures forall i | 0 <= i < |taken| :: dropped[i] == Emptied(taken[i]) && Nodes(dropped[i]) == 1
  {
    hide Accounted, Occurrences, Nodes, NodesOf, Children, Emptied;
    var stack := Children(v);
    ChildrenNodes(v);
    taken, dropped := [], [];
    NoneTaken(v);
    while stack != []
      invariant Accounted(v, taken, stack)
      invariant |taken| == |dropped| && |taken| + NodesOf(stack) == Nodes(v) - 1
      invariant forall i | 0 <= i < |taken| :: dropped[i] == Emptied(taken[i]) && Nodes(dropped[i]) == 1
      decreases NodesOf(stack)
    {
      var currentItem := stack[|stack| - 1];
      assert stack == stack[..|stack| - 1] + [currentItem];
      stack := stack[..|stack| - 1];
      AccountOne(v, taken, stack, currentItem);
      TakeOneNodes(stack, currentItem);
      EmptiedIsChildless(currentItem);
      taken := taken + [currentItem];
      stack := stack + Children(currentItem);
      currentItem := Emptied(currentItem);
      dropped := dropped + [currentItem];
    }
    AllTaken(v, taken);
  }
}
