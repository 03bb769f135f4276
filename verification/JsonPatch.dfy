/** JSON Patch (RFC 6902): the operations of basic_json::patch and the laws they obey. */
module JsonPatch {
  import opened Results
  import opened Text
  import opened Sequences
  import opened JsonValue
  import opened JsonPointer

  type Path = seq<string>

  // ----- locations -----

  /** One step of json_pointer::get_checked; the type of the value decides what the token means. */
  function Child(doc: Json, token: string): (r: Result<Json>)
    ensures r.Ok? ==> r.value < doc
  {
    match doc
    case Object(m) => if token in m then Ok(m[token]) else Err(OutOfRange(403))
    case Array(items) =>
      if token == "-" then Err(OutOfRange(402)) else
        var i :- ArrayIndex(token);
        if i < |items| then Ok(items[i]) else Err(OutOfRange(401))
    case _ => Err(OutOfRange(404))
  }

  /** `doc` with the existing child at `token` replaced. */
  function WithChild(doc: Json, token: string, c: Json): Json
    requires Child(doc, token).Ok?
  {
    match doc
    case Object(m) => Object(m[token := c])
    case Array(items) => Array(items[ArrayIndex(token).value := c])
  }

  lemma WithChildLaws(doc: Json, token: string, c: Json)
    requires Child(doc, token).Ok?
    ensures Child(WithChild(doc, token, c), token) == Ok(c)
    ensures WithChild(WithChild(doc, token, c), token, Child(doc, token).value) == doc
    ensures WithChild(doc, token, Child(doc, token).value) == doc
  {
    if doc.Object? {
      assert doc.members[token := c][token := doc.members[token]] == doc.members;
      assert doc.members[token := doc.members[token]] == doc.members;
    }
  }

  lemma WithChildTwice(doc: Json, token: string, c: Json, d: Json)
    requires Child(doc, token).Ok?
    ensures Child(WithChild(doc, token, c), token).Ok?
    ensures WithChild(WithChild(doc, token, c), token, d) == WithChild(doc, token, d)
  {
    if doc.Object? {
      assert doc.members[token := c][token := d] == doc.members[token := d];
    }
  }

  /** basic_json::at on a pointer. */
  function Resolve(doc: Json, path: Path): Result<Json> {
    if path == [] then Ok(doc) else
      var c :- Child(doc, path[0]);
      Resolve(c, path[1..])
  }

  predicate Exists(doc: Json, path: Path) {
    Resolve(doc, path).Ok?
  }

  // ----- replace -----

  /** Assignment to the result of at(). */
  function Store(doc: Json, path: Path, v: Json): Result<Json> {
    if path == [] then Ok(v) else
      var c :- Child(doc, path[0]);
      var c' :- Store(c, path[1..], v);
      Ok(WithChild(doc, path[0], c'))
  }

  // ----- remove -----

  function RemoveChild(parent: Json, token: string): Result<Json> {
    match parent
    case Object(m) => if token in m then Ok(Object(m - {token})) else Err(OutOfRange(403))
    case Array(items) =>
      var i :- ArrayIndex(token);
      if i < |items| then Ok(Array(items[..i] + items[i + 1..])) else Err(OutOfRange(401))
    case _ => Ok(parent)
  }

  /** operation_remove. */
  function RemoveAt(doc: Json, path: Path): Result<Json> {
    if path == [] then Err(OutOfRange(405))
    else if |path| == 1 then RemoveChild(doc, path[0])
    else
      var c :- Child(doc, path[0]);
      var c' :- RemoveAt(c, path[1..]);
      Ok(WithChild(doc, path[0], c'))
  }

  // ----- add -----

  function AddChild(parent: Json, token: string, v: Json): Result<Json> {
    match parent
    case Null => Ok(Object(map[token := v]))
    case Object(m) => Ok(Object(m[token := v]))
    case Array(items) =>
      if token == "-" then Ok(Array(items + [v])) else
        var i :- ArrayIndex(token);
        if i <= |items| then Ok(Array(items[..i] + [v] + items[i..])) else Err(OutOfRange(401))
    case _ => Err(AssertionFailure)
  }

  /** What get_unchecked turns a value into before it looks a token up: a null becomes an array
      when the token could be an index, and an object otherwise. */
  function Vivify(doc: Json, token: string): Json {
    if !doc.Null? then doc
    else if AllDigits(token) || token == "-" then Array([])
    else Object(map[])
  }

  /** An array grown with nulls to `n` elements, if it is shorter. */
  function Padded(items: seq<Json>, n: nat): (r: seq<Json>)
    ensures |r| == if n <= |items| then |items| else n
  {
    if n <= |items| then items else items + seq(n - |items|, _ => Null)
  }

  /** The value added under a parent that get_unchecked finds, or creates on the way. */
  function AddUnchecked(doc: Json, path: Path, v: Json): Result<Json>
    requires path != []
    decreases |path|
  {
    if |path| == 1 then AddChild(doc, path[0], v) else
      match Vivify(doc, path[0])
      case Object(m) =>
        var c' :- AddUnchecked(if path[0] in m then m[path[0]] else Null, path[1..], v);
        Ok(Object(m[path[0] := c']))
      case Array(items) =>
        var i :- if path[0] == "-" then Ok(|items|) else ArrayIndex(path[0]);
        var padded := Padded(items, i + 1);
        var c' :- AddUnchecked(padded[i], path[1..], v);
        Ok(Array(padded[i := c']))
      case _ => Err(OutOfRange(404))
  }

  /** operation_add: only the first token of a longer pointer has to exist. */
  function AddAt(doc: Json, path: Path, v: Json): Result<Json> {
    if path == [] then Ok(v)
    else if |path| == 1 then AddChild(doc, path[0], v)
    else
      var _ :- Child(doc, path[0]);
      AddUnchecked(doc, path, v)
  }

  // ----- operations -----

  datatype Op =
    | Add(path: Path, value: Json)
    | Remove(path: Path)
    | Replace(path: Path, value: Json)
    | Move(path: Path, from: Path)
    | Copy(path: Path, from: Path)
    | Test(path: Path, value: Json)

  function Apply(doc: Json, op: Op): Result<Json> {
    match op
    case Add(path, v) => AddAt(doc, path, v)
    case Remove(path) => RemoveAt(doc, path)
    case Replace(path, v) => Store(doc, path, v)
    case Move(path, from) =>
      var v :- Resolve(doc, from);
      var rest :- RemoveAt(doc, from);
      AddAt(rest, path, v)
    case Copy(path, from) =>
      var v :- Resolve(doc, from);
      AddAt(doc, path, v)
    case Test(path, v) =>
      var found := Resolve(doc, path);
      if found.Err? && !found.error.OutOfRange? then found
      else if found.Ok? && Equal(found.value, v) then Ok(doc)
      else Err(OtherError(501))
  }

  function ApplyAll(doc: Json, ops: seq<Op>): Result<Json>
    decreases |ops|
  {
    if ops == [] then Ok(doc) else
      var next :- Apply(doc, ops[0]);
      ApplyAll(next, ops[1..])
  }

  // ----- patch documents -----

  /** The member of a patch element; it is missing, or not a string where one is needed. */
  function StringMember(element: Json, name: string): Result<string>
    requires element.Object?
  {
    if name in element.members && element.members[name].String? then Ok(element.members[name].s)
    else Err(ParseError(105))
  }

  function ValueMember(element: Json): Result<Json>
    requires element.Object?
  {
    if "value" in element.members then Ok(element.members["value"]) else Err(ParseError(105))
  }

  function Decode(element: Json): Result<Op> {
    if !element.Object? then Err(ParseError(104)) else
      var op :- StringMember(element, "op");
      var text :- StringMember(element, "path");
      var path :- Parse(text);
      match op
      case "add" => var v :- ValueMember(element); Ok(Add(path, v))
      case "remove" => Ok(Remove(path))
      case "replace" => var v :- ValueMember(element); Ok(Replace(path, v))
      case "move" => var f :- StringMember(element, "from"); var from :- Parse(f); Ok(Move(path, from))
      case "copy" => var f :- StringMember(element, "from"); var from :- Parse(f); Ok(Copy(path, from))
      case "test" => var v :- ValueMember(element); Ok(Test(path, v))
      case _ => Err(ParseError(105))
  }

  /** The patch element for an operation whose paths are relative to the location `base`. */
  function Encode(base: string, op: Op): Json {
    var path := String(base + ToString(op.path));
    match op
    case Add(_, v) => Object(map["op" := String("add"), "path" := path, "value" := v])
    case Remove(_) => Object(map["op" := String("remove"), "path" := path])
    case Replace(_, v) => Object(map["op" := String("replace"), "path" := path, "value" := v])
    case Move(_, from) =>
      Object(map["op" := String("move"), "path" := path, "from" := String(base + ToString(from))])
    case Copy(_, from) =>
      Object(map["op" := String("copy"), "path" := path, "from" := String(base + ToString(from))])
    case Test(_, v) => Object(map["op" := String("test"), "path" := path, "value" := v])
  }

  function EncodeAll(base: string, ops: seq<Op>): (r: seq<Json>)
    ensures |r| == |ops|
  {
    if ops == [] then [] else [Encode(base, ops[0])] + EncodeAll(base, ops[1..])
  }

  lemma {:induction false} EncodeAllAppend(base: string, a: seq<Op>, b: seq<Op>)
    ensures EncodeAll(base, a + b) == EncodeAll(base, a) + EncodeAll(base, b)
  {
    if a == [] {
      assert a + b == b;
    } else {
      hide Encode;
      EncodeAllAppend(base, a[1..], b);
      AppendHead(a, b);
      Assoc([Encode(base, a[0])], EncodeAll(base, a[1..]), EncodeAll(base, b));
    }
  }

  lemma MemberNames()
    ensures "op" != "path" && "op" != "value" && "op" != "from"
    ensures "path" != "value" && "path" != "from" && "value" != "from"
  {
    assert |"op"| == 2 && |"path"| == 4 && |"value"| == 5 && |"from"| == 4;
    assert "path"[0] != "from"[0];
  }

  lemma PathMember(element: Json, path: Path)
    requires element.Object? && "path" in element.members
    requires element.members["path"] == String("" + ToString(path))
    ensures StringMember(element, "path") == Ok(ToString(path))
    ensures Parse(ToString(path)) == Ok(path)
  {
    ParseToString(path);
    assert "" + ToString(path) == ToString(path);
  }

  /** Every operation survives being written as a patch element and read back. */
  lemma DecodeEncode(op: Op)
    ensures Decode(Encode("", op)) == Ok(op)
  {
    hide Parse, ToString;
    MemberNames();
    var element := Encode("", op);
    PathMember(element, op.path);
    match op {
      case Add(path, v) =>
        assert element.members["op"] == String("add");
        assert ValueMember(element) == Ok(v);
      case Remove(path) =>
        assert element.members["op"] == String("remove");
      case Replace(path, v) =>
        assert element.members["op"] == String("replace");
        assert ValueMember(element) == Ok(v);
      case Move(path, from) =>
        assert element.members["op"] == String("move");
        ParseToString(from);
        assert "" + ToString(from) == ToString(from);
        assert StringMember(element, "from") == Ok(ToString(from));
      case Copy(path, from) =>
        assert element.members["op"] == String("copy");
        ParseToString(from);
        assert "" + ToString(from) == ToString(from);
        assert StringMember(element, "from") == Ok(ToString(from));
      case Test(path, v) =>
        assert element.members["op"] == String("test");
        assert ValueMember(element) == Ok(v);
    }
  }

  predicate Has(element: Json, name: string, v: Json)
    requires element.Object?
  {
    name in element.members && element.members[name] == v
  }

  /** Exactly which elements are read as an operation; members that it does not need are ignored. */
  lemma DecodeIff(element: Json, op: Op)
    ensures Decode(element) == Ok(op) <==>
            && element.Object?
            && Has(element, "path", String(ToString(op.path)))
            && match op
               case Add(_, v) => Has(element, "op", String("add")) && Has(element, "value", v)
               case Remove(_) => Has(element, "op", String("remove"))
               case Replace(_, v) => Has(element, "op", String("replace")) && Has(element, "value", v)
               case Move(_, from) => Has(element, "op", String("move")) && Has(element, "from", String(ToString(from)))
               case Copy(_, from) => Has(element, "op", String("copy")) && Has(element, "from", String(ToString(from)))
               case Test(_, v) => Has(element, "op", String("test")) && Has(element, "value", v)
    ensures Decode(element) == Err(ParseError(104)) <==> !element.Object?
  {
    hide Parse, ToString;
    if element.Object? {
      ReadPath(element, "path", op.path);
      if op.Move? || op.Copy? {
        ReadPath(element, "from", op.from);
      }
      PathErrors(element, "path");
      PathErrors(element, "from");
    }
  }

  lemma ReadPath(element: Json, name: string, path: Path)
    requires element.Object?
    ensures Has(element, name, String(ToString(path))) <==>
            StringMember(element, name).Ok? && Parse(StringMember(element, name).value) == Ok(path)
  {
    hide Parse, ToString;
    ParseToString(path);
    var text := StringMember(element, name);
    if text.Ok? && Parse(text.value) == Ok(path) {
      ToStringParse(text.value);
    }
  }

  lemma PathErrors(element: Json, name: string)
    requires element.Object?
    ensures var text := StringMember(element, name);
            text.Ok? ==> Parse(text.value) != Err(ParseError(104))
  {
    hide Parse, TildesEscaped;
    var text := StringMember(element, name);
    if text.Ok? {
      ParseFailsIff(text.value);
    }
  }

  // ----- patch -----

  function PatchElements(doc: Json, elements: seq<Json>): Result<Json>
    decreases |elements|
  {
    if elements == [] then Ok(doc) else
      var op :- Decode(elements[0]);
      var next :- Apply(doc, op);
      PatchElements(next, elements[1..])
  }

  function PatchOf(doc: Json, jsonPatch: Json): Result<Json> {
    if jsonPatch.Array? then PatchElements(doc, jsonPatch.items) else Err(ParseError(104))
  }

  /** basic_json::patch: the elements are applied in turn to a working copy. */
  method Patch(doc: Json, jsonPatch: Json) returns (r: Result<Json>)
    ensures r == PatchOf(doc, jsonPatch)
  {
    var result := doc;
    if !jsonPatch.Array? {
      return Err(ParseError(104));
    }
    var elements := jsonPatch.items;
    var k := 0;
    assert elements[0..] == elements;
    while k < |elements|
      invariant 0 <= k <= |elements|
      invariant PatchElements(doc, elements) == PatchElements(result, elements[k..])
    {
      assert elements[k..][0] == elements[k] && elements[k..][1..] == elements[k + 1..];
      var op := Decode(elements[k]);
      if op.Err? {
        return Err(op.error);
      }
      var next := Apply(result, op.value);
      if next.Err? {
        return next;
      }
      result := next.value;
      k := k + 1;
    }
    return Ok(result);
  }

  /** Patching is a fold: a patch in two parts is the second part applied after the first, and it
      fails as the part that fails. */
  lemma {:induction false} PatchIsFold(doc: Json, a: seq<Json>, b: seq<Json>)
    ensures PatchOf(doc, Array(a + b))
            == (var mid := PatchOf(doc, Array(a)); if mid.Ok? then PatchOf(mid.value, Array(b)) else mid)
    decreases |a|
  {
    if a == [] {
      assert a + b == b;
    } else {
      AppendHead(a, b);
      var op := Decode(a[0]);
      if op.Ok? {
        var next := Apply(doc, op.value);
        if next.Ok? {
          PatchIsFold(next.value, a[1..], b);
        }
      }
    }
  }

  /** Written operations act as the operations do. */
  lemma {:induction false} PatchEncoded(doc: Json, ops: seq<Op>)
    ensures PatchOf(doc, Array(EncodeAll("", ops))) == ApplyAll(doc, ops)
    decreases |ops|
  {
    if ops != [] {
      DecodeEncode(ops[0]);
      var next := Apply(doc, ops[0]);
      if next.Ok? {
        PatchEncoded(next.value, ops[1..]);
      }
    }
  }

  /** The operations of the elements of a patch, read one by one. */
  predicate AreDecoded(elements: seq<Json>, ops: seq<Op>) {
    |ops| == |elements| && forall i | 0 <= i < |ops| :: Decode(elements[i]) == Ok(ops[i])
  }

  /** Exactly when a patch succeeds, and with what: it is an array, each of its elements is an operation, and
      the operations lead from the document to the result. */
  lemma PatchSucceedsIff(doc: Json, jsonPatch: Json, end: Json)
    ensures PatchOf(doc, jsonPatch) == Ok(end) <==>
            jsonPatch.Array? && exists ops :: AreDecoded(jsonPatch.items, ops) && ApplyAll(doc, ops) == Ok(end)
    ensures PatchOf(doc, jsonPatch) == Err(ParseError(104)) <== !jsonPatch.Array?
  {
    if jsonPatch.Array? {
      if PatchOf(doc, jsonPatch) == Ok(end) {
        var ops := DecodedPatch(doc, jsonPatch.items, end);
      }
      forall ops | AreDecoded(jsonPatch.items, ops) && ApplyAll(doc, ops) == Ok(end)
        ensures PatchOf(doc, jsonPatch) == Ok(end)
      {
        PatchDecoded(doc, jsonPatch.items, ops);
      }
    }
  }

  lemma {:induction false} DecodedPatch(doc: Json, elements: seq<Json>, end: Json) returns (ops: seq<Op>)
    requires PatchElements(doc, elements) == Ok(end)
    ensures AreDecoded(elements, ops) && ApplyAll(doc, ops) == Ok(end)
    decreases |elements|
  {
    hide Decode, Apply;
    if elements == [] {
      ops := [];
    } else {
      var op := Decode(elements[0]).value;
      var rest := DecodedPatch(Apply(doc, op).value, elements[1..], end);
      ops := [op] + rest;
      assert ops[1..] == rest;
      assert forall i | 0 < i < |ops| :: elements[i] == elements[1..][i - 1] && ops[i] == rest[i - 1];
    }
  }

  lemma {:induction false} PatchDecoded(doc: Json, elements: seq<Json>, ops: seq<Op>)
    requires AreDecoded(elements, ops)
    ensures PatchElements(doc, elements) == ApplyAll(doc, ops)
    decreases |elements|
  {
    hide Decode, Apply;
    if elements != [] {
      var next := Apply(doc, ops[0]);
      assert forall i | 0 <= i < |ops| - 1 :: elements[1..][i] == elements[i + 1] && ops[1..][i] == ops[i + 1];
      if next.Ok? {
        PatchDecoded(next.value, elements[1..], ops[1..]);
      }
    }
  }
}
