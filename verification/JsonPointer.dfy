/** JSON Pointer (RFC 6901): its text form, its reference tokens and array indices. */
module JsonPointer {
  import opened Results
  import opened Text
  import opened Sequences

  // ----- replacing a substring -----

  /** Every occurrence of `f` in `s`, taken from the left without overlap, replaced by `t`. */
  function ReplaceAll(s: string, f: string, t: string): string
    requires f != ""
  {
    if |s| < |f| then s
    else if s[..|f|] == f then t + ReplaceAll(s[|f|..], f, t)
    else [s[0]] + ReplaceAll(s[1..], f, t)
  }

  predicate OccursAt(s: string, f: string, i: nat) {
    i + |f| <= |s| && s[i..i + |f|] == f
  }

  /** The first occurrence at or after `from`, if there is one. */
  ghost predicate IsFirst(s: string, f: string, from: nat, pos: Option<nat>) {
    && (pos.Some? ==> from <= pos.value && OccursAt(s, f, pos.value))
    && forall i | from <= i && (pos.Some? ==> i < pos.value) :: !OccursAt(s, f, i)
  }

  /** std::string::find: the first occurrence at or after `from`. */
  method Find(s: string, f: string, from: nat) returns (pos: Option<nat>)
    requires f != "" && from <= |s|
    ensures IsFirst(s, f, from, pos)
    ensures pos.Some? ==> from <= pos.value && pos.value + |f| <= |s|
  {
    var i := from;
    while i + |f| <= |s|
      invariant from <= i
      invariant forall j | from <= j < i :: !OccursAt(s, f, j)
    {
      if s[i..i + |f|] == f {
        return Some(i);
      }
      i := i + 1;
    }
    return None;
  }

  /** A character is copied if the searched text does not begin with it. */
  lemma SkipHead(c: char, r: string, f: string, t: string)
    requires f != "" && !(f <= [c] + r)
    ensures ReplaceAll([c] + r, f, t) == [c] + ReplaceAll(r, f, t)
  {
    var s := [c] + r;
    assert s[1..] == r;
    if |s| < |f| {
      assert ReplaceAll(r, f, t) == r;
    }
  }

  lemma MatchHead(r: string, f: string, t: string)
    requires f != ""
    ensures ReplaceAll(f + r, f, t) == t + ReplaceAll(r, f, t)
  {
    assert (f + r)[..|f|] == f && (f + r)[|f|..] == r;
  }

  lemma PrefixOccurs(s: string, f: string, from: nat)
    requires from <= |s|
    ensures f <= s[from..] ==> OccursAt(s, f, from)
  {
    if f <= s[from..] {
      assert s[from..][..|f|] == s[from..from + |f|];
    }
  }

  lemma {:induction false} ReplaceSkips(s: string, f: string, t: string, from: nat, pos: nat)
    requires f != "" && from <= pos <= |s|
    requires forall i | from <= i < pos :: !OccursAt(s, f, i)
    ensures ReplaceAll(s[from..], f, t) == s[from..pos] + ReplaceAll(s[pos..], f, t)
    decreases pos - from
  {
    hide ReplaceAll;
    if from < pos {
      var rest := s[from + 1..];
      ReplaceSkips(s, f, t, from + 1, pos);
      assert s[from..] == [s[from]] + rest;
      PrefixOccurs(s, f, from);
      SkipHead(s[from], rest, f, t);
      assert s[from..pos] == [s[from]] + s[from + 1..pos];
      Assoc([s[from]], s[from + 1..pos], ReplaceAll(s[pos..], f, t));
    } else {
      assert s[from..pos] == "";
    }
  }

  lemma ReplaceStep(r: string, f: string, t: string, from: nat, pos: nat)
    requires f != "" && IsFirst(r, f, from, Some(pos))
    ensures from <= pos && pos + |f| <= |r|
    ensures var next := r[..pos] + t + r[pos + |f|..];
            next[..pos + |t|] + ReplaceAll(next[pos + |t|..], f, t) == r[..from] + ReplaceAll(r[from..], f, t)
  {
    hide ReplaceAll;
    ReplaceSkips(r, f, t, from, pos);
    var rest := ReplaceAll(r[pos + |f|..], f, t);
    assert r[pos..] == f + r[pos + |f|..];
    MatchHead(r[pos + |f|..], f, t);
    var next := r[..pos] + t + r[pos + |f|..];
    assert next[..pos + |t|] == r[..pos] + t && next[pos + |t|..] == r[pos + |f|..];
    Assoc(r[..from], r[from..pos], t + rest);
    Assoc(r[..pos], t, rest);
    assert r[..from] + r[from..pos] == r[..pos];
  }

  /** json_pointer::replace_substring: a find-and-replace loop over one text. */
  method ReplaceSubstring(s: string, f: string, t: string) returns (r: string)
    requires f != ""
    ensures r == ReplaceAll(s, f, t)
  {
    hide ReplaceAll, IsFirst;
    r := s;
    var from := 0;
    var pos := Find(r, f, from);
    assert s[0..] == s && s[..0] + ReplaceAll(s, f, t) == ReplaceAll(s, f, t);
    while pos.Some?
      invariant 0 <= from <= |r|
      invariant r[..from] + ReplaceAll(r[from..], f, t) == ReplaceAll(s, f, t)
      invariant pos.Some? ==> from <= pos.value && pos.value + |f| <= |r|
      invariant IsFirst(r, f, from, pos)
      decreases |r| - from, pos.Some?
    {
      var p := pos.value;
      ReplaceStep(r, f, t, from, p);
      r := r[..p] + t + r[p + |f|..];
      from := p + |t|;
      pos := Find(r, f, from);
    }
    ReplaceEnds(r, f, t, from);
  }

  lemma ReplaceEnds(r: string, f: string, t: string, from: nat)
    requires f != "" && from <= |r| && IsFirst(r, f, from, None)
    ensures r[..from] + ReplaceAll(r[from..], f, t) == r
  {
    ReplaceSkips(r, f, t, from, |r|);
    assert r[|r|..] == "" && r[..from] + r[from..] == r;
  }

  // ----- escaping a reference token -----

  function Escape(s: string): string {
    ReplaceAll(ReplaceAll(s, "~", "~0"), "/", "~1")
  }

  function Unescape(s: string): string {
    ReplaceAll(ReplaceAll(s, "~1", "/"), "~0", "~")
  }

  /** Every tilde is followed by 0 or 1. */
  predicate TildesEscaped(s: string) {
    forall i | 0 <= i < |s| && s[i] == '~' :: i + 1 < |s| && (s[i + 1] == '0' || s[i + 1] == '1')
  }

  lemma EscapeHead(s: string)
    requires s != ""
    ensures Escape(s) == (if s[0] == '~' then "~0" else if s[0] == '/' then "~1" else [s[0]]) + Escape(s[1..])
  {
    var tail := ReplaceAll(s[1..], "~", "~0");
    assert s[..1] == [s[0]];
    if s[0] == '~' {
      assert "~0" + tail == ['~'] + (['0'] + tail);
      CopyHead('~', ['0'] + tail, "/", "~1");
      CopyHead('0', tail, "/", "~1");
      assert ['~'] + (['0'] + ReplaceAll(tail, "/", "~1")) == "~0" + ReplaceAll(tail, "/", "~1");
    } else {
      var mid := [s[0]] + tail;
      assert ReplaceAll(s, "~", "~0") == mid;
      assert mid[..1] == [s[0]] && mid[1..] == tail;
    }
  }

  /** How Unescape reads one escaped character. */
  lemma UnescapeHead(c: char, r: string)
    requires c != '~' && TildesEscaped(r)
    ensures Unescape([c] + r) == [c] + Unescape(r)
    ensures Unescape("~0" + r) == "~" + Unescape(r)
    ensures Unescape("~1" + r) == "/" + Unescape(r)
  {
    hide ReplaceAll, TildesEscaped;
    var tail := ReplaceAll(r, "~1", "/");
    CopyHead(c, r, "~1", "/");
    CopyHead(c, tail, "~0", "~");
    assert "~0" + r == ['~'] + ("0" + r) && ("~0" + r)[1] == '0';
    SkipHead('~', "0" + r, "~1", "/");
    CopyHead('0', r, "~1", "/");
    assert ['~'] + ("0" + tail) == "~0" + tail;
    MatchHead(tail, "~0", "~");
    MatchHead(r, "~1", "/");
    CopyHead('/', tail, "~0", "~");
  }

  lemma CopyHead(c: char, r: string, f: string, t: string)
    requires f != "" && f[0] != c
    ensures ReplaceAll([c] + r, f, t) == [c] + ReplaceAll(r, f, t)
  {
    assert ([c] + r)[0] == c;
    SkipHead(c, r, f, t);
  }

  lemma EscapedHead(head: string, r: string)
    requires TildesEscaped(head) && '/' !in head && TildesEscaped(r) && '/' !in r
    ensures TildesEscaped(head + r) && '/' !in head + r
  {
    var s := head + r;
    assert forall i | 0 <= i < |head| :: s[i] == head[i];
    assert forall i | |head| <= i < |s| :: s[i] == r[i - |head|];
  }

  /** Escaping hides every slash, leaves only escaped tildes, and Unescape undoes it. */
  lemma {:induction false} EscapeRoundTrip(s: string)
    ensures Unescape(Escape(s)) == s
    ensures TildesEscaped(Escape(s)) && '/' !in Escape(s)
  {
    if s != "" {
      hide Escape, Unescape;
      var r := Escape(s[1..]);
      EscapeHead(s);
      EscapeRoundTrip(s[1..]);
      UnescapeHead(if s[0] == '~' then 'x' else s[0], r);
      assert s == [s[0]] + s[1..];
      EscapedHead(if s[0] == '~' then "~0" else if s[0] == '/' then "~1" else [s[0]], r);
    }
  }

  /** On texts that can be tokens of a pointer, Escape undoes Unescape. */
  lemma {:induction false} UnescapeRoundTrip(s: string)
    requires TildesEscaped(s) && '/' !in s
    ensures Escape(Unescape(s)) == s
  {
    if s != "" {
      var n := if s[0] == '~' then 2 else 1;
      var r := s[n..];
      assert TildesEscaped(r) by {
        forall i | 0 <= i < |r| && r[i] == '~' ensures i + 1 < |r| && (r[i + 1] == '0' || r[i + 1] == '1') {
          assert s[i + n] == '~';
        }
      }
      UnescapeRoundTrip(r);
      UnescapeHead(if s[0] == '~' then 'x' else s[0], r);
      assert s == s[..n] + r;
      assert s[..n] == if n == 2 then ['~', s[1]] else [s[0]];
      assert Unescape(s) == [Unescape(s)[0]] + Unescape(r);
      EscapeHead(Unescape(s));
      assert Unescape(s)[1..] == Unescape(r);
    }
  }

  // ----- the text of a pointer -----

  /** json_pointer::to_string. */
  function ToString(tokens: seq<string>): string {
    if tokens == [] then "" else "/" + Escape(tokens[0]) + ToString(tokens[1..])
  }

  lemma {:induction false} ToStringAppend(a: seq<string>, b: seq<string>)
    ensures ToString(a + b) == ToString(a) + ToString(b)
  {
    if a == [] {
      assert a + b == b;
    } else {
      ToStringAppend(a[1..], b);
      AppendHead(a, b);
      Assoc("/" + Escape(a[0]), ToString(a[1..]), ToString(b));
    }
  }

  /** The pieces of a text between slashes. */
  function SplitSlash(s: string): (pieces: seq<string>)
    ensures |pieces| >= 1
  {
    if s == "" then [""]
    else if s[0] == '/' then [""] + SplitSlash(s[1..])
    else
      var rest := SplitSlash(s[1..]);
      [[s[0]] + rest[0]] + rest[1..]
  }

  function UnescapeTokens(pieces: seq<string>): Result<seq<string>> {
    if pieces == [] then Ok([])
    else if !TildesEscaped(pieces[0]) then Err(ParseError(108))
    else
      var rest :- UnescapeTokens(pieces[1..]);
      Ok([Unescape(pieces[0])] + rest)
  }

  /** The reference tokens a text stands for, as json_pointer's constructor reads it. */
  function Parse(s: string): Result<seq<string>> {
    if s == "" then Ok([])
    else if s[0] != '/' then Err(ParseError(107))
    else UnescapeTokens(SplitSlash(s[1..]))
  }

  lemma {:induction false} SplitPiece(piece: string, rest: string)
    requires '/' !in piece
    ensures SplitSlash(piece) == [piece]
    ensures SplitSlash(piece + "/" + rest) == [piece] + SplitSlash(rest)
  {
    if piece == "" {
      assert "" + "/" + rest == "/" + rest;
      assert ("/" + rest)[1..] == rest;
    } else {
      var s := piece + "/" + rest;
      assert s[0] == piece[0] && s[1..] == piece[1..] + "/" + rest;
      SplitPiece(piece[1..], rest);
      assert piece == [piece[0]] + piece[1..];
      assert SplitSlash(piece)[1..] == [];
      assert SplitSlash(s)[1..] == SplitSlash(rest);
    }
  }

  /** The tokens of the rest of a text, behind those already read. */
  function After(done: seq<string>, rest: Result<seq<string>>): Result<seq<string>> {
    if rest.Ok? then Ok(done + rest.value) else rest
  }

  lemma AfterNone(rest: Result<seq<string>>)
    ensures After([], rest) == rest
  {
    if rest.Ok? {
      assert [] + rest.value == rest.value;
    }
  }

  lemma AfterOne(done: seq<string>, piece: string, pieces: seq<string>)
    requires TildesEscaped(piece)
    ensures After(done, UnescapeTokens([piece] + pieces))
            == After(done + [Unescape(piece)], UnescapeTokens(pieces))
    ensures pieces == [] ==> After(done, UnescapeTokens([piece])) == Ok(done + [Unescape(piece)])
  {
    var all, token := [piece] + pieces, Unescape(piece);
    assert all[0] == piece && all[1..] == pieces;
    var rest := UnescapeTokens(pieces);
    if rest.Ok? {
      assert (done + [token]) + rest.value == done + ([token] + rest.value);
    }
    if pieces == [] {
      assert all == [piece];
      assert done + [token] + [] == done + [token];
    }
  }

  lemma BadPiece(done: seq<string>, piece: string, pieces: seq<string>)
    requires !TildesEscaped(piece)
    ensures After(done, UnescapeTokens([piece] + pieces)) == Err(ParseError(108))
  {
  }

  /** The piece before the next slash. */
  lemma NextPiece(s: string, start: nat, slash: Option<nat>)
    requires start <= |s| && IsFirst(s, "/", start, slash)
    requires slash.Some? ==> start <= slash.value < |s|
    ensures var end := if slash.Some? then slash.value else |s|;
            SplitSlash(s[start..]) == [s[start..end]] + if slash.Some? then SplitSlash(s[end + 1..]) else []
  {
    hide SplitSlash;
    var end := if slash.Some? then slash.value else |s|;
    var token := s[start..end];
    assert '/' !in token by {
      forall i | 0 <= i < |token| ensures token[i] != '/' {
        assert !OccursAt(s, "/", start + i);
        assert s[start + i..start + i + 1] == [token[i]];
      }
    }
    if slash.Some? {
      assert s[end..end + 1] == [s[end]];
      assert s[start..] == token + "/" + s[end + 1..];
      SplitPiece(token, s[end + 1..]);
    } else {
      assert s[start..] == token;
      SplitPiece(token, "");
    }
  }

  /** json_pointer::split: a loop over the positions of slashes. */
  method Split(s: string) returns (r: Result<seq<string>>)
    ensures r == Parse(s)
  {
    if s == "" {
      return Ok([]);
    }
    if s[0] != '/' {
      return Err(ParseError(107));
    }
    hide SplitSlash, UnescapeTokens, Unescape, TildesEscaped, IsFirst, After;
    var result: seq<string> := [];
    var start := 1;
    AfterNone(UnescapeTokens(SplitSlash(s[1..])));
    while start != 0
      invariant 0 <= start <= |s|
      invariant start == 0 ==> Parse(s) == Ok(result)
      invariant start != 0 ==>
        Parse(s) == After(result, UnescapeTokens(SplitSlash(s[start..])))
      decreases if start == 0 then 0 else |s| - start + 1
    {
      var slash := Find(s, "/", start);
      var end := if slash.Some? then slash.value else |s|;
      var token := s[start..end];
      NextPiece(s, start, slash);
      if !TildesEscaped(token) {
        BadPiece(result, token, if slash.Some? then SplitSlash(s[end + 1..]) else []);
        return Err(ParseError(108));
      }
      AfterOne(result, token, if slash.Some? then SplitSlash(s[end + 1..]) else []);
      result := result + [Unescape(token)];
      start := if slash.Some? then end + 1 else 0;
    }
    return Ok(result);
  }

  /** The constructor reads back what to_string wrote, for every list of tokens. */
  lemma {:induction false} ParseToString(tokens: seq<string>)
    ensures Parse(ToString(tokens)) == Ok(tokens)
  {
    if tokens != [] {
      var head, rest := Escape(tokens[0]), ToString(tokens[1..]);
      EscapeRoundTrip(tokens[0]);
      ParseToString(tokens[1..]);
      assert tokens == [tokens[0]] + tokens[1..];
      ParseSegment(head, rest);
      assert "/" + head + rest == ToString(tokens);
    }
  }

  lemma ParseSegment(piece: string, rest: string)
    requires TildesEscaped(piece) && '/' !in piece
    requires Parse(rest).Ok?
    ensures Parse("/" + piece + rest) == Ok([Unescape(piece)] + Parse(rest).value)
  {
    var s := "/" + piece + rest;
    assert s[1..] == piece + rest;
    if rest == "" {
      assert piece + rest == piece;
      SplitPiece(piece, "");
      AfterOne([], piece, []);
      assert [] + [Unescape(piece)] == [Unescape(piece)];
    } else {
      assert piece + rest == piece + "/" + rest[1..];
      SplitPiece(piece, rest[1..]);
      var pieces := SplitSlash(rest[1..]);
      assert ([piece] + pieces)[1..] == pieces;
    }
  }

  /** to_string writes back what the constructor read: each accepted text has one spelling. */
  lemma ToStringParse(s: string)
    requires Parse(s).Ok?
    ensures ToString(Parse(s).value) == s
  {
    if s != "" {
      PiecesToString(s[1..]);
      assert s == "/" + s[1..];
    }
  }

  lemma {:induction false} PiecesToString(s: string)
    requires UnescapeTokens(SplitSlash(s)).Ok?
    ensures ToString(UnescapeTokens(SplitSlash(s)).value) == "/" + s
    decreases |s|
  {
    hide Escape, Unescape, TildesEscaped;
    var n := FirstSlash(s);
    var piece := s[..n];
    if n == |s| {
      assert piece == s;
      SplitPiece(s, "");
      UnescapeRoundTrip(s);
      var token := Unescape(s);
      assert [s][1..] == [] && [token][1..] == [];
      assert UnescapeTokens([s]) == Ok([token] + []);
      assert [token] + [] == [token];
      assert "/" + s + "" == "/" + s;
    } else {
      var rest := s[n + 1..];
      assert s == piece + "/" + rest;
      SplitPiece(piece, rest);
      var pieces := SplitSlash(s);
      assert pieces[0] == piece && pieces[1..] == SplitSlash(rest);
      PiecesToString(rest);
      UnescapeRoundTrip(piece);
      TokenText(Unescape(piece), UnescapeTokens(SplitSlash(rest)).value, piece, rest);
    }
  }

  lemma TokenText(token: string, tokens: seq<string>, piece: string, rest: string)
    requires Escape(token) == piece && ToString(tokens) == "/" + rest
    ensures ToString([token] + tokens) == "/" + (piece + "/" + rest)
  {
    hide Escape;
    assert ([token] + tokens)[1..] == tokens;
    assert "/" + piece + ("/" + rest) == "/" + (piece + "/" + rest);
  }

  function FirstSlash(s: string): (n: nat)
    ensures n <= |s| && '/' !in s[..n] && (n < |s| ==> s[n] == '/')
  {
    if s == "" || s[0] == '/' then 0 else
      var n := FirstSlash(s[1..]);
      assert s[..n + 1] == [s[0]] + s[1..][..n];
      n + 1
  }

  /** Exactly which texts are refused, and with which error. */
  lemma ParseFailsIff(s: string)
    ensures Parse(s) == Err(ParseError(107)) <==> s != "" && s[0] != '/'
    ensures Parse(s) == Err(ParseError(108)) <==> s != "" && s[0] == '/' && !TildesEscaped(s)
    ensures Parse(s).Ok? <==> s == "" || (s[0] == '/' && TildesEscaped(s))
  {
    if s != "" && s[0] == '/' {
      hide SplitSlash, UnescapeTokens, TildesEscaped;
      PiecesEscaped(s[1..]);
      EscapedJoin("", s[1..]);
      assert s == "" + "/" + s[1..];
      NoTildes();
    }
  }

  lemma NoTildes()
    ensures TildesEscaped("")
  {
  }

  lemma EscapedJoin(piece: string, rest: string)
    ensures TildesEscaped(piece + "/" + rest) <==> TildesEscaped(piece) && TildesEscaped(rest)
  {
    var s, n := piece + "/" + rest, |piece|;
    assert forall i | 0 <= i < n :: s[i] == piece[i];
    assert s[n] == '/';
    assert forall i | 0 <= i < |rest| :: s[n + 1 + i] == rest[i];
    if TildesEscaped(s) {
      forall i | 0 <= i < |rest| && rest[i] == '~'
        ensures i + 1 < |rest| && (rest[i + 1] == '0' || rest[i + 1] == '1')
      {
        assert s[n + 1 + i] == '~';
      }
    }
  }

  lemma {:induction false} PiecesEscaped(s: string)
    ensures UnescapeTokens(SplitSlash(s)).Ok? <==> TildesEscaped(s)
    ensures UnescapeTokens(SplitSlash(s)).Err? ==> UnescapeTokens(SplitSlash(s)) == Err(ParseError(108))
    decreases |s|
  {
    hide Unescape, TildesEscaped;
    var n := FirstSlash(s);
    var piece := s[..n];
    if n == |s| {
      assert piece == s;
      SplitPiece(s, "");
      assert [s][1..] == [];
    } else {
      var rest := s[n + 1..];
      assert s == piece + "/" + rest;
      SplitPiece(piece, rest);
      var pieces := SplitSlash(s);
      assert pieces[0] == piece && pieces[1..] == SplitSlash(rest);
      PiecesEscaped(rest);
      EscapedJoin(piece, rest);
    }
  }

  // ----- array indices -----

  const SIZE_MAX: nat := 0xFFFF_FFFF_FFFF_FFFF

  /** json_pointer::array_index on a 64-bit machine. */
  function ArrayIndex(s: string): Result<nat> {
    if |s| > 1 && s[0] == '0' then Err(ParseError(106))
    else if |s| > 1 && !('1' <= s[0] <= '9') then Err(ParseError(109))
    else if s == "" || !IsDigit(s[0]) then Err(InvalidArgument)
    else if !AllDigits(s) then Err(OutOfRange(404))
    else
      var n := DecimalValue(s);
      if n > SIZE_MAX then Err(OutOfRange(404))
      else if n == SIZE_MAX then Err(OutOfRange(410))
      else Ok(n)
  }

  /** The accepted texts are exactly the printed indices, one text for each index. */
  lemma ArrayIndexIffPrinted(s: string, i: nat)
    ensures ArrayIndex(s) == Ok(i) <==> s == Decimal(i) && i < SIZE_MAX
  {
    DecimalRoundTrip(i);
    if ArrayIndex(s) == Ok(i) {
      CanonicalRoundTrip(s);
    }
  }

  lemma DistinctIndices(a: string, b: string)
    requires a != b && ArrayIndex(a).Ok? && ArrayIndex(b).Ok?
    ensures ArrayIndex(a).value != ArrayIndex(b).value
  {
    ArrayIndexIffPrinted(a, ArrayIndex(a).value);
    ArrayIndexIffPrinted(b, ArrayIndex(b).value);
  }
}
