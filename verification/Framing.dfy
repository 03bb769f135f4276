/** The three packet patterns of the receiver, searching for them, and taking them out of a buffer. */
module Framing {
  import opened Results
  import opened Text

  datatype PacketType = Normal | HeartBeat | Reboot

  const LF: char := '\n'
  const CR: char := '\r'
  const STX: char := '\U{2}'
  const MAX_PACKET_EXTRACT_COUNT: nat := 20

  // ----- the patterns -----

  /** What `.` does not match in an ECMAScript pattern. */
  predicate IsTerminator(c: char) {
    c == LF || c == CR
  }

  predicate OneLine(s: string) {
    forall i | 0 <= i < |s| :: !IsTerminator(s[i])
  }

  /** The word heartbeat stands at position k. */
  predicate WordAt(s: string, k: nat) {
    && k + 9 <= |s|
    && s[k] == 'h' && s[k + 1] == 'e' && s[k + 2] == 'a' && s[k + 3] == 'r' && s[k + 4] == 't'
    && s[k + 5] == 'b' && s[k + 6] == 'e' && s[k + 7] == 'a' && s[k + 8] == 't'
  }

  /** A text matched by ..-..-.. stands at position k. */
  predicate DateAt(s: string, k: nat) {
    && k + 8 <= |s|
    && s[k + 2] == '-' && s[k + 5] == '-'
    && (forall i | k <= i < k + 8 :: !IsTerminator(s[i]))
  }

  /** The texts a pattern matches as a whole: LF, any line, CR LF; hexadecimal digits, the word
      heartbeat and a date; STX, A, CR. */
  predicate Shape(ptype: PacketType, s: string) {
    match ptype
    case Normal =>
      && |s| >= 3 && s[0] == LF
      && (forall i | 1 <= i < |s| - 2 :: !IsTerminator(s[i]))
      && s[|s| - 2] == CR && s[|s| - 1] == LF
    case HeartBeat =>
      && |s| >= 18
      && (forall i | 0 <= i < |s| - 17 :: IsHex(s[i]))
      && WordAt(s, |s| - 17) && DateAt(s, |s| - 8)
    case Reboot =>
      |s| == 3 && s[0] == STX && s[1] == 'A' && s[2] == CR
  }

  // ----- matching at the start of a text -----

  /** How many leading characters are neither CR nor LF. */
  function LineRun(s: string): nat {
    if s == "" || IsTerminator(s[0]) then 0 else 1 + LineRun(s[1..])
  }

  function HexRun(s: string): nat {
    if s == "" || !IsHex(s[0]) then 0 else 1 + HexRun(s[1..])
  }

  lemma {:induction false} LineRunIs(s: string, n: nat)
    requires n <= |s| && (forall i | 0 <= i < n :: !IsTerminator(s[i])) && (n < |s| ==> IsTerminator(s[n]))
    ensures LineRun(s) == n
  {
    if n > 0 {
      LineRunIs(s[1..], n - 1);
    }
  }

  lemma {:induction false} LineRunLaws(s: string)
    ensures LineRun(s) <= |s|
    ensures forall i | 0 <= i < LineRun(s) :: !IsTerminator(s[i])
  {
    if s != "" && !IsTerminator(s[0]) {
      LineRunLaws(s[1..]);
    }
  }

  lemma {:induction false} HexRunIs(s: string, n: nat)
    requires n <= |s| && (forall i | 0 <= i < n :: IsHex(s[i])) && (n < |s| ==> !IsHex(s[n]))
    ensures HexRun(s) == n
  {
    if n > 0 {
      HexRunIs(s[1..], n - 1);
    }
  }

  /** The length of the match that begins at the first character, if there is one. */
  function MatchLength(ptype: PacketType, s: string): Option<nat> {
    match ptype
    case Normal =>
      if s == "" || s[0] != LF then None else
        var n := 1 + LineRun(s[1..]);
        if n + 1 < |s| && s[n] == CR && s[n + 1] == LF then Some(n + 2) else None
    case HeartBeat =>
      var n := HexRun(s) + 17;
      if n <= |s| && Shape(HeartBeat, s[..n]) then Some(n) else None
    case Reboot =>
      if |s| >= 3 && Shape(Reboot, s[..3]) then Some(3) else None
  }

  lemma HeartbeatIsOneLine(s: string)
    ensures Shape(HeartBeat, s) ==> OneLine(s) && IsHex(s[0]) && |s| >= 18
  {
    if Shape(HeartBeat, s) {
      forall i | 0 <= i < |s| ensures !IsTerminator(s[i]) {
        assert i < |s| - 17 ==> IsHex(s[i]);
      }
    }
  }

  /** At one place a pattern has at most one match, so that greediness and backtracking play no part. */
  lemma MatchIsUnique(ptype: PacketType, s: string, n: nat)
    ensures MatchLength(ptype, s) == Some(n) <==> n <= |s| && Shape(ptype, s[..n])
  {
    match ptype {
      case Normal => NormalIsUnique(s, n);
      case HeartBeat => HeartbeatIsUnique(s, n);
      case Reboot =>
    }
  }

  lemma NormalIsUnique(s: string, n: nat)
    ensures MatchLength(Normal, s) == Some(n) <==> n <= |s| && Shape(Normal, s[..n])
  {
    if n <= |s| && Shape(Normal, s[..n]) {
      assert forall i | 0 <= i < n :: s[..n][i] == s[i];
      assert forall i | 0 <= i < |s| - 1 :: s[1..][i] == s[i + 1];
      LineRunIs(s[1..], n - 3);
    }
    if s != "" {
      LineRunLaws(s[1..]);
    }
  }

  lemma HeartbeatIsUnique(s: string, n: nat)
    ensures MatchLength(HeartBeat, s) == Some(n) <==> n <= |s| && Shape(HeartBeat, s[..n])
  {
    if n <= |s| && Shape(HeartBeat, s[..n]) {
      assert forall i | 0 <= i < n :: s[..n][i] == s[i];
      HexRunIs(s, n - 17);
    }
  }

  // ----- searching -----

  datatype Found = Found(position: nat, length: nat)

  function Shift(f: Option<Found>, k: nat): Option<Found> {
    if f.None? then None else Some(Found(f.value.position + k, f.value.length))
  }

  /** The first match of std::sregex_iterator: the leftmost one. */
  function Search(ptype: PacketType, s: string): Option<Found> {
    if MatchLength(ptype, s).Some? then Some(Found(0, MatchLength(ptype, s).value))
    else if s == "" then None
    else Shift(Search(ptype, s[1..]), 1)
  }

  /** No match begins before position k. */
  ghost predicate QuietUntil(ptype: PacketType, s: string, k: nat)
    requires k <= |s|
  {
    forall i | 0 <= i < k :: MatchLength(ptype, s[i..]).None?
  }

  lemma {:induction false} SearchSkips(ptype: PacketType, s: string, k: nat)
    requires k <= |s| && QuietUntil(ptype, s, k)
    ensures Search(ptype, s) == Shift(Search(ptype, s[k..]), k)
    decreases k
  {
    hide MatchLength;
    if k == 0 {
      assert s[0..] == s;
    } else {
      SearchSkips(ptype, s, k - 1);
      SearchStep(ptype, s[k - 1..]);
      assert s[k - 1..][1..] == s[k..];
    }
  }

  lemma SearchStep(ptype: PacketType, s: string)
    requires s != "" && MatchLength(ptype, s).None?
    ensures Search(ptype, s) == Shift(Search(ptype, s[1..]), 1)
  {
    hide MatchLength;
  }

  lemma MatchIsWithin(ptype: PacketType, s: string)
    ensures MatchLength(ptype, s).Some? ==> 3 <= MatchLength(ptype, s).value <= |s|
  {
    if MatchLength(ptype, s).Some? {
      MatchIsUnique(ptype, s, MatchLength(ptype, s).value);
    }
  }

  /** The search finds a text of the pattern's shape, and none begins further left. */
  lemma {:induction false} SearchIsLeftmost(ptype: PacketType, s: string)
    ensures var f := Search(ptype, s);
            f.Some? ==>
              && f.value.position + f.value.length <= |s| && f.value.length >= 3
              && Shape(ptype, s[f.value.position..f.value.position + f.value.length])
              && QuietUntil(ptype, s, f.value.position)
    ensures Search(ptype, s).None? ==> QuietUntil(ptype, s, |s|)
  {
    hide MatchLength, Shape;
    if MatchLength(ptype, s).Some? {
      MatchIsUnique(ptype, s, MatchLength(ptype, s).value);
      MatchIsWithin(ptype, s);
    } else if s != "" {
      SearchIsLeftmost(ptype, s[1..]);
      var f := Search(ptype, s[1..]);
      var k := if f.Some? then f.value.position + 1 else |s|;
      forall i | 0 <= i < k ensures MatchLength(ptype, s[i..]).None? {
        if i == 0 {
          assert s[0..] == s;
        } else {
          assert s[i..] == s[1..][i - 1..];
        }
      }
      if f.Some? {
        var p, n := f.value.position, f.value.length;
        assert s[1..][p..p + n] == s[p + 1..p + 1 + n];
      }
    }
  }

  // ----- extraction -----

  function Without(s: string, f: Found): string
    requires f.position + f.length <= |s|
  {
    s[..f.position] + s[f.position + f.length..]
  }

  datatype Drained = Drained(packets: seq<string>, buffer: string)

  /** Up to `limit` extractions, one after the other, each of the leftmost match. */
  function Drain(ptype: PacketType, buffer: string, limit: nat): Drained {
    SearchIsLeftmost(ptype, buffer);
    var f := Search(ptype, buffer);
    if limit == 0 || f.None? then Drained([], buffer) else
      var packet := buffer[f.value.position..f.value.position + f.value.length];
      var rest := Drain(ptype, Without(buffer, f.value), limit - 1);
      Drained([packet] + rest.packets, rest.buffer)
  }

  /** The receiver: the bytes not yet used, and what has been delivered of each class so far. */
  datatype Receiver = Receiver(buffer: string, normal: seq<string>, heartbeat: seq<string>, reboot: seq<string>)

  const START := Receiver("", [], [], [])

  /** task_func on one chunk, with up to `limit` extractions of each class. */
  function ReceiveUpTo(r: Receiver, chunk: string, limit: nat): Receiver {
    var n := Drain(Normal, r.buffer + chunk, limit);
    var h := Drain(HeartBeat, n.buffer, limit);
    var b := Drain(Reboot, h.buffer, limit);
    Receiver(b.buffer, r.normal + n.packets, r.heartbeat + h.packets, r.reboot + b.packets)
  }

  function Receive(r: Receiver, chunk: string): Receiver {
    ReceiveUpTo(r, chunk, MAX_PACKET_EXTRACT_COUNT)
  }

  function ReceiveAll(chunks: seq<string>): Receiver {
    if chunks == [] then START else Receive(ReceiveAll(chunks[..|chunks| - 1]), chunks[|chunks| - 1])
  }

  function Flat(texts: seq<string>): string {
    if texts == [] then "" else Flat(texts[..|texts| - 1]) + texts[|texts| - 1]
  }

  lemma {:induction false} FlatAppend(a: seq<string>, b: seq<string>)
    ensures Flat(a + b) == Flat(a) + Flat(b)
  {
    if b == [] {
      assert a + b == a;
    } else {
      var c := a + b;
      assert c[..|c| - 1] == a + b[..|b| - 1];
      FlatAppend(a, b[..|b| - 1]);
    }
  }

  // ----- what holds for every byte stream -----

  /** `s` is `t` with some characters left out. */
  predicate Subsequence(s: string, t: string) {
    if s == "" then true
    else if t == "" then false
    else if s[|s| - 1] == t[|t| - 1] && Subsequence(s[..|s| - 1], t[..|t| - 1]) then true
    else Subsequence(s, t[..|t| - 1])
  }

  lemma {:induction false} SubsequenceRefl(s: string)
    ensures Subsequence(s, s)
  {
    if s != "" {
      SubsequenceRefl(s[..|s| - 1]);
    }
  }

  /** Leaving a stretch out, and appending the same text to both sides. */
  lemma {:induction false} SubsequenceAppend(s: string, t: string, x: string)
    requires Subsequence(s, t)
    ensures Subsequence(s, t + x) && Subsequence(s + x, t + x)
    decreases |x|
  {
    if x == "" {
      assert s + x == s && t + x == t;
    } else {
      var front := x[..|x| - 1];
      SubsequenceAppend(s, t, front);
      assert (t + x)[..|t + x| - 1] == t + front;
      assert (s + x)[..|s + x| - 1] == s + front;
    }
  }

  lemma {:induction false} SubsequenceTransitive(s: string, t: string, u: string)
    requires Subsequence(s, t) && Subsequence(t, u)
    ensures Subsequence(s, u)
    decreases |u|
  {
    if s != "" {
      var t', u' := t[..|t| - 1], u[..|u| - 1];
      if t[|t| - 1] == u[|u| - 1] && Subsequence(t', u') {
        if s[|s| - 1] == t[|t| - 1] && Subsequence(s[..|s| - 1], t') {
          SubsequenceTransitive(s[..|s| - 1], t', u');
        } else {
          SubsequenceTransitive(s, t', u');
        }
      } else {
        SubsequenceTransitive(s, t, u');
      }
    }
  }

  lemma DropMiddle(a: string, b: string, c: string)
    ensures Subsequence(a + c, (a + b) + c)
  {
    SubsequenceRefl(a);
    SubsequenceAppend(a, a, b);
    SubsequenceAppend(a, a + b, c);
  }

  lemma WithoutLaws(s: string, f: Found)
    requires f.position + f.length <= |s|
    ensures Subsequence(Without(s, f), s) && |Without(s, f)| == |s| - f.length
    ensures multiset(s) == multiset(s[f.position..f.position + f.length]) + multiset(Without(s, f))
  {
    var a, b, c := s[..f.position], s[f.position..f.position + f.length], s[f.position + f.length..];
    assert s == (a + b) + c;
    DropMiddle(a, b, c);
  }

  /** What extraction of one class does to a buffer: every byte is in the packets or left over; the
      rest stays in order; at most `limit` packets come out, all of the right shape, and each makes the
      buffer shorter; and if fewer than `limit` come out, none is left. */
  ghost predicate Lawful(ptype: PacketType, buffer: string, limit: nat, d: Drained) {
    && multiset(buffer) == multiset(Flat(d.packets)) + multiset(d.buffer)
    && Subsequence(d.buffer, buffer)
    && |d.buffer| + 3 * |d.packets| <= |buffer|
    && |d.packets| <= limit
    && (forall i | 0 <= i < |d.packets| :: Shape(ptype, d.packets[i]))
    && (|d.packets| < limit ==> Search(ptype, d.buffer).None?)
  }

  lemma {:induction false} DrainIsLawful(ptype: PacketType, buffer: string, limit: nat)
    ensures Lawful(ptype, buffer, limit, Drain(ptype, buffer, limit))
    decreases limit
  {
    hide Shape, Subsequence, Search, Flat, Lawful;
    SearchIsLeftmost(ptype, buffer);
    var f := Search(ptype, buffer);
    if limit == 0 || f.None? {
      LawfulNothing(ptype, buffer, limit);
    } else {
      DrainIsLawful(ptype, Without(buffer, f.value), limit - 1);
      LawfulStep(ptype, buffer, f.value, limit, Drain(ptype, Without(buffer, f.value), limit - 1));
    }
  }

  lemma LawfulNothing(ptype: PacketType, buffer: string, limit: nat)
    requires limit == 0 || Search(ptype, buffer).None?
    ensures Lawful(ptype, buffer, limit, Drained([], buffer))
  {
    SubsequenceRefl(buffer);
  }

  lemma LawfulStep(ptype: PacketType, buffer: string, f: Found, limit: nat, d: Drained)
    requires limit > 0 && f.position + f.length <= |buffer| && f.length >= 3
    requires Shape(ptype, buffer[f.position..f.position + f.length])
    requires Lawful(ptype, Without(buffer, f), limit - 1, d)
    ensures Lawful(ptype, buffer, limit,
                   Drained([buffer[f.position..f.position + f.length]] + d.packets, d.buffer))
  {
    hide Shape, Subsequence, Search, Flat;
    var packet := buffer[f.position..f.position + f.length];
    WithoutLaws(buffer, f);
    SubsequenceTransitive(d.buffer, Without(buffer, f), buffer);
    FlatAppend([packet], d.packets);
    FlatOne(packet);
  }

  lemma FlatOne(s: string)
    ensures Flat([s]) == s
  {
    assert [s][..0] == [];
  }

  predicate AllShaped(ptype: PacketType, packets: seq<string>) {
    forall i | 0 <= i < |packets| :: Shape(ptype, packets[i])
  }

  /** What a receiver that got `stream` so far holds and has delivered. */
  ghost predicate Accounts(r: Receiver, stream: string) {
    && multiset(stream) == multiset(r.buffer) + multiset(Flat(r.normal))
                           + multiset(Flat(r.heartbeat)) + multiset(Flat(r.reboot))
    && Subsequence(r.buffer, stream)
    && AllShaped(Normal, r.normal) && AllShaped(HeartBeat, r.heartbeat) && AllShaped(Reboot, r.reboot)
  }

  /** For any bytes in any chunks: nothing is lost or invented, the buffer is what is left of the
      stream in its order, and every delivered packet has the shape of its class. */
  lemma {:induction false} EveryStream(chunks: seq<string>)
    ensures Accounts(ReceiveAll(chunks), Flat(chunks))
  {
    if chunks != [] {
      EveryStream(chunks[..|chunks| - 1]);
      ReceiveAccounts(ReceiveAll(chunks[..|chunks| - 1]), Flat(chunks[..|chunks| - 1]), chunks[|chunks| - 1],
                      MAX_PACKET_EXTRACT_COUNT);
    }
  }

  /** Bytes in, bytes out: the books of three extractions in a row. */
  lemma Balance(s: multiset<char>, c: multiset<char>, b0: multiset<char>, b1: multiset<char>,
                b2: multiset<char>, b3: multiset<char>, n: multiset<char>, h: multiset<char>,
                r: multiset<char>, n': multiset<char>, h': multiset<char>, r': multiset<char>)
    requires s == b0 + n + h + r
    requires b0 + c == n' + b1 && b1 == h' + b2 && b2 == r' + b3
    ensures s + c == b3 + (n + n') + (h + h') + (r + r')
  {
    forall x: char ensures (s + c)[x] == (b3 + (n + n') + (h + h') + (r + r'))[x] {
      assert (b0 + c)[x] == b0[x] + c[x];
    }
  }

  lemma StaysInOrder(b0: string, b1: string, b2: string, b3: string, stream: string, chunk: string)
    requires Subsequence(b0, stream)
    requires Subsequence(b1, b0 + chunk) && Subsequence(b2, b1) && Subsequence(b3, b2)
    ensures Subsequence(b3, stream + chunk)
  {
    SubsequenceAppend(b0, stream, chunk);
    SubsequenceTransitive(b1, b0 + chunk, stream + chunk);
    SubsequenceTransitive(b2, b1, stream + chunk);
    SubsequenceTransitive(b3, b2, stream + chunk);
  }

  lemma ReceiveAccounts(r: Receiver, stream: string, chunk: string, limit: nat)
    requires Accounts(r, stream)
    ensures Accounts(ReceiveUpTo(r, chunk, limit), stream + chunk)
  {
    var n := Drain(Normal, r.buffer + chunk, limit);
    var h := Drain(HeartBeat, n.buffer, limit);
    var b := Drain(Reboot, h.buffer, limit);
    DrainIsLawful(Normal, r.buffer + chunk, limit);
    DrainIsLawful(HeartBeat, n.buffer, limit);
    DrainIsLawful(Reboot, h.buffer, limit);
    FlatAppend(r.normal, n.packets);
    FlatAppend(r.heartbeat, h.packets);
    FlatAppend(r.reboot, b.packets);
    ShapedAppend(Normal, r.normal, n.packets);
    ShapedAppend(HeartBeat, r.heartbeat, h.packets);
    ShapedAppend(Reboot, r.reboot, b.packets);
    StaysInOrder(r.buffer, n.buffer, h.buffer, b.buffer, stream, chunk);
    Balance(multiset(stream), multiset(chunk), multiset(r.buffer), multiset(n.buffer), multiset(h.buffer),
            multiset(b.buffer), multiset(Flat(r.normal)), multiset(Flat(r.heartbeat)), multiset(Flat(r.reboot)),
            multiset(Flat(n.packets)), multiset(Flat(h.packets)), multiset(Flat(b.packets)));
  }

  lemma ShapedAppend(ptype: PacketType, a: seq<string>, b: seq<string>)
    requires AllShaped(ptype, a) && AllShaped(ptype, b)
    ensures AllShaped(ptype, a + b)
  {
  }
}
