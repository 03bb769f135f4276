/** Streams of well-formed items, cut into chunks anywhere: what the receiver makes of them. */
module PacketStream {
  import opened Results
  import opened Text
  import opened Sequences
  import opened Framing

  /** What a reader device sends. */
  datatype Item =
    | NormalItem(body: string)
    | HeartbeatItem(id: string, date: string)
    | RebootItem

  function ClassOf(item: Item): PacketType {
    match item
    case NormalItem(_) => Normal
    case HeartbeatItem(_, _) => HeartBeat
    case RebootItem => Reboot
  }

  function Render(item: Item): string {
    match item
    case NormalItem(body) => [LF] + body + [CR, LF]
    case HeartbeatItem(id, date) => id + "heartbeat" + date
    case RebootItem => [STX, 'A', CR]
  }

  function RenderAll(items: seq<Item>): string {
    if items == [] then "" else Render(items[0]) + RenderAll(items[1..])
  }

  /** The line of a normal item holds no heartbeat and does not end like a reboot packet. */
  predicate WellFormed(item: Item) {
    match item
    case NormalItem(body) =>
      && OneLine(body)
      && (forall i, j | 0 <= i <= j <= |body| :: !Shape(HeartBeat, body[i..j]))
      && (|body| >= 2 ==> !(body[|body| - 2] == STX && body[|body| - 1] == 'A'))
    case HeartbeatItem(id, date) => id != "" && AllHex(id) && |date| == 8 && DateAt(date, 0)
    case RebootItem => true
  }

  predicate AllWellFormed(items: seq<Item>) {
    forall i | 0 <= i < |items| :: WellFormed(items[i])
  }

  // ----- a well-formed item has the shape of its own class -----

  lemma RenderShape(item: Item)
    requires WellFormed(item)
    ensures Shape(ClassOf(item), Render(item)) && |Render(item)| >= 3
  {
  }

  /** The first match in a text that begins with an item is that item. */
  lemma FirstIsItself(item: Item, rest: string)
    requires WellFormed(item)
    ensures Search(ClassOf(item), Render(item) + rest) == Some(Found(0, |Render(item)|))
  {
    RenderShape(item);
    var s := Render(item) + rest;
    assert s[..|Render(item)|] == Render(item);
    MatchIsUnique(ClassOf(item), s, |Render(item)|);
  }

  // ----- and hides no match of another class -----

  /** What follows does not continue an A or a stretch of digits into a reboot packet. */
  predicate Safe(rest: string) {
    rest != "" ==> rest[0] != CR && !(|rest| >= 2 && rest[0] == 'A' && rest[1] == CR)
  }

  /** No heartbeat reaches over the end of a line, so one that begins in a line is a part of it. */
  lemma HeartbeatStaysInLine(s: string, i: nat, e: nat)
    requires i <= e < |s| && IsTerminator(s[e])
    requires forall j | i <= j <= e :: !Shape(HeartBeat, s[i..j])
    ensures MatchLength(HeartBeat, s[i..]).None?
  {
    forall n: nat ensures MatchLength(HeartBeat, s[i..]) != Some(n) {
      MatchIsUnique(HeartBeat, s[i..], n);
      if n <= |s| - i {
        var t := s[i..][..n];
        HeartbeatIsOneLine(t);
        if n > e - i {
          assert t[e - i] == s[e];
        } else {
          assert t == s[i..i + n];
        }
      }
    }
  }

  lemma HeartbeatNotInLine(body: string, rest: string, i: nat)
    requires WellFormed(NormalItem(body)) && i < |body| + 3
    ensures MatchLength(HeartBeat, (Render(NormalItem(body)) + rest)[i..]).None?
  {
    var s := Render(NormalItem(body)) + rest;
    var e := if 1 <= i <= |body| then |body| + 1 else i;
    forall j | i <= j <= e ensures !Shape(HeartBeat, s[i..j]) {
      if e > i {
        assert s[i..j] == body[i - 1..j - 1];
      }
    }
    HeartbeatStaysInLine(s, i, e);
  }

  lemma HeartbeatNotInReboot(rest: string, i: nat)
    requires i < 3
    ensures MatchLength(HeartBeat, (Render(RebootItem) + rest)[i..]).None?
  {
    HeartbeatStaysInLine(Render(RebootItem) + rest, i, 2);
  }

  lemma RebootAt(s: string, i: nat)
    requires i <= |s|
    ensures MatchLength(Reboot, s[i..]).Some? <==>
            i + 2 < |s| && s[i] == STX && s[i + 1] == 'A' && s[i + 2] == CR
  {
  }

  lemma RebootNotInLine(body: string, rest: string, i: nat)
    requires WellFormed(NormalItem(body)) && i < |body| + 3
    ensures MatchLength(Reboot, (Render(NormalItem(body)) + rest)[i..]).None?
  {
    var s := Render(NormalItem(body)) + rest;
    RebootAt(s, i);
    if 1 <= i <= |body| {
      assert s[i] == body[i - 1];
      if i < |body| {
        assert s[i + 1] == body[i];
        if i + 1 < |body| {
          assert s[i + 2] == body[i + 1];
        }
      } else {
        assert s[i + 1] == CR;
      }
    } else {
      assert IsTerminator(s[i]);
    }
  }

  lemma RebootNotInHeartbeat(item: Item, rest: string, i: nat)
    requires item.HeartbeatItem? && WellFormed(item) && Safe(rest) && i < |Render(item)|
    ensures MatchLength(Reboot, (Render(item) + rest)[i..]).None?
  {
    var r := Render(item);
    var s := r + rest;
    RenderShape(item);
    HeartbeatIsOneLine(r);
    RebootAt(s, i);
    if i + 2 < |r| {
      assert s[i + 2] == r[i + 2];
    } else if i + 2 == |r| {
      assert rest != "" ==> s[i + 2] == rest[0];
    } else {
      assert |rest| >= 2 ==> s[i + 1] == rest[0] && s[i + 2] == rest[1];
    }
  }

  lemma NormalNeedsLF(item: Item, rest: string, i: nat)
    requires !item.NormalItem? && WellFormed(item) && i < |Render(item)|
    ensures MatchLength(Normal, (Render(item) + rest)[i..]).None?
  {
    var r := Render(item);
    assert (r + rest)[i..][0] == r[i];
    if item.HeartbeatItem? {
      RenderShape(item);
      HeartbeatIsOneLine(r);
    }
  }

  /** No match of a class begins inside an item of another class. */
  lemma OtherIsQuiet(ptype: PacketType, item: Item, rest: string)
    requires WellFormed(item) && Safe(rest) && ClassOf(item) != ptype
    ensures QuietUntil(ptype, Render(item) + rest, |Render(item)|)
  {
    forall i | 0 <= i < |Render(item)| ensures MatchLength(ptype, (Render(item) + rest)[i..]).None? {
      match ptype {
        case Normal => NormalNeedsLF(item, rest, i);
        case HeartBeat =>
          if item.NormalItem? {
            HeartbeatNotInLine(item.body, rest, i);
          } else {
            HeartbeatNotInReboot(rest, i);
          }
        case Reboot =>
          if item.NormalItem? {
            RebootNotInLine(item.body, rest, i);
          } else {
            RebootNotInHeartbeat(item, rest, i);
          }
      }
    }
  }

  lemma SearchBeyond(ptype: PacketType, item: Item, rest: string)
    requires WellFormed(item) && Safe(rest) && ClassOf(item) != ptype
    ensures Search(ptype, Render(item) + rest) == Shift(Search(ptype, rest), |Render(item)|)
  {
    OtherIsQuiet(ptype, item, rest);
    SearchSkips(ptype, Render(item) + rest, |Render(item)|);
    assert (Render(item) + rest)[|Render(item)|..] == rest;
  }

  // ----- an item that has only partly arrived -----

  /** A match in a text is a match in every longer text, at the same place. */
  lemma MatchSurvives(ptype: PacketType, s: string, more: string, i: nat)
    requires i <= |s|
    ensures MatchLength(ptype, s[i..]).Some? ==>
              && MatchLength(ptype, (s + more)[i..]) == MatchLength(ptype, s[i..])
              && i + MatchLength(ptype, s[i..]).value <= |s|
  {
    if MatchLength(ptype, s[i..]).Some? {
      var n := MatchLength(ptype, s[i..]).value;
      MatchIsUnique(ptype, s[i..], n);
      assert (s + more)[i..][..n] == s[i..][..n];
      MatchIsUnique(ptype, (s + more)[i..], n);
    }
  }

  /** A match of an item's own class inside the item reaches to its end. */
  lemma OwnMatchEnds(item: Item, i: nat)
    requires WellFormed(item) && i <= |Render(item)|
    ensures var m := MatchLength(ClassOf(item), Render(item)[i..]);
            m.Some? ==> i + m.value == |Render(item)|
  {
    hide MatchLength;
    var r := Render(item);
    var m := MatchLength(ClassOf(item), r[i..]);
    if m.Some? {
      var n := m.value;
      MatchIsUnique(ClassOf(item), r[i..], n);
      var t := r[i..][..n];
      match item {
        case NormalItem(body) =>
          assert t[n - 1] == r[i + n - 1] == LF;
          assert forall k | 0 < k <= |body| :: r[k] == body[k - 1];
        case HeartbeatItem(id, date) =>
          assert t[n - 17] == r[i + n - 17] == 'h';
          assert forall j | 0 <= j < |id| :: r[j] == id[j];
        case RebootItem =>
      }
    }
  }

  /** A part of an item that is not the whole holds no match of any class. */
  lemma PartIsQuiet(ptype: PacketType, item: Item, tail: string)
    requires WellFormed(item) && tail < Render(item)
    ensures Search(ptype, tail).None?
  {
    var r := Render(item);
    var more := r[|tail|..];
    assert tail + more == r && r + "" == r;
    if ClassOf(item) != ptype {
      OtherIsQuiet(ptype, item, "");
    }
    forall i | 0 <= i <= |tail| ensures MatchLength(ptype, tail[i..]).None? {
      MatchSurvives(ptype, tail, more, i);
      OwnMatchEnds(item, i);
    }
    SearchSkips(ptype, tail, |tail|);
    assert tail[|tail|..] == "";
    MatchIsWithin(ptype, "");
  }

  // ----- a buffer of items, the last one perhaps incomplete -----

  lemma StartsSafe(item: Item, rest: string)
    requires WellFormed(item)
    ensures Safe(Render(item) + rest)
    ensures forall k | 0 <= k <= |Render(item)| :: Safe(Render(item)[..k])
  {
    var r := Render(item);
    if item.HeartbeatItem? {
      RenderShape(item);
      HeartbeatIsOneLine(r);
    }
    assert r[0] == (r + rest)[0] && r[1] == (r + rest)[1];
  }

  lemma BufferSafe(items: seq<Item>, tail: string, next: Item)
    requires AllWellFormed(items) && WellFormed(next) && tail < Render(next)
    ensures Safe(RenderAll(items) + tail)
  {
    hide Render, WellFormed, Safe;
    if items == [] {
      StartsSafe(next, "");
      assert tail == Render(next)[..|tail|];
      assert "" + tail == tail;
    } else {
      StartsSafe(items[0], RenderAll(items[1..]) + tail);
      RenderCons(items, tail);
    }
  }

  /** No item is of the class. */
  predicate Lacks(ptype: PacketType, items: seq<Item>) {
    forall i | 0 <= i < |items| :: ClassOf(items[i]) != ptype
  }

  lemma RenderCons(items: seq<Item>, rest: string)
    requires items != []
    ensures RenderAll(items) + rest == Render(items[0]) + (RenderAll(items[1..]) + rest)
    ensures |RenderAll(items)| == |Render(items[0])| + |RenderAll(items[1..])|
  {
    hide Render;
    Assoc(Render(items[0]), RenderAll(items[1..]), rest);
  }

  /** The search passes over items of other classes. */
  lemma {:induction false} SearchPasses(ptype: PacketType, items: seq<Item>, rest: string)
    requires AllWellFormed(items) && Lacks(ptype, items) && Safe(rest)
    ensures Search(ptype, RenderAll(items) + rest) == Shift(Search(ptype, rest), |RenderAll(items)|)
    ensures Safe(RenderAll(items) + rest)
  {
    hide Search, Render, WellFormed, Safe;
    if items == [] {
      assert "" + rest == rest;
    } else {
      var more := RenderAll(items[1..]) + rest;
      SearchPasses(ptype, items[1..], rest);
      RenderCons(items, rest);
      SearchBeyond(ptype, items[0], more);
      StartsSafe(items[0], more);
    }
  }

  /** Where the first item of a class is; the number of items if there is none. */
  function FirstOf(ptype: PacketType, items: seq<Item>): (i: nat)
    ensures i <= |items| && Lacks(ptype, items[..i])
    ensures i < |items| ==> ClassOf(items[i]) == ptype
  {
    if items == [] || ClassOf(items[0]) == ptype then 0 else
      var i := FirstOf(ptype, items[1..]);
      assert items[..i + 1] == [items[0]] + items[1..][..i];
      i + 1
  }

  /** The leftmost match of a class is the first item of that class. */
  lemma SearchFindsItem(ptype: PacketType, before: seq<Item>, item: Item, rest: string)
    requires AllWellFormed(before) && WellFormed(item) && Lacks(ptype, before) && ClassOf(item) == ptype
    ensures Search(ptype, RenderAll(before) + (Render(item) + rest))
            == Some(Found(|RenderAll(before)|, |Render(item)|))
  {
    StartsSafe(item, rest);
    FirstIsItself(item, rest);
    SearchPasses(ptype, before, Render(item) + rest);
  }

  // ----- taking items out -----

  /** The first `k` items of a class. */
  function Take(ptype: PacketType, items: seq<Item>, k: nat): seq<Item> {
    if items == [] || k == 0 then []
    else if ClassOf(items[0]) == ptype then [items[0]] + Take(ptype, items[1..], k - 1)
    else Take(ptype, items[1..], k)
  }

  /** The items without the first `k` of a class. */
  function Drop(ptype: PacketType, items: seq<Item>, k: nat): seq<Item> {
    if items == [] || k == 0 then items
    else if ClassOf(items[0]) == ptype then Drop(ptype, items[1..], k - 1)
    else [items[0]] + Drop(ptype, items[1..], k)
  }

  function Texts(items: seq<Item>): seq<string> {
    if items == [] then [] else [Render(items[0])] + Texts(items[1..])
  }

  lemma {:induction false} RenderAllAppend(a: seq<Item>, b: seq<Item>)
    ensures RenderAll(a + b) == RenderAll(a) + RenderAll(b)
  {
    hide Render;
    if a == [] {
      assert a + b == b;
    } else {
      RenderAllAppend(a[1..], b);
      AppendHead(a, b);
      Assoc(Render(a[0]), RenderAll(a[1..]), RenderAll(b));
    }
  }

  lemma {:induction false} TextsAppend(a: seq<Item>, b: seq<Item>)
    ensures Texts(a + b) == Texts(a) + Texts(b)
  {
    hide Render;
    if a == [] {
      assert a + b == b;
    } else {
      TextsAppend(a[1..], b);
      AppendHead(a, b);
      Assoc([Render(a[0])], Texts(a[1..]), Texts(b));
    }
  }

  lemma {:induction false} TakeNone(ptype: PacketType, items: seq<Item>, k: nat)
    requires Lacks(ptype, items)
    ensures Take(ptype, items, k) == [] && Drop(ptype, items, k) == items
  {
    if items != [] && k > 0 {
      TakeNone(ptype, items[1..], k);
    }
  }

  /** Taking and dropping go item by item. */
  lemma {:induction false} TakeOneItem(ptype: PacketType, before: seq<Item>, item: Item, after: seq<Item>, k: nat)
    requires k > 0 && Lacks(ptype, before) && ClassOf(item) == ptype
    ensures Take(ptype, before + [item] + after, k) == [item] + Take(ptype, before + after, k - 1)
    ensures Drop(ptype, before + [item] + after, k) == Drop(ptype, before + after, k - 1)
    decreases |before|
  {
    var all, rest := before + [item] + after, before + after;
    if before == [] {
      assert all[0] == item && all[1..] == after && rest == after;
    } else {
      TakeOneItem(ptype, before[1..], item, after, k);
      AppendHead(before + [item], after);
      AppendHead(before, [item]);
      AppendHead(before, after);
      if k == 1 {
        assert rest == [rest[0]] + rest[1..];
      }
    }
  }

  /** Extraction from a buffer of items takes out the first items of the class, and only them. */
  lemma {:induction false} DrainTakesItems(ptype: PacketType, items: seq<Item>, tail: string, next: Item, limit: nat)
    requires AllWellFormed(items) && WellFormed(next) && tail < Render(next)
    ensures Drain(ptype, RenderAll(items) + tail, limit)
            == Drained(Texts(Take(ptype, items, limit)), RenderAll(Drop(ptype, items, limit)) + tail)
    decreases limit
  {
    hide Drain, Take, Drop, Texts, RenderAll, Render, WellFormed, AllWellFormed;
    var i := FirstOf(ptype, items);
    if limit == 0 || i == |items| {
      assert items[..|items|] == items;
      DrainNothing(ptype, items, tail, next, limit);
    } else {
      var before, item, after := items[..i], items[i], items[i + 1..];
      assert items == before + [item] + after;
      WithoutOne(before, item, after);
      var taken, left := Take(ptype, before + after, limit - 1), Drop(ptype, before + after, limit - 1);
      DrainTakesItems(ptype, before + after, tail, next, limit - 1);
      DrainStep(ptype, before, item, after, tail, limit, Drained(Texts(taken), RenderAll(left) + tail));
      TakeOneItem(ptype, before, item, after, limit);
      TextsCons(item, taken);
    }
  }

  lemma WithoutOne(before: seq<Item>, item: Item, after: seq<Item>)
    requires AllWellFormed(before + [item] + after)
    ensures AllWellFormed(before) && WellFormed(item) && AllWellFormed(before + after)
  {
    hide WellFormed;
    var all, n := before + [item] + after, |before|;
    assert all[n] == item;
    assert forall j | 0 <= j < n :: all[j] == before[j];
    assert forall j | n <= j < n + |after| :: all[j + 1] == (before + after)[j];
  }

  lemma TextsCons(item: Item, items: seq<Item>)
    ensures Texts([item] + items) == [Render(item)] + Texts(items)
  {
    assert ([item] + items)[1..] == items;
  }

  lemma DrainStep(ptype: PacketType, before: seq<Item>, item: Item, after: seq<Item>, tail: string,
                  limit: nat, rest: Drained)
    requires AllWellFormed(before) && WellFormed(item) && Lacks(ptype, before) && ClassOf(item) == ptype
    requires limit > 0 && Drain(ptype, RenderAll(before + after) + tail, limit - 1) == rest
    ensures Drain(ptype, RenderAll(before + [item] + after) + tail, limit)
            == Drained([Render(item)] + rest.packets, rest.buffer)
  {
    hide Drain, Search, RenderAll, Render;
    DrainOneItem(ptype, before, item, after, tail);
    DrainOnce(ptype, RenderAll(before + [item] + after) + tail, limit,
              Found(|RenderAll(before)|, |Render(item)|), rest);
  }

  lemma DrainOnce(ptype: PacketType, buffer: string, limit: nat, f: Found, rest: Drained)
    requires limit > 0 && Search(ptype, buffer) == Some(f) && f.position + f.length <= |buffer|
    requires Drain(ptype, Without(buffer, f), limit - 1) == rest
    ensures Drain(ptype, buffer, limit)
            == Drained([buffer[f.position..f.position + f.length]] + rest.packets, rest.buffer)
  {
    hide Search;
  }

  lemma DrainNothing(ptype: PacketType, items: seq<Item>, tail: string, next: Item, limit: nat)
    requires AllWellFormed(items) && WellFormed(next) && tail < Render(next)
    requires limit == 0 || Lacks(ptype, items)
    ensures Drain(ptype, RenderAll(items) + tail, limit)
            == Drained(Texts(Take(ptype, items, limit)), RenderAll(Drop(ptype, items, limit)) + tail)
  {
    if limit > 0 {
      TakeNone(ptype, items, limit);
      NothingFound(ptype, items, tail, next);
    }
  }

  lemma NothingFound(ptype: PacketType, items: seq<Item>, tail: string, next: Item)
    requires AllWellFormed(items) && WellFormed(next) && tail < Render(next) && Lacks(ptype, items)
    ensures Search(ptype, RenderAll(items) + tail).None?
  {
    hide Search, Render;
    PartIsQuiet(ptype, next, tail);
    BufferSafe([], tail, next);
    assert "" + tail == tail;
    SearchPasses(ptype, items, tail);
  }

  /** One extraction: the search finds the item, and erasing it joins what stood around it. */
  lemma DrainOneItem(ptype: PacketType, before: seq<Item>, item: Item, after: seq<Item>, tail: string)
    requires AllWellFormed(before) && WellFormed(item) && Lacks(ptype, before) && ClassOf(item) == ptype
    ensures var buffer := RenderAll(before + [item] + after) + tail;
            var f := Found(|RenderAll(before)|, |Render(item)|);
            && Search(ptype, buffer) == Some(f)
            && f.position + f.length <= |buffer|
            && buffer[f.position..f.position + f.length] == Render(item)
            && Without(buffer, f) == RenderAll(before + after) + tail
  {
    JoinAround(before, item, after, tail);
    SearchFindsItem(ptype, before, item, RenderAll(after) + tail);
  }

  lemma CutOut(a: string, b: string, c: string)
    ensures var s := a + (b + c);
            && s[|a|..|a| + |b|] == b
            && Without(s, Found(|a|, |b|)) == a + c
  {
  }

  lemma RenderAround(before: seq<Item>, item: Item, after: seq<Item>)
    ensures RenderAll(before + [item] + after) == RenderAll(before) + (Render(item) + RenderAll(after))
  {
    hide Render;
    assert before + [item] + after == before + ([item] + after);
    RenderAllAppend(before, [item] + after);
    assert ([item] + after)[1..] == after;
  }

  lemma JoinAround(before: seq<Item>, item: Item, after: seq<Item>, tail: string)
    ensures var buffer := RenderAll(before + [item] + after) + tail;
            var f := Found(|RenderAll(before)|, |Render(item)|);
            && buffer == RenderAll(before) + (Render(item) + (RenderAll(after) + tail))
            && f.position + f.length <= |buffer|
            && buffer[f.position..f.position + f.length] == Render(item)
            && Without(buffer, f) == RenderAll(before + after) + tail
  {
    hide RenderAll, Render, Without;
    RenderAround(before, item, after);
    RenderAllAppend(before, after);
    Assoc(RenderAll(before), Render(item) + RenderAll(after), tail);
    Assoc(Render(item), RenderAll(after), tail);
    Assoc(RenderAll(before), RenderAll(after), tail);
    CutOut(RenderAll(before), Render(item), RenderAll(after) + tail);
  }
}
