/** Whole runs of the receiver on streams of well-formed items. */
module Delivery {
  import opened Results
  import opened Sequences
  import opened Framing
  import opened PacketStream

  // ----- counting by class -----

  datatype Counts = Counts(normal: nat, heartbeat: nat, reboot: nat) {
    function Of(ptype: PacketType): nat {
      match ptype
      case Normal => normal
      case HeartBeat => heartbeat
      case Reboot => reboot
    }

    function With(ptype: PacketType, n: nat): Counts {
      match ptype
      case Normal => this.(normal := n)
      case HeartBeat => this.(heartbeat := n)
      case Reboot => this.(reboot := n)
    }
  }

  /** The items of one class, in stream order. */
  function OfClass(ptype: PacketType, items: seq<Item>): seq<Item> {
    if items == [] then [] else
      (if ClassOf(items[0]) == ptype then [items[0]] else []) + OfClass(ptype, items[1..])
  }

  function CountOf(ptype: PacketType, items: seq<Item>): nat {
    |OfClass(ptype, items)|
  }

  function CountAll(items: seq<Item>): Counts {
    Counts(CountOf(Normal, items), CountOf(HeartBeat, items), CountOf(Reboot, items))
  }

  lemma {:induction false} OfClassAppend(ptype: PacketType, a: seq<Item>, b: seq<Item>)
    ensures OfClass(ptype, a + b) == OfClass(ptype, a) + OfClass(ptype, b)
  {
    if a == [] {
      assert a + b == b;
    } else {
      OfClassAppend(ptype, a[1..], b);
      AppendHead(a, b);
      Assoc(if ClassOf(a[0]) == ptype then [a[0]] else [], OfClass(ptype, a[1..]), OfClass(ptype, b));
    }
  }

  /** Taking k items of a class gives the first k items of that class. */
  lemma {:induction false} TakeIsPrefix(ptype: PacketType, items: seq<Item>, k: nat)
    ensures Take(ptype, items, k) == OfClass(ptype, items)[..Min(k, CountOf(ptype, items))]
  {
    if items != [] && k > 0 {
      TakeIsPrefix(ptype, items[1..], if ClassOf(items[0]) == ptype then k - 1 else k);
    }
  }

  // ----- what is still in the buffer -----

  /** The items without the first d of each class. */
  function Pending(items: seq<Item>, d: Counts): seq<Item> {
    if items == [] then [] else
      var c := ClassOf(items[0]);
      if d.Of(c) > 0 then Pending(items[1..], d.With(c, d.Of(c) - 1))
      else [items[0]] + Pending(items[1..], d)
  }

  lemma {:induction false} DropFromPending(ptype: PacketType, items: seq<Item>, d: Counts, k: nat)
    ensures Drop(ptype, Pending(items, d), k) == Pending(items, d.With(ptype, d.Of(ptype) + k))
    decreases |items|
  {
    if items != [] {
      var c, rest := ClassOf(items[0]), items[1..];
      if d.Of(c) > 0 {
        DropFromPending(ptype, rest, d.With(c, d.Of(c) - 1), k);
      } else {
        var kept := Pending(rest, d);
        assert ([items[0]] + kept)[1..] == kept;
        if k > 0 {
          DropFromPending(ptype, rest, d, if c == ptype then k - 1 else k);
        }
      }
    }
  }

  lemma {:induction false} TakeFromPending(ptype: PacketType, items: seq<Item>, d: Counts, k: nat)
    ensures Take(ptype, items, d.Of(ptype)) + Take(ptype, Pending(items, d), k)
            == Take(ptype, items, d.Of(ptype) + k)
    decreases |items|
  {
    if items != [] {
      var c, rest := ClassOf(items[0]), items[1..];
      if d.Of(c) > 0 {
        TakeFromPending(ptype, rest, d.With(c, d.Of(c) - 1), k);
      } else {
        var kept := Pending(rest, d);
        assert ([items[0]] + kept)[1..] == kept;
        if c == ptype {
          if k > 0 {
            TakeFromPending(ptype, rest, d, k - 1);
            assert Take(ptype, rest, 0) == [];
          }
        } else {
          TakeFromPending(ptype, rest, d, k);
          if k == 0 {
            assert Take(ptype, kept, 0) == [];
          }
        }
      }
    }
  }

  predicate Within(d: Counts, items: seq<Item>) {
    forall c: PacketType :: d.Of(c) <= CountOf(c, items)
  }

  lemma WithinRest(d: Counts, items: seq<Item>)
    requires items != [] && Within(d, items)
    ensures var c := ClassOf(items[0]); Within(if d.Of(c) > 0 then d.With(c, d.Of(c) - 1) else d, items[1..])
  {
    forall c: PacketType
      ensures CountOf(c, items) == (if c == ClassOf(items[0]) then 1 else 0) + CountOf(c, items[1..])
    {
    }
    assert forall c: PacketType :: d.Of(c) <= CountOf(c, items);
  }

  /** Items that arrive later are behind everything that is pending. */
  lemma {:induction false} PendingAppend(items: seq<Item>, more: seq<Item>, d: Counts)
    requires Within(d, items)
    ensures Pending(items + more, d) == Pending(items, d) + more
    decreases |items|
  {
    if items == [] {
      assert items + more == more;
      PendingAll(more, d);
    } else {
      var c, rest := ClassOf(items[0]), items[1..];
      assert (items + more)[0] == items[0] && (items + more)[1..] == rest + more;
      WithinRest(d, items);
      if d.Of(c) > 0 {
        PendingAppend(rest, more, d.With(c, d.Of(c) - 1));
      } else {
        PendingAppend(rest, more, d);
        Assoc([items[0]], Pending(rest, d), more);
      }
    }
  }

  lemma {:induction false} PendingAll(items: seq<Item>, d: Counts)
    requires forall c: PacketType :: d.Of(c) == 0
    ensures Pending(items, d) == items
  {
    if items != [] {
      PendingAll(items[1..], d);
    }
  }

  /** Counting beyond the items there are changes nothing. */
  lemma {:induction false} PendingCapped(ptype: PacketType, items: seq<Item>, d: Counts)
    ensures Pending(items, d) == Pending(items, d.With(ptype, Min(d.Of(ptype), CountOf(ptype, items))))
    decreases |items|
  {
    if items != [] {
      var c, rest := ClassOf(items[0]), items[1..];
      PendingCapped(ptype, rest, if d.Of(c) > 0 then d.With(c, d.Of(c) - 1) else d);
      var capped := d.With(ptype, Min(d.Of(ptype), CountOf(ptype, items)));
      assert CountOf(ptype, items) == (if c == ptype then 1 else 0) + CountOf(ptype, rest);
      assert capped.Of(c) > 0 <==> d.Of(c) > 0;
    }
  }

  lemma {:induction false} NothingPending(items: seq<Item>)
    ensures Pending(items, CountAll(items)) == []
  {
    if items != [] {
      NothingPending(items[1..]);
      var c := ClassOf(items[0]);
      assert CountAll(items).With(c, CountAll(items).Of(c) - 1) == CountAll(items[1..]);
    }
  }

  lemma {:induction false} WellFormedPending(items: seq<Item>, d: Counts)
    requires AllWellFormed(items)
    ensures AllWellFormed(Pending(items, d))
    decreases |items|
  {
    if items != [] {
      var c := ClassOf(items[0]);
      WellFormedPending(items[1..], if d.Of(c) > 0 then d.With(c, d.Of(c) - 1) else d);
    }
  }

  // ----- one call -----

  /** The receiver holds the items of `done` that are not yet delivered, in stream order, and a part
      of the next item; and it has delivered the first d of each class. */
  ghost predicate Holds(r: Receiver, done: seq<Item>, tail: string, d: Counts) {
    && Within(d, done)
    && r.buffer == RenderAll(Pending(done, d)) + tail
    && r.normal == Texts(Take(Normal, done, d.normal))
    && r.heartbeat == Texts(Take(HeartBeat, done, d.heartbeat))
    && r.reboot == Texts(Take(Reboot, done, d.reboot))
  }

  /** Up to the limit of each class is delivered in one call. */
  function AfterCall(d: Counts, done: seq<Item>): Counts {
    Counts(Min(d.normal + MAX_PACKET_EXTRACT_COUNT, CountOf(Normal, done)),
           Min(d.heartbeat + MAX_PACKET_EXTRACT_COUNT, CountOf(HeartBeat, done)),
           Min(d.reboot + MAX_PACKET_EXTRACT_COUNT, CountOf(Reboot, done)))
  }

  /** Extracting one class moves that class's counter on. */
  lemma DrainStage(ptype: PacketType, done: seq<Item>, d: Counts, tail: string, next: Item, k: nat)
    requires AllWellFormed(done) && WellFormed(next) && tail < Render(next)
    ensures var r := Drain(ptype, RenderAll(Pending(done, d)) + tail, k);
            && r.buffer == RenderAll(Pending(done, d.With(ptype, d.Of(ptype) + k))) + tail
            && Texts(Take(ptype, done, d.Of(ptype))) + r.packets == Texts(Take(ptype, done, d.Of(ptype) + k))
  {
    WellFormedPending(done, d);
    DrainTakesItems(ptype, Pending(done, d), tail, next, k);
    DropFromPending(ptype, done, d, k);
    TakeFromPending(ptype, done, d, k);
    TextsAppend(Take(ptype, done, d.Of(ptype)), Take(ptype, Pending(done, d), k));
  }

  lemma TakeCapped(ptype: PacketType, items: seq<Item>, k: nat)
    ensures Take(ptype, items, k) == Take(ptype, items, Min(k, CountOf(ptype, items)))
  {
    TakeIsPrefix(ptype, items, k);
    TakeIsPrefix(ptype, items, Min(k, CountOf(ptype, items)));
  }

  lemma CapAll(items: seq<Item>, d: Counts)
    ensures Pending(items, d)
            == Pending(items, Counts(Min(d.normal, CountOf(Normal, items)),
                                     Min(d.heartbeat, CountOf(HeartBeat, items)),
                                     Min(d.reboot, CountOf(Reboot, items))))
  {
    var d1 := d.With(Normal, Min(d.normal, CountOf(Normal, items)));
    var d2 := d1.With(HeartBeat, Min(d.heartbeat, CountOf(HeartBeat, items)));
    PendingCapped(Normal, items, d);
    PendingCapped(HeartBeat, items, d1);
    PendingCapped(Reboot, items, d2);
  }

  /** Earlier items stay the first ones when more arrive. */
  lemma TakeEarlier(ptype: PacketType, done: seq<Item>, more: seq<Item>, k: nat)
    requires k <= CountOf(ptype, done)
    ensures Take(ptype, done + more, k) == Take(ptype, done, k)
  {
    TakeIsPrefix(ptype, done, k);
    TakeIsPrefix(ptype, done + more, k);
    OfClassAppend(ptype, done, more);
  }

  function PlusEach(d: Counts, k: nat): Counts {
    Counts(d.normal + k, d.heartbeat + k, d.reboot + k)
  }

  /** The three extractions of one call, one class after the other. */
  lemma ThreeStages(r: Receiver, chunk: string, all: seq<Item>, d: Counts, tail: string, next: Item, k: nat)
    requires AllWellFormed(all) && WellFormed(next) && tail < Render(next)
    requires r.buffer + chunk == RenderAll(Pending(all, d)) + tail
    requires r.normal == Texts(Take(Normal, all, d.normal))
    requires r.heartbeat == Texts(Take(HeartBeat, all, d.heartbeat))
    requires r.reboot == Texts(Take(Reboot, all, d.reboot))
    ensures ReceiveUpTo(r, chunk, k)
            == Receiver(RenderAll(Pending(all, PlusEach(d, k))) + tail,
                        Texts(Take(Normal, all, d.normal + k)),
                        Texts(Take(HeartBeat, all, d.heartbeat + k)),
                        Texts(Take(Reboot, all, d.reboot + k)))
  {
    hide Drain, Pending, Take, Texts, RenderAll;
    var d1 := d.With(Normal, d.normal + k);
    var d2 := d1.With(HeartBeat, d.heartbeat + k);
    var d3 := d2.With(Reboot, d.reboot + k);
    assert d1.Of(HeartBeat) == d.heartbeat && d2.Of(Reboot) == d.reboot && d3 == PlusEach(d, k);
    DrainStage(Normal, all, d, tail, next, k);
    DrainStage(HeartBeat, all, d1, tail, next, k);
    DrainStage(Reboot, all, d2, tail, next, k);
  }

  /** What one call makes of a buffer to which the items `more` and a new tail have come. */
  lemma CallDelivers(r: Receiver, done: seq<Item>, tail: string, d: Counts,
                     chunk: string, more: seq<Item>, tail': string, next: Item)
    requires Holds(r, done, tail, d)
    requires AllWellFormed(done + more) && WellFormed(next) && tail' < Render(next)
    requires tail + chunk == RenderAll(more) + tail'
    ensures Holds(Receive(r, chunk), done + more, tail', AfterCall(d, done + more))
  {
    hide Drain, Pending, Take, Texts, RenderAll, OfClass;
    var all, k := done + more, MAX_PACKET_EXTRACT_COUNT;
    BufferGrows(done, d, tail, chunk, more, tail');
    TakeEarlierAll(done, more, d);
    ThreeStages(r, chunk, all, d, tail', next, k);
    CapHolds(Receive(r, chunk), all, tail', PlusEach(d, k));
  }

  /** Counters may stop at the number of items there are. */
  lemma CapHolds(r: Receiver, all: seq<Item>, tail: string, d: Counts)
    requires r.buffer == RenderAll(Pending(all, d)) + tail
    requires r.normal == Texts(Take(Normal, all, d.normal))
    requires r.heartbeat == Texts(Take(HeartBeat, all, d.heartbeat))
    requires r.reboot == Texts(Take(Reboot, all, d.reboot))
    ensures Holds(r, all, tail, Counts(Min(d.normal, CountOf(Normal, all)),
                                       Min(d.heartbeat, CountOf(HeartBeat, all)),
                                       Min(d.reboot, CountOf(Reboot, all))))
  {
    CapAll(all, d);
    TakeCapped(Normal, all, d.normal);
    TakeCapped(HeartBeat, all, d.heartbeat);
    TakeCapped(Reboot, all, d.reboot);
  }

  lemma TakeEarlierAll(done: seq<Item>, more: seq<Item>, d: Counts)
    requires Within(d, done)
    ensures Take(Normal, done + more, d.normal) == Take(Normal, done, d.normal)
    ensures Take(HeartBeat, done + more, d.heartbeat) == Take(HeartBeat, done, d.heartbeat)
    ensures Take(Reboot, done + more, d.reboot) == Take(Reboot, done, d.reboot)
  {
    assert d.Of(Normal) <= CountOf(Normal, done) && d.Of(HeartBeat) <= CountOf(HeartBeat, done)
           && d.Of(Reboot) <= CountOf(Reboot, done);
    TakeEarlier(Normal, done, more, d.normal);
    TakeEarlier(HeartBeat, done, more, d.heartbeat);
    TakeEarlier(Reboot, done, more, d.reboot);
  }

  lemma BufferGrows(done: seq<Item>, d: Counts, tail: string, chunk: string, more: seq<Item>, tail': string)
    requires Within(d, done) && tail + chunk == RenderAll(more) + tail'
    ensures (RenderAll(Pending(done, d)) + tail) + chunk == RenderAll(Pending(done + more, d)) + tail'
  {
    PendingAppend(done, more, d);
    RenderAllAppend(Pending(done, d), more);
    Assoc(RenderAll(Pending(done, d)), tail, chunk);
    Assoc(RenderAll(Pending(done, d)), RenderAll(more), tail');
  }

  // ----- how much of a stream has arrived -----

  /** How many items are complete within the first n bytes. */
  function Arrived(items: seq<Item>, n: nat): nat {
    if items == [] || n < |Render(items[0])| then 0
    else 1 + Arrived(items[1..], n - |Render(items[0])|)
  }

  /** The bytes after the last complete item. */
  function TailOf(items: seq<Item>, n: nat): string {
    if items == [] || n < |Render(items[0])| then RenderAll(items)[..Min(n, |RenderAll(items)|)]
    else TailOf(items[1..], n - |Render(items[0])|)
  }

  lemma {:induction false} ArrivedSplits(items: seq<Item>, n: nat)
    requires n <= |RenderAll(items)|
    ensures Arrived(items, n) <= |items|
    ensures RenderAll(items)[..n] == RenderAll(items[..Arrived(items, n)]) + TailOf(items, n)
    ensures Arrived(items, n) < |items| ==> TailOf(items, n) < Render(items[Arrived(items, n)])
    ensures Arrived(items, n) == |items| ==> TailOf(items, n) == ""
    decreases |items|
  {
    if items == [] {
      assert items[..0] == [];
    } else if n < |Render(items[0])| {
      assert items[..0] == [];
      PrefixOfFirst(Render(items[0]), RenderAll(items[1..]), n);
      assert RenderAll([]) + TailOf(items, n) == TailOf(items, n);
    } else {
      var r, rest := Render(items[0]), items[1..];
      ArrivedSplits(rest, n - |r|);
      var m := Arrived(rest, n - |r|);
      var first := items[..m + 1];
      assert first[0] == items[0] && first[1..] == rest[..m];
      assert RenderAll(first) == r + RenderAll(rest[..m]);
      PrefixOfFirst(r, RenderAll(rest), n);
      Assoc(r, RenderAll(rest[..m]), TailOf(rest, n - |r|));
    }
  }

  lemma PrefixOfFirst(r: string, rest: string, n: nat)
    requires n <= |r| + |rest|
    ensures n < |r| ==> (r + rest)[..n] < r
    ensures n >= |r| ==> (r + rest)[..n] == r + rest[..n - |r|]
  {
  }

  lemma {:induction false} ArrivedGrows(items: seq<Item>, n: nat, k: nat)
    requires n + k <= |RenderAll(items)|
    ensures Arrived(items, n) <= Arrived(items, n + k)
    decreases |items|
  {
    if items != [] && n >= |Render(items[0])| {
      ArrivedGrows(items[1..], n - |Render(items[0])|, k);
    }
  }

  function Complete(items: seq<Item>, chunks: seq<string>): seq<Item> {
    items[..Min(Arrived(items, |Flat(chunks)|), |items|)]
  }

  /** How many of each class have been delivered after the chunks: with every chunk, up to the limit
      of those that are complete by then. */
  function Delivered(items: seq<Item>, chunks: seq<string>): Counts {
    if chunks == [] then Counts(0, 0, 0)
    else AfterCall(Delivered(items, chunks[..|chunks| - 1]), Complete(items, chunks))
  }

  /** The chunk brings the receiver from the complete items before it to those after it. */
  lemma BringsBetween(items: seq<Item>, received: string, chunk: string, n: nat, n': nat)
    requires n <= n' <= |RenderAll(items)|
    requires RenderAll(items)[..n] == received && RenderAll(items)[..n'] == received + chunk
    ensures Arrived(items, n) <= Arrived(items, n') <= |items|
    ensures TailOf(items, n) + chunk
            == RenderAll(items[Arrived(items, n)..Arrived(items, n')]) + TailOf(items, n')
  {
    hide *;
    ArrivedSplits(items, n);
    ArrivedSplits(items, n');
    ArrivedGrows(items, n, n' - n);
    Brought(items, Arrived(items, n), Arrived(items, n'), received, chunk, TailOf(items, n), TailOf(items, n'));
  }

  lemma Brought(items: seq<Item>, a: nat, b: nat, received: string, chunk: string, tail: string, tail': string)
    requires a <= b <= |items|
    requires received == RenderAll(items[..a]) + tail
    requires received + chunk == RenderAll(items[..b]) + tail'
    ensures tail + chunk == RenderAll(items[a..b]) + tail'
  {
    hide RenderAll;
    assert items[..b] == items[..a] + items[a..b];
    RenderAllAppend(items[..a], items[a..b]);
    SamePrefix(RenderAll(items[..a]), tail, chunk, RenderAll(items[a..b]), tail');
  }

  lemma SplitPrefix(x: string, y: string, whole: string)
    requires x + y <= whole
    ensures |x| + |y| <= |whole| && whole[..|x|] == x && whole[..|x| + |y|] == x + y
  {
    assert whole[..|x + y|] == x + y;
    assert (x + y)[..|x|] == x;
  }

  lemma SamePrefix(p: string, x: string, y: string, u: string, v: string)
    requires (p + x) + y == (p + u) + v
    ensures x + y == u + v
  {
    Assoc(p, x, y);
    Assoc(p, u, v);
    Cancel(p, x + y, u + v);
  }

  lemma Cancel(p: string, x: string, y: string)
    ensures p + x == p + y ==> x == y
  {
    if p + x == p + y {
      assert (p + x)[|p|..] == x && (p + y)[|p|..] == y;
    }
  }

  // ----- the main theorem -----

  /** For every stream of well-formed items, received up to any point in any chunks: the receiver has
      delivered, in order, exactly the first `Delivered` items of each class, and its buffer is exactly
      the other complete items in stream order followed by the part of the next one. */
  lemma {:induction false} StreamIsDelivered(items: seq<Item>, chunks: seq<string>)
    requires AllWellFormed(items) && Flat(chunks) <= RenderAll(items)
    ensures Holds(ReceiveAll(chunks), Complete(items, chunks), TailOf(items, |Flat(chunks)|),
                  Delivered(items, chunks))
    decreases |chunks|
  {
    hide Flat, RenderAll, TailOf, Arrived, Holds, ReceiveAll, Delivered, Receive, AfterCall;
    if chunks == [] {
      EmptyStart(items);
    } else {
      var before, chunk := chunks[..|chunks| - 1], chunks[|chunks| - 1];
      var n, n' := |Flat(before)|, |Flat(chunks)|;
      FlatLast(chunks);
      SplitPrefix(Flat(before), chunk, RenderAll(items));
      ArrivedSplits(items, n);
      ArrivedSplits(items, n');
      StreamIsDelivered(items, before);
      StreamStep(items, Flat(before), chunk, n, n', ReceiveAll(before), Delivered(items, before));
      CallCompletes(items, chunks);
    }
  }

  lemma CallCompletes(items: seq<Item>, chunks: seq<string>)
    requires chunks != []
    ensures Delivered(items, chunks) == AfterCall(Delivered(items, chunks[..|chunks| - 1]), Complete(items, chunks))
    ensures ReceiveAll(chunks) == Receive(ReceiveAll(chunks[..|chunks| - 1]), chunks[|chunks| - 1])
  {
  }

  /** One more chunk. */
  lemma StreamStep(items: seq<Item>, received: string, chunk: string, n: nat, n': nat, r: Receiver, d: Counts)
    requires AllWellFormed(items) && n <= n' <= |RenderAll(items)|
    requires RenderAll(items)[..n] == received && RenderAll(items)[..n'] == received + chunk
    requires Arrived(items, n) <= |items| && Arrived(items, n') <= |items|
    requires Holds(r, items[..Arrived(items, n)], TailOf(items, n), d)
    ensures Holds(Receive(r, chunk), items[..Arrived(items, n')], TailOf(items, n'),
                  AfterCall(d, items[..Arrived(items, n')]))
  {
    hide RenderAll, TailOf, Arrived, Holds, Receive, AfterCall;
    var a, b := Arrived(items, n), Arrived(items, n');
    BringsBetween(items, received, chunk, n, n');
    ArrivedSplits(items, n');
    assert items[..a] + items[a..b] == items[..b];
    var next := if b < |items| then items[b] else RebootItem;
    CallDelivers(r, items[..a], TailOf(items, n), d, chunk, items[a..b], TailOf(items, n'), next);
  }

  lemma FlatLast(chunks: seq<string>)
    requires chunks != []
    ensures Flat(chunks) == Flat(chunks[..|chunks| - 1]) + chunks[|chunks| - 1]
    ensures Flat(chunks[..|chunks| - 1]) <= Flat(chunks)
  {
  }

  lemma EmptyStart(items: seq<Item>)
    requires AllWellFormed(items)
    ensures Complete(items, []) == [] && Delivered(items, []) == CountAll([])
    ensures Holds(ReceiveAll([]), Complete(items, []), TailOf(items, |Flat([])|), Delivered(items, []))
  {
    if items != [] {
      RenderShape(items[0]);
    }
    assert "" + "" == "";
  }

  /** Per class, what has been delivered is a prefix of that class's items. */
  lemma DeliveredIsPrefix(items: seq<Item>, chunks: seq<string>)
    requires AllWellFormed(items) && Flat(chunks) <= RenderAll(items)
    ensures ReceiveAll(chunks).normal <= Texts(OfClass(Normal, items))
    ensures ReceiveAll(chunks).heartbeat <= Texts(OfClass(HeartBeat, items))
    ensures ReceiveAll(chunks).reboot <= Texts(OfClass(Reboot, items))
  {
    hide Texts, OfClass, Take, Pending, RenderAll, Flat, TailOf, Arrived, ReceiveAll, Delivered;
    StreamIsDelivered(items, chunks);
    var done, d := Complete(items, chunks), Delivered(items, chunks);
    TakenIsPrefix(Normal, done, items[|done|..], d.normal);
    TakenIsPrefix(HeartBeat, done, items[|done|..], d.heartbeat);
    TakenIsPrefix(Reboot, done, items[|done|..], d.reboot);
    assert done + items[|done|..] == items;
  }

  lemma TakenIsPrefix(ptype: PacketType, done: seq<Item>, more: seq<Item>, k: nat)
    ensures Texts(Take(ptype, done, k)) <= Texts(OfClass(ptype, done + more))
  {
    TakeIsPrefix(ptype, done, k);
    OfClassAppend(ptype, done, more);
    var all, taken := OfClass(ptype, done + more), Take(ptype, done, k);
    assert all == taken + all[|taken|..];
    TextsAppend(taken, all[|taken|..]);
  }

  // ----- when nothing waits -----

  /** No chunk completes more items of a class than one call can extract. */
  ghost predicate Modest(items: seq<Item>, chunks: seq<string>) {
    chunks != [] ==>
      && Modest(items, chunks[..|chunks| - 1])
      && forall c: PacketType ::
           CountOf(c, Complete(items, chunks))
           <= CountOf(c, Complete(items, chunks[..|chunks| - 1])) + MAX_PACKET_EXTRACT_COUNT
  }

  /** How much one call after each of the chunks from the k-th on allows to deliver, beyond what was
      complete after k chunks. */
  function Bound(ptype: PacketType, items: seq<Item>, chunks: seq<string>, k: nat): nat
    requires k <= |chunks|
  {
    CountOf(ptype, Complete(items, chunks[..k])) + MAX_PACKET_EXTRACT_COUNT * (|chunks| - k)
  }

  /** How many items of a class have been delivered, without recursion: the least of these bounds. */
  lemma {:induction false} DeliveredIsLeast(ptype: PacketType, items: seq<Item>, chunks: seq<string>)
    requires AllWellFormed(items)
    ensures forall k | 0 <= k <= |chunks| :: Delivered(items, chunks).Of(ptype) <= Bound(ptype, items, chunks, k)
    ensures exists k :: 0 <= k <= |chunks| && Delivered(items, chunks).Of(ptype) == Bound(ptype, items, chunks, k)
    decreases |chunks|
  {
    hide Complete, CountOf;
    var n := |chunks|;
    assert chunks[..n] == chunks;
    if n == 0 {
      EmptyStart(items);
      NoneOf(ptype);
      assert Delivered(items, chunks).Of(ptype) == Bound(ptype, items, chunks, 0);
    } else {
      var before := chunks[..n - 1];
      DeliveredIsLeast(ptype, items, before);
      forall k | 0 <= k < n
        ensures Bound(ptype, items, chunks, k) == Bound(ptype, items, before, k) + MAX_PACKET_EXTRACT_COUNT
      {
        assert before[..k] == chunks[..k];
      }
      var d := Delivered(items, chunks).Of(ptype);
      assert d == Min(Delivered(items, before).Of(ptype) + MAX_PACKET_EXTRACT_COUNT, Bound(ptype, items, chunks, n));
      if d == Bound(ptype, items, chunks, n) {
      } else {
        var k :| 0 <= k <= n - 1 && Delivered(items, before).Of(ptype) == Bound(ptype, items, before, k);
        assert d == Bound(ptype, items, chunks, k);
      }
    }
  }

  lemma NoneOf(ptype: PacketType)
    ensures CountOf(ptype, []) == 0
  {
  }

  /** The receiver shows how much of each class it has delivered. */
  lemma DeliveredShows(items: seq<Item>, chunks: seq<string>)
    requires AllWellFormed(items) && Flat(chunks) <= RenderAll(items)
    ensures var r, d := ReceiveAll(chunks), Delivered(items, chunks);
            |r.normal| == d.normal && |r.heartbeat| == d.heartbeat && |r.reboot| == d.reboot
  {
    hide Flat, RenderAll, TailOf, Arrived, ReceiveAll, Delivered, Take, Texts, OfClass, Pending, Complete;
    StreamIsDelivered(items, chunks);
    var done, d := Complete(items, chunks), Delivered(items, chunks);
    assert forall c: PacketType :: d.Of(c) <= CountOf(c, done);
    assert d.Of(Normal) <= CountOf(Normal, done) && d.Of(HeartBeat) <= CountOf(HeartBeat, done)
           && d.Of(Reboot) <= CountOf(Reboot, done);
    HowMany(Normal, done, d.normal);
    HowMany(HeartBeat, done, d.heartbeat);
    HowMany(Reboot, done, d.reboot);
  }

  lemma HowMany(ptype: PacketType, items: seq<Item>, k: nat)
    requires k <= CountOf(ptype, items)
    ensures |Texts(Take(ptype, items, k))| == k
  {
    TakeIsPrefix(ptype, items, k);
    TextsLength(Take(ptype, items, k));
  }

  lemma {:induction false} TextsLength(items: seq<Item>)
    ensures |Texts(items)| == |items|
  {
    if items != [] {
      TextsLength(items[1..]);
    }
  }

  /** What is complete never runs ahead of what the calls can deliver: at no time do more items of a class
      become complete than the calls made from then on can extract. */
  ghost predicate KeepsUp(items: seq<Item>, chunks: seq<string>) {
    forall ptype: PacketType, k: nat | k <= |chunks| ::
      CountOf(ptype, Complete(items, chunks)) <= Bound(ptype, items, chunks, k)
  }

  /** Exactly when nothing waits: every complete item has been delivered, and only the part of the next one
      is in the buffer. */
  lemma NothingWaitsIff(items: seq<Item>, chunks: seq<string>)
    requires AllWellFormed(items) && Flat(chunks) <= RenderAll(items)
    ensures var done := Complete(items, chunks);
            ReceiveAll(chunks) == Receiver(TailOf(items, |Flat(chunks)|), Texts(OfClass(Normal, done)),
                                           Texts(OfClass(HeartBeat, done)), Texts(OfClass(Reboot, done)))
            <==> KeepsUp(items, chunks)
  {
    hide Flat, RenderAll, TailOf, Arrived, ReceiveAll, Delivered, Take, Texts, OfClass, Pending, Complete, Bound;
    var done, d := Complete(items, chunks), Delivered(items, chunks);
    StreamIsDelivered(items, chunks);
    DeliveredShows(items, chunks);
    KeepsUpIff(items, chunks);
    if d == CountAll(done) {
      NothingWaits(ReceiveAll(chunks), done, TailOf(items, |Flat(chunks)|));
    }
    TextsLength(OfClass(Normal, done));
    TextsLength(OfClass(HeartBeat, done));
    TextsLength(OfClass(Reboot, done));
  }

  lemma KeepsUpIff(items: seq<Item>, chunks: seq<string>)
    requires AllWellFormed(items)
    ensures KeepsUp(items, chunks) <==> Delivered(items, chunks) == CountAll(Complete(items, chunks))
  {
    hide Delivered, Complete, CountOf;
    var n, done, d := |chunks|, Complete(items, chunks), Delivered(items, chunks);
    assert chunks[..n] == chunks;
    forall c: PacketType
      ensures d.Of(c) <= CountOf(c, done)
      ensures d.Of(c) == CountOf(c, done) <==> forall k: nat | k <= n :: CountOf(c, done) <= Bound(c, items, chunks, k)
    {
      DeliveredIsLeast(c, items, chunks);
      assert Bound(c, items, chunks, n) == CountOf(c, done);
    }
    assert d == CountAll(done) <==> d.Of(Normal) == CountOf(Normal, done) && d.Of(HeartBeat) == CountOf(HeartBeat, done)
                                    && d.Of(Reboot) == CountOf(Reboot, done);
    assert d == CountAll(done) <==> forall c: PacketType :: d.Of(c) == CountOf(c, done);
  }

  /** If no chunk completes too many items, every complete item has been delivered, and only the part
      of the next item is in the buffer. */
  lemma {:induction false} EverythingDelivered(items: seq<Item>, chunks: seq<string>)
    requires AllWellFormed(items) && Flat(chunks) <= RenderAll(items) && Modest(items, chunks)
    ensures var done := Complete(items, chunks);
            ReceiveAll(chunks) == Receiver(TailOf(items, |Flat(chunks)|), Texts(OfClass(Normal, done)),
                                           Texts(OfClass(HeartBeat, done)), Texts(OfClass(Reboot, done)))
  {
    StreamIsDelivered(items, chunks);
    CaughtUp(items, chunks);
    NothingWaits(ReceiveAll(chunks), Complete(items, chunks), TailOf(items, |Flat(chunks)|));
  }

  lemma TakeEvery(ptype: PacketType, items: seq<Item>)
    ensures Take(ptype, items, CountOf(ptype, items)) == OfClass(ptype, items)
  {
    TakeIsPrefix(ptype, items, CountOf(ptype, items));
    var all := OfClass(ptype, items);
    assert all[..|all|] == all;
  }

  lemma NothingWaits(r: Receiver, done: seq<Item>, tail: string)
    requires Holds(r, done, tail, CountAll(done))
    ensures r == Receiver(tail, Texts(OfClass(Normal, done)), Texts(OfClass(HeartBeat, done)),
                          Texts(OfClass(Reboot, done)))
  {
    NothingPending(done);
    assert RenderAll(Pending(done, CountAll(done))) == "";
    assert "" + tail == tail;
    TakeEvery(Normal, done);
    TakeEvery(HeartBeat, done);
    TakeEvery(Reboot, done);
  }

  lemma {:induction false} CaughtUp(items: seq<Item>, chunks: seq<string>)
    requires AllWellFormed(items) && Modest(items, chunks)
    ensures Delivered(items, chunks) == CountAll(Complete(items, chunks))
    decreases |chunks|
  {
    if chunks == [] {
      EmptyStart(items);
    } else {
      CaughtUp(items, chunks[..|chunks| - 1]);
      assert forall c: PacketType :: CountAll(Complete(items, chunks)).Of(c) == CountOf(c, Complete(items, chunks));
      var before, after := Complete(items, chunks[..|chunks| - 1]), Complete(items, chunks);
      assert CountOf(Normal, after) <= CountOf(Normal, before) + MAX_PACKET_EXTRACT_COUNT;
      assert CountOf(HeartBeat, after) <= CountOf(HeartBeat, before) + MAX_PACKET_EXTRACT_COUNT;
      assert CountOf(Reboot, after) <= CountOf(Reboot, before) + MAX_PACKET_EXTRACT_COUNT;
    }
  }

  /** How a stream is cut into chunks makes no difference, as long as no chunk completes too many items. */
  lemma ChunkingDoesNotMatter(items: seq<Item>, chunks: seq<string>, others: seq<string>)
    requires AllWellFormed(items) && Flat(chunks) == Flat(others) <= RenderAll(items)
    requires Modest(items, chunks) && Modest(items, others)
    ensures ReceiveAll(chunks) == ReceiveAll(others)
  {
    EverythingDelivered(items, chunks);
    EverythingDelivered(items, others);
  }

  /** In general two ways of cutting it leave the receiver in the same state exactly if as much of each
      class has been delivered: if the least bounds are the same. */
  lemma ChunkingIff(items: seq<Item>, chunks: seq<string>, others: seq<string>)
    requires AllWellFormed(items) && Flat(chunks) == Flat(others) <= RenderAll(items)
    ensures ReceiveAll(chunks) == ReceiveAll(others) <==> Delivered(items, chunks) == Delivered(items, others)
  {
    hide Flat, RenderAll, TailOf, Arrived, ReceiveAll, Delivered, Take, Texts, OfClass, Pending;
    StreamIsDelivered(items, chunks);
    StreamIsDelivered(items, others);
    DeliveredShows(items, chunks);
    DeliveredShows(items, others);
  }

  // ----- which class comes first -----

  lemma DrainNone(ptype: PacketType, buffer: string, limit: nat)
    requires Search(ptype, buffer).None?
    ensures Drain(ptype, buffer, limit) == Drained([], buffer)
  {
    hide Search;
  }

  /** A buffer that begins with a match gives it up, and what follows when nothing more is found. */
  lemma DrainFirst(ptype: PacketType, packet: string, rest: string, limit: nat)
    requires limit > 0 && Shape(ptype, packet) && Search(ptype, rest).None?
    ensures Drain(ptype, packet + rest, limit) == Drained([packet], rest)
  {
    hide Shape, MatchLength;
    var s, n := packet + rest, |packet|;
    assert s[..n] == packet;
    MatchIsUnique(ptype, s, n);
    assert Search(ptype, s) == Some(Found(0, n));
    assert Without(s, Found(0, n)) == rest;
    DrainNone(ptype, rest, limit - 1);
    OneDrained(ptype, s, n, packet, rest, limit);
  }

  lemma OneDrained(ptype: PacketType, s: string, n: nat, packet: string, rest: string, limit: nat)
    requires limit > 0 && n <= |s| && Search(ptype, s) == Some(Found(0, n)) && s[..n] == packet
    requires Without(s, Found(0, n)) == rest && Drain(ptype, rest, limit - 1) == Drained([], rest)
    ensures Drain(ptype, s, limit) == Drained([packet], rest)
  {
    hide Search, Without;
    assert s[0..0 + n] == packet;
  }

  /** A text without the first character of a pattern holds no match of it. */
  lemma {:induction false} NothingThere(ptype: PacketType, s: string)
    requires match ptype case Normal => LF !in s case HeartBeat => 'h' !in s case Reboot => STX !in s
    ensures Search(ptype, s).None?
  {
    hide MatchLength;
    if MatchLength(ptype, s).Some? {
      var n := MatchLength(ptype, s).value;
      MatchIsUnique(ptype, s, n);
      NeedsMark(ptype, s, n);
    } else if s != "" {
      NothingThere(ptype, s[1..]);
    }
  }

  lemma NeedsMark(ptype: PacketType, s: string, n: nat)
    requires n <= |s| && Shape(ptype, s[..n])
    ensures match ptype case Normal => LF in s case HeartBeat => 'h' in s case Reboot => STX in s
  {
    var t := s[..n];
    var i := if ptype == HeartBeat then n - 17 else 0;
    assert t[i] == s[i];
  }

  /** A line is delivered as a whole, whatever it contains: also a heartbeat, or the beginning of a reboot
      packet. */
  lemma LineIsWhole(body: string)
    requires OneLine(body)
    ensures var line := [LF] + body + [CR, LF];
            Receive(START, line) == Receiver("", [line], [], [])
  {
    hide Drain, Search, Shape;
    var line := [LF] + body + [CR, LF];
    LineShape(body);
    assert "" + line == line && line + "" == line;
    NothingThere(Normal, "");
    NothingThere(HeartBeat, "");
    NothingThere(Reboot, "");
    DrainFirst(Normal, line, "", MAX_PACKET_EXTRACT_COUNT);
    DrainNone(HeartBeat, "", MAX_PACKET_EXTRACT_COUNT);
    DrainNone(Reboot, "", MAX_PACKET_EXTRACT_COUNT);
  }

  lemma LineShape(body: string)
    requires OneLine(body)
    ensures Shape(Normal, [LF] + body + [CR, LF])
  {
  }

  /** A heartbeat is taken out before a reboot packet that its date runs into. */
  lemma HeartbeatFirst(item: Item)
    requires item.HeartbeatItem? && WellFormed(item)
    ensures Receive(START, Render(item) + [CR]) == Receiver([CR], [], [Render(item)], [])
  {
    hide Drain, Search, Shape, Render, WellFormed;
    var r := Render(item);
    RenderShape(item);
    HeartbeatHasNoLine(item);
    assert "" + (r + [CR]) == r + [CR];
    NothingThere(Normal, r + [CR]);
    NothingThere(HeartBeat, [CR]);
    NothingThere(Reboot, [CR]);
    DrainNone(Normal, r + [CR], MAX_PACKET_EXTRACT_COUNT);
    DrainFirst(HeartBeat, r, [CR], MAX_PACKET_EXTRACT_COUNT);
    DrainNone(Reboot, [CR], MAX_PACKET_EXTRACT_COUNT);
  }

  lemma HeartbeatHasNoLine(item: Item)
    requires item.HeartbeatItem? && WellFormed(item)
    ensures LF !in Render(item) + [CR] && ClassOf(item) == HeartBeat
  {
    RenderShape(item);
    HeartbeatIsOneLine(Render(item));
  }
}
