/** The receiving end of a connection: bytes in, packets to the queue, heartbeats to the callback. */
module CmdHandler {
  import opened Results
  import opened Sequences
  import opened Framing
  import opened PacketBus
  import opened PacketStream

  // ----- PacketContent::to_string -----

  predicate IsSpace(c: char) {
    c == ' ' || '\t' <= c <= '\r'
  }

  function LTrim(s: string): string {
    if s != "" && IsSpace(s[0]) then LTrim(s[1..]) else s
  }

  function RTrim(s: string): string {
    if s != "" && IsSpace(s[|s| - 1]) then RTrim(s[..|s| - 1]) else s
  }

  /** The text of a packet as the heartbeat callback gets it. */
  function Trim(s: string): string {
    RTrim(LTrim(s))
  }

  /** The callback gets a heartbeat as it was sent, unless its date ends in a space. */
  lemma HeartbeatText(item: Item)
    requires item.HeartbeatItem? && WellFormed(item)
    ensures Trim(Render(item)) == Render(item) <==> !IsSpace(item.date[7])
  {
    var s := Render(item);
    assert s[0] == item.id[0] && s[|s| - 1] == item.date[7];
    assert LTrim(s) == s;
    RTrimShortens(s[..|s| - 1]);
  }

  lemma {:induction false} RTrimShortens(s: string)
    ensures |RTrim(s)| <= |s|
  {
    if s != "" && IsSpace(s[|s| - 1]) {
      RTrimShortens(s[..|s| - 1]);
    }
  }

  // ----- what a list of extracted packets leads to -----

  /** The packets that go to the queue. */
  function Queued(ptype: PacketType, packets: seq<string>): seq<Packet> {
    if ptype == HeartBeat || packets == [] then []
    else Queued(ptype, packets[..|packets| - 1]) + [Packet(packets[|packets| - 1], ptype)]
  }

  /** The texts that go to the heartbeat callback. */
  function Called(ptype: PacketType, packets: seq<string>): seq<string> {
    if ptype != HeartBeat || packets == [] then []
    else Called(ptype, packets[..|packets| - 1]) + [Trim(packets[|packets| - 1])]
  }

  lemma NoPackets(ptype: PacketType)
    ensures Queued(ptype, []) == [] && Called(ptype, []) == []
  {
  }

  lemma OneMorePacket(ptype: PacketType, packets: seq<string>, packet: string)
    ensures Queued(ptype, packets + [packet])
            == Queued(ptype, packets) + if ptype == HeartBeat then [] else [Packet(packet, ptype)]
    ensures Called(ptype, packets + [packet])
            == Called(ptype, packets) + if ptype == HeartBeat then [Trim(packet)] else []
  {
    assert (packets + [packet])[..|packets|] == packets;
  }

  /** The extraction of the rest, behind the packets already taken. */
  ghost predicate Remains(ptype: PacketType, start: string, limit: nat, taken: seq<string>, buffer: string) {
    |taken| <= limit
    && var rest := Drain(ptype, buffer, limit - |taken|);
       Drain(ptype, start, limit) == Drained(taken + rest.packets, rest.buffer)
  }

  lemma RemainsAtStart(ptype: PacketType, start: string, limit: nat)
    ensures Remains(ptype, start, limit, [], start)
  {
    hide Drain;
    var d := Drain(ptype, start, limit);
    assert [] + d.packets == d.packets;
  }

  lemma RemainsAfterOne(ptype: PacketType, start: string, limit: nat, taken: seq<string>, buffer: string)
    requires Remains(ptype, start, limit, taken, buffer) && |taken| < limit && Search(ptype, buffer).Some?
    ensures var f := Search(ptype, buffer).value;
            && f.position + f.length <= |buffer|
            && Remains(ptype, start, limit, taken + [buffer[f.position..f.position + f.length]], Without(buffer, f))
  {
    hide Search, Drain;
    SearchIsLeftmost(ptype, buffer);
    var f := Search(ptype, buffer).value;
    DrainUnfolds(ptype, buffer, limit - |taken|);
    var packet := buffer[f.position..f.position + f.length];
    var rest := Drain(ptype, Without(buffer, f), limit - |taken| - 1);
    assert taken + ([packet] + rest.packets) == (taken + [packet]) + rest.packets;
  }

  lemma DrainUnfolds(ptype: PacketType, buffer: string, limit: nat)
    requires limit > 0 && Search(ptype, buffer).Some?
    ensures var f := Search(ptype, buffer).value;
            && f.position + f.length <= |buffer|
            && var rest := Drain(ptype, Without(buffer, f), limit - 1);
               Drain(ptype, buffer, limit)
               == Drained([buffer[f.position..f.position + f.length]] + rest.packets, rest.buffer)
  {
    hide Search;
    SearchIsLeftmost(ptype, buffer);
  }

  lemma RemainsAtEnd(ptype: PacketType, start: string, limit: nat, taken: seq<string>, buffer: string)
    requires Remains(ptype, start, limit, taken, buffer)
    requires |taken| == limit || Search(ptype, buffer).None?
    ensures Drain(ptype, start, limit) == Drained(taken, buffer)
  {
    hide Search;
    assert Drain(ptype, buffer, limit - |taken|) == Drained([], buffer);
    assert taken + [] == taken;
  }

  class CmdHandler {
    var buffer: string
    const packetQueue: PacketQueue
    var hasHeartbeatCallback: bool
    var heartbeatCalls: seq<string> // what the callback has been called with

    constructor (queue: PacketQueue)
      ensures buffer == "" && packetQueue == queue && !hasHeartbeatCallback && heartbeatCalls == []
    {
      buffer, heartbeatCalls, hasHeartbeatCallback := "", [], false;
      packetQueue := queue;
    }

    /** The calls that a list of packets leads to: none while no callback is set. */
    function Calls(ptype: PacketType, packets: seq<string>): seq<string>
      reads this`hasHeartbeatCallback
    {
      if hasHeartbeatCallback then Called(ptype, packets) else []
    }

    /** extract: hand the leftmost match on and erase it from the buffer. */
    method Extract(ptype: PacketType) returns (found: bool)
      modifies this`buffer, this`heartbeatCalls, packetQueue`queue, packetQueue`subjectState,
               packetQueue`pushed, packetQueue`removed, packetQueue.observers
      ensures found == Search(ptype, old(buffer)).Some?
      ensures !found ==> buffer == old(buffer) && heartbeatCalls == old(heartbeatCalls)
                         && packetQueue.pushed == old(packetQueue.pushed)
                         && forall o | o in packetQueue.observers && packetQueue.AttachedOnce(o) ::
                              o.seen == old(o.seen)
      ensures found ==>
        var f := Search(ptype, old(buffer)).value;
        && f.position + f.length <= |old(buffer)|
        && var packet := old(buffer)[f.position..f.position + f.length];
           && buffer == Framing.Without(old(buffer), f)
           && var queued := if ptype == HeartBeat then [] else [Packet(packet, ptype)];
              && packetQueue.pushed == old(packetQueue.pushed) + queued
              && (forall o | o in packetQueue.observers && packetQueue.AttachedOnce(o) ::
                    o.seen == old(o.seen) + queued)
              && heartbeatCalls == old(heartbeatCalls)
                                    + if ptype == HeartBeat && hasHeartbeatCallback then [Trim(packet)] else []
      ensures old(packetQueue.InOrder()) ==> packetQueue.InOrder()
    {
      hide Search, Updated, PacketQueue.AttachedOnce;
      var it := Search(ptype, buffer);
      if it.None? {
        return false;
      }
      SearchIsLeftmost(ptype, buffer);
      var f := it.value;
      var packet := buffer[f.position..f.position + f.length];
      match ptype {
        case Normal => packetQueue.PushBack(Packet(packet, ptype));
        case Reboot => packetQueue.PushBack(Packet(packet, ptype));
        case HeartBeat =>
          if hasHeartbeatCallback {
            heartbeatCalls := heartbeatCalls + [Trim(packet)];
          }
      }
      buffer := buffer[..f.position] + buffer[f.position + f.length..];
      return true;
    }

    /** One of the counted loops of task_func. */
    method ExtractAll(ptype: PacketType)
      modifies this`buffer, this`heartbeatCalls, packetQueue`queue, packetQueue`subjectState,
               packetQueue`pushed, packetQueue`removed, packetQueue.observers
      ensures var d := Drain(ptype, old(buffer), MAX_PACKET_EXTRACT_COUNT);
              && buffer == d.buffer
              && packetQueue.pushed == old(packetQueue.pushed) + Queued(ptype, d.packets)
              && heartbeatCalls == old(heartbeatCalls) + Calls(ptype, d.packets)
              && forall o | o in packetQueue.observers && packetQueue.AttachedOnce(o) ::
                   o.seen == old(o.seen) + Queued(ptype, d.packets)
      ensures old(packetQueue.InOrder()) ==> packetQueue.InOrder()
    {
      hide Search, Drain, Remains, Queued, Called, PacketQueue.AttachedOnce;
      NoPackets(ptype);
      ghost var taken: seq<string> := [];
      var count, found := 0, true;
      RemainsAtStart(ptype, buffer, MAX_PACKET_EXTRACT_COUNT);
      while found && count < MAX_PACKET_EXTRACT_COUNT
        invariant count == |taken| <= MAX_PACKET_EXTRACT_COUNT
        invariant Remains(ptype, old(buffer), MAX_PACKET_EXTRACT_COUNT, taken, buffer)
        invariant !found ==> Search(ptype, buffer).None?
        invariant packetQueue.pushed == old(packetQueue.pushed) + Queued(ptype, taken)
        invariant heartbeatCalls == old(heartbeatCalls) + Calls(ptype, taken)
        invariant forall o | o in packetQueue.observers && packetQueue.AttachedOnce(o) ::
                    o.seen == old(o.seen) + Queued(ptype, taken)
        invariant old(packetQueue.InOrder()) ==> packetQueue.InOrder()
        decreases MAX_PACKET_EXTRACT_COUNT - count, found
      {
        ghost var before := buffer;
        found := Extract(ptype);
        if found {
          RemainsAfterOne(ptype, old(buffer), MAX_PACKET_EXTRACT_COUNT, taken, before);
          ghost var f := Search(ptype, before).value;
          ghost var packet := before[f.position..f.position + f.length];
          OneMorePacket(ptype, taken, packet);
          taken := taken + [packet];
          count := count + 1;
        }
      }
      RemainsAtEnd(ptype, old(buffer), MAX_PACKET_EXTRACT_COUNT, taken, buffer);
    }

    /** task_func: append what was received, then extract each class in turn. */
    method TaskFunc(inData: string)
      modifies this`buffer, this`heartbeatCalls, packetQueue`queue, packetQueue`subjectState,
               packetQueue`pushed, packetQueue`removed, packetQueue.observers
      ensures var r := Receive(Receiver(old(buffer), [], [], []), inData);
              && buffer == r.buffer
              && packetQueue.pushed
                 == old(packetQueue.pushed) + Queued(Normal, r.normal) + Queued(Reboot, r.reboot)
              && heartbeatCalls == old(heartbeatCalls) + Calls(HeartBeat, r.heartbeat)
              && forall o | o in packetQueue.observers && packetQueue.AttachedOnce(o) ::
                   o.seen == old(o.seen) + Queued(Normal, r.normal) + Queued(Reboot, r.reboot)
      ensures old(packetQueue.InOrder()) ==> packetQueue.InOrder()
    {
      hide Drain, Queued, Called, PacketQueue.AttachedOnce;
      ghost var n := Drain(Normal, buffer + inData, MAX_PACKET_EXTRACT_COUNT);
      ghost var h := Drain(HeartBeat, n.buffer, MAX_PACKET_EXTRACT_COUNT);
      ghost var b := Drain(Reboot, h.buffer, MAX_PACKET_EXTRACT_COUNT);
      NothingElse(n.packets, h.packets, b.packets);
      buffer := buffer + inData;
      ExtractAll(Normal);
      ExtractAll(HeartBeat);
      ExtractAll(Reboot);
    }

    /** The read callbacks, called once for every chunk that arrives. */
    method ReceiveChunks(chunks: seq<string>)
      requires buffer == ""
      modifies this`buffer, this`heartbeatCalls, packetQueue`queue, packetQueue`subjectState,
               packetQueue`pushed, packetQueue`removed, packetQueue.observers
      ensures buffer == ReceiveAll(chunks).buffer
      ensures packetQueue.pushed == old(packetQueue.pushed) + PushedBy(chunks)
      ensures forall c | c == Normal || c == Reboot ::
                OfType(c, packetQueue.pushed)
                == OfType(c, old(packetQueue.pushed)) + Queued(c, DeliveredOf(c, ReceiveAll(chunks)))
      ensures heartbeatCalls == old(heartbeatCalls) + Calls(HeartBeat, ReceiveAll(chunks).heartbeat)
      ensures old(packetQueue.InOrder()) ==> packetQueue.InOrder()
    {
      hide Receive, Queued, Called, OfType, PushedBy;
      var k := 0;
      NothingYet();
      assert chunks[..0] == [];
      while k < |chunks|
        invariant 0 <= k <= |chunks|
        invariant buffer == ReceiveAll(chunks[..k]).buffer
        invariant packetQueue.pushed == old(packetQueue.pushed) + PushedBy(chunks[..k])
        invariant heartbeatCalls == old(heartbeatCalls) + Calls(HeartBeat, ReceiveAll(chunks[..k]).heartbeat)
        invariant old(packetQueue.InOrder()) ==> packetQueue.InOrder()
      {
        ghost var r := ReceiveAll(chunks[..k]);
        assert chunks[..k + 1][..k] == chunks[..k];
        OneMoreChunk(r, chunks[k]);
        OneMorePush(packetQueue.pushed, old(packetQueue.pushed), chunks, k);
        TaskFunc(chunks[k]);
        k := k + 1;
      }
      assert chunks[..|chunks|] == chunks;
      forall c | c == Normal || c == Reboot
        ensures OfType(c, packetQueue.pushed)
                == OfType(c, old(packetQueue.pushed)) + Queued(c, DeliveredOf(c, ReceiveAll(chunks)))
      {
        OfTypeAppend(c, old(packetQueue.pushed), PushedBy(chunks));
        PushedByClass(c, chunks);
      }
    }
  }

  /** The packets that the chunks bring to the queue, in the order in which they are pushed: with every
      chunk the normal ones and then the reboot ones. */
  function PushedBy(chunks: seq<string>): seq<Packet> {
    if chunks == [] then [] else
      var before, chunk := chunks[..|chunks| - 1], chunks[|chunks| - 1];
      var one := Receive(Receiver(ReceiveAll(before).buffer, [], [], []), chunk);
      PushedBy(before) + (Queued(Normal, one.normal) + Queued(Reboot, one.reboot))
  }

  lemma OneMorePush(pushed: seq<Packet>, start: seq<Packet>, chunks: seq<string>, k: nat)
    requires k < |chunks| && pushed == start + PushedBy(chunks[..k])
    ensures var one := Receive(Receiver(ReceiveAll(chunks[..k]).buffer, [], [], []), chunks[k]);
            pushed + Queued(Normal, one.normal) + Queued(Reboot, one.reboot) == start + PushedBy(chunks[..k + 1])
  {
    hide Receive, Queued, ReceiveAll;
    var one := Receive(Receiver(ReceiveAll(chunks[..k]).buffer, [], [], []), chunks[k]);
    var n, b := Queued(Normal, one.normal), Queued(Reboot, one.reboot);
    assert chunks[..k + 1][..k] == chunks[..k];
    Assoc(pushed, n, b);
    Assoc(start, PushedBy(chunks[..k]), n + b);
  }

  /** Each class is pushed as it is delivered, whatever stands between its packets. */
  lemma {:induction false} PushedByClass(c: PacketType, chunks: seq<string>)
    requires c == Normal || c == Reboot
    ensures OfType(c, PushedBy(chunks)) == Queued(c, DeliveredOf(c, ReceiveAll(chunks)))
  {
    hide Receive, Queued, Called, OfType;
    NothingYet();
    if chunks != [] {
      var before, chunk := chunks[..|chunks| - 1], chunks[|chunks| - 1];
      var r := ReceiveAll(before);
      var one := Receive(Receiver(r.buffer, [], [], []), chunk);
      PushedByClass(c, before);
      OneMoreChunk(r, chunk);
      OfTypeAppend(c, PushedBy(before), Queued(Normal, one.normal) + Queued(Reboot, one.reboot));
    }
  }

  // ----- lists of packets by class -----

  function DeliveredOf(ptype: PacketType, r: Receiver): seq<string> {
    match ptype
    case Normal => r.normal
    case HeartBeat => r.heartbeat
    case Reboot => r.reboot
  }

  /** The packets of one class, in their order. */
  function OfType(ptype: PacketType, packets: seq<Packet>): seq<Packet> {
    if packets == [] then []
    else OfType(ptype, packets[..|packets| - 1])
         + if packets[|packets| - 1].ptype == ptype then [packets[|packets| - 1]] else []
  }

  lemma {:induction false} OfTypeAppend(ptype: PacketType, a: seq<Packet>, b: seq<Packet>)
    ensures OfType(ptype, a + b) == OfType(ptype, a) + OfType(ptype, b)
  {
    if b == [] {
      assert a + b == a;
    } else {
      var n := |b| - 1;
      OfTypeAppend(ptype, a, b[..n]);
      AppendLast(a, b);
    }
  }

  lemma {:induction false} QueuedType(ptype: PacketType, c: PacketType, packets: seq<string>)
    requires ptype != HeartBeat
    ensures OfType(c, Queued(ptype, packets)) == if c == ptype then Queued(ptype, packets) else []
  {
    if packets != [] {
      QueuedType(ptype, c, packets[..|packets| - 1]);
    }
  }

  lemma {:induction false} QueuedAppend(ptype: PacketType, a: seq<string>, b: seq<string>)
    ensures Queued(ptype, a + b) == Queued(ptype, a) + Queued(ptype, b)
    ensures Called(ptype, a + b) == Called(ptype, a) + Called(ptype, b)
  {
    if b == [] {
      assert a + b == a;
    } else {
      var n := |b| - 1;
      QueuedAppend(ptype, a, b[..n]);
      hide Queued, Called;
      OneMorePacket(ptype, a + b[..n], b[n]);
      OneMorePacket(ptype, b[..n], b[n]);
      OneMore(b, n);
      Assoc(a, b[..n], [b[n]]);
      assert b[..n + 1] == b;
      Assoc(Queued(ptype, a), Queued(ptype, b[..n]), if ptype == HeartBeat then [] else [Packet(b[n], ptype)]);
      Assoc(Called(ptype, a), Called(ptype, b[..n]), if ptype == HeartBeat then [Trim(b[n])] else []);
    }
  }

  /** The first extraction starts with empty lists, the second queues nothing, the others call nothing. */
  lemma NothingElse(n: seq<string>, h: seq<string>, b: seq<string>)
    ensures [] + n == n && [] + h == h && [] + b == b
    ensures Queued(HeartBeat, h) == [] && Called(Normal, n) == [] && Called(Reboot, b) == []
    ensures forall x: seq<Packet> :: x + Queued(HeartBeat, h) == x
    ensures forall x: seq<string> :: x + Called(Normal, n) == x && x + Called(Reboot, b) == x
  {
  }

  lemma NothingYet()
    ensures forall c | c == Normal || c == Reboot :: Queued(c, DeliveredOf(c, START)) == []
    ensures Called(HeartBeat, START.heartbeat) == []
    ensures PushedBy([]) == [] && forall c :: OfType(c, []) == []
  {
  }

  /** What one more chunk adds to the lists of a run. */
  lemma OneMoreChunk(r: Receiver, chunk: string)
    ensures var one, all := Receive(Receiver(r.buffer, [], [], []), chunk), Receive(r, chunk);
            && all.buffer == one.buffer
            && (forall c | c == Normal || c == Reboot ::
                  OfType(c, Queued(Normal, one.normal) + Queued(Reboot, one.reboot)) == Queued(c, DeliveredOf(c, one))
                  && Queued(c, DeliveredOf(c, all)) == Queued(c, DeliveredOf(c, r)) + Queued(c, DeliveredOf(c, one)))
            && Called(HeartBeat, all.heartbeat) == Called(HeartBeat, r.heartbeat) + Called(HeartBeat, one.heartbeat)
  {
    hide Drain, Queued, Called, OfType;
    var one, all := Receive(Receiver(r.buffer, [], [], []), chunk), Receive(r, chunk);
    NothingElse(one.normal, one.heartbeat, one.reboot);
    assert all.normal == r.normal + one.normal && all.heartbeat == r.heartbeat + one.heartbeat
           && all.reboot == r.reboot + one.reboot by {
      ReceiveFrom(r, chunk);
    }
    var a, b := Queued(Normal, one.normal), Queued(Reboot, one.reboot);
    forall c | c == Normal || c == Reboot
      ensures OfType(c, a + b) == Queued(c, DeliveredOf(c, one))
    {
      OfTypeAppend(c, a, b);
      QueuedType(Normal, c, one.normal);
      QueuedType(Reboot, c, one.reboot);
    }
    QueuedAppend(Normal, r.normal, one.normal);
    QueuedAppend(Reboot, r.reboot, one.reboot);
    QueuedAppend(HeartBeat, r.heartbeat, one.heartbeat);
  }

  lemma ReceiveFrom(r: Receiver, chunk: string)
    ensures var one, all := Receive(Receiver(r.buffer, [], [], []), chunk), Receive(r, chunk);
            && all.buffer == one.buffer && all.normal == r.normal + one.normal
            && all.heartbeat == r.heartbeat + one.heartbeat && all.reboot == r.reboot + one.reboot
  {
    hide Drain;
    var n := Drain(Normal, r.buffer + chunk, MAX_PACKET_EXTRACT_COUNT);
    var h := Drain(HeartBeat, n.buffer, MAX_PACKET_EXTRACT_COUNT);
    var b := Drain(Reboot, h.buffer, MAX_PACKET_EXTRACT_COUNT);
    assert [] + n.packets == n.packets && [] + h.packets == h.packets && [] + b.packets == b.packets;
  }
}
