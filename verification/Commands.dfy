/** Commands that run concurrently on one connection: each attaches an observer, waits while packets are
    pushed, and detaches it. */
module Commands {
  import opened Sequences
  import opened PacketBus

  /** The atomic steps of async_send and send, where a command is known by its observer, and of the
      receiver, which pushes packets in between. */
  datatype Event = Start(o: Observer) | Finish(o: Observer) | Push(p: Packet)

  /** Every command has its own observer, and finishes at most once, after its start. */
  predicate Legal(events: seq<Event>) {
    events != [] ==>
      var front := events[..|events| - 1];
      && Legal(front)
      && match events[|events| - 1]
         case Start(o) => Start(o) !in front
         case Finish(o) => Start(o) in front && Finish(o) !in front
         case Push(_) => true
  }

  /** The observers of the commands that have started and not finished, in start order. */
  function InFlight(events: seq<Event>): seq<Observer> {
    Unfinished(events, events)
  }

  function Unfinished(events: seq<Event>, all: seq<Event>): seq<Observer> {
    if events == [] then [] else
      var last := events[|events| - 1];
      Unfinished(events[..|events| - 1], all)
      + if last.Start? && Finish(last.o) !in all then [last.o] else []
  }

  function Others(observers: seq<Observer>, o: Observer): seq<Observer> {
    if observers == [] then [] else
      Others(observers[..|observers| - 1], o)
      + if observers[|observers| - 1] == o then [] else [observers[|observers| - 1]]
  }

  lemma {:induction false} StartedFirst(events: seq<Event>, o: Observer)
    requires Legal(events) && Finish(o) in events
    ensures Start(o) in events
  {
    var front := events[..|events| - 1];
    if events[|events| - 1] != Finish(o) {
      assert Finish(o) in front;
      StartedFirst(front, o);
    }
  }

  lemma {:induction false} UnfinishedElements(events: seq<Event>, all: seq<Event>, o: Observer)
    ensures o in Unfinished(events, all) <==> Start(o) in events && Finish(o) !in all
  {
    if events != [] {
      var front, last := events[..|events| - 1], events[|events| - 1];
      UnfinishedElements(front, all, o);
      assert events == front + [last];
    }
  }

  lemma {:induction false} UnfinishedDistinct(events: seq<Event>, all: seq<Event>)
    requires Legal(events)
    ensures Distinct(Unfinished(events, all))
  {
    if events != [] {
      var front, last := events[..|events| - 1], events[|events| - 1];
      UnfinishedDistinct(front, all);
      if last.Start? {
        UnfinishedElements(front, all, last.o);
      }
    }
  }

  lemma {:induction false} UnfinishedGrows(events: seq<Event>, all: seq<Event>, e: Event)
    ensures Unfinished(events, all + [e])
            == if e.Finish? then Others(Unfinished(events, all), e.o) else Unfinished(events, all)
  {
    if events != [] {
      var front, last := events[..|events| - 1], events[|events| - 1];
      UnfinishedGrows(front, all, e);
      assert last.Start? ==> (Finish(last.o) in all + [e] <==> Finish(last.o) in all || e == Finish(last.o));
      var before := Unfinished(front, all);
      if last.Start? && Finish(last.o) !in all {
        assert (before + [last.o])[..|before|] == before;
        assert Unfinished(events, all) == before + [last.o];
        if e.Finish? {
          assert Others(before + [last.o], e.o)
                 == Others(before, e.o) + if last.o == e.o then [] else [last.o];
        }
      } else {
        assert Unfinished(events, all) == before;
        assert Unfinished(events, all + [e]) == Unfinished(front, all + [e]);
      }
    }
  }

  lemma {:induction false} OthersIsErased(observers: seq<Observer>, o: Observer)
    requires Distinct(observers) && o in observers
    ensures Others(observers, o) == Erased(observers, o)
  {
    var n := |observers| - 1;
    var front := observers[..n];
    var i := Find(observers, o);
    if i == n {
      NoneToErase(front, o);
    } else {
      assert front[i] == o;
      OthersIsErased(front, o);
      assert Find(front, o) == i;
      assert front[..i] == observers[..i] && front[i + 1..] + [observers[n]] == observers[i + 1..];
      assert Erased(observers, o) == Erased(front, o) + [observers[n]];
    }
  }

  lemma {:induction false} NoneToErase(observers: seq<Observer>, o: Observer)
    requires o !in observers
    ensures Others(observers, o) == observers
  {
    if observers != [] {
      NoneToErase(observers[..|observers| - 1], o);
    }
  }

  /** What one more step does to the commands in flight; a step that finishes finds its own observer. */
  lemma OneMoreEvent(events: seq<Event>, e: Event)
    requires Legal(events + [e])
    ensures e.Start? ==> e.o !in InFlight(events) && InFlight(events + [e]) == InFlight(events) + [e.o]
    ensures e.Finish? ==> e.o in InFlight(events) && InFlight(events + [e]) == Erased(InFlight(events), e.o)
    ensures e.Push? ==> InFlight(events + [e]) == InFlight(events)
  {
    var all := events + [e];
    assert all[..|all| - 1] == events;
    UnfinishedGrows(events, events, e);
    UnfinishedDistinct(events, events);
    if !e.Push? {
      UnfinishedElements(events, events, e.o);
    }
    if e.Start? {
      if Finish(e.o) in events {
        StartedFirst(events, e.o);
      }
    } else if e.Finish? {
      OthersIsErased(InFlight(events), e.o);
    }
  }

  lemma LegalPrefix(events: seq<Event>, k: nat)
    requires Legal(events) && k <= |events|
    ensures Legal(events[..k])
    decreases |events|
  {
    if k < |events| {
      LegalPrefix(events[..|events| - 1], k);
      assert events[..|events| - 1][..k] == events[..k];
    } else {
      assert events[..k] == events;
    }
  }

  // ----- what the commands see -----

  function Pushed(events: seq<Event>): seq<Packet> {
    if events == [] then [] else
      var last := events[|events| - 1];
      Pushed(events[..|events| - 1]) + if last.Push? then [last.p] else []
  }

  /** The packets pushed while the observer's command is in flight. */
  function SeenBy(events: seq<Event>, o: Observer): seq<Packet> {
    if events == [] then [] else
      var front, last := events[..|events| - 1], events[|events| - 1];
      SeenBy(front, o) + if last.Push? && o in InFlight(front) then [last.p] else []
  }

  lemma SeenOne(events: seq<Event>, e: Event, o: Observer)
    ensures SeenBy(events + [e], o) == SeenBy(events, o) + if e.Push? && o in InFlight(events) then [e.p] else []
  {
    assert (events + [e])[..|events|] == events;
  }

  lemma {:induction false} SeenBefore(before: seq<Event>, o: Observer)
    requires Start(o) !in before
    ensures SeenBy(before, o) == []
  {
    if before != [] {
      var front := before[..|before| - 1];
      SeenBefore(front, o);
      UnfinishedElements(front, front, o);
    }
  }

  lemma {:induction false} SeenDuring(before: seq<Event>, during: seq<Event>, o: Observer)
    requires Start(o) in before && Finish(o) !in before + during
    ensures SeenBy(before + during, o) == SeenBy(before, o) + Pushed(during)
    decreases |during|
  {
    if during == [] {
      assert before + during == before;
    } else {
      var front, last := during[..|during| - 1], during[|during| - 1];
      assert before + during == before + front + [last] && during == front + [last];
      SeenDuring(before, front, o);
      UnfinishedElements(before + front, before + front, o);
      SeenOne(before + front, last, o);
      SeenPushed(front, last);
      Assoc(SeenBy(before, o), Pushed(front), if last.Push? then [last.p] else []);
    }
  }

  lemma {:induction false} SeenAfter(done: seq<Event>, after: seq<Event>, o: Observer)
    requires Finish(o) in done
    ensures SeenBy(done + after, o) == SeenBy(done, o)
    decreases |after|
  {
    if after == [] {
      assert done + after == done;
    } else {
      var front, last := after[..|after| - 1], after[|after| - 1];
      assert done + after == done + front + [last];
      SeenAfter(done, front, o);
      UnfinishedElements(done + front, done + front, o);
      SeenOne(done + front, last, o);
    }
  }

  /** The packets pushed between a command's start and its finish are all that its observer sees of any
      run around them, in their order. */
  lemma SeenBetween(before: seq<Event>, o: Observer, during: seq<Event>, after: seq<Event>)
    requires Legal(before + [Start(o)] + during + [Finish(o)] + after)
    ensures SeenBy(before + [Start(o)] + during + [Finish(o)] + after, o) == Pushed(during)
  {
    var start := before + [Start(o)];
    var all, done := start + during + [Finish(o)] + after, start + during + [Finish(o)];
    assert all[..|done|] == done && done[..|done| - 1] == start + during;
    LegalPrefix(all, |done|);
    LegalPrefix(done, |start|);
    assert done[..|start|] == start && start[..|start| - 1] == before;
    SeenBefore(before, o);
    SeenOne(before, Start(o), o);
    SeenDuring(start, during, o);
    SeenOne(start + during, Finish(o), o);
    SeenAfter(done, after, o);
  }

  /** While the command is in flight it has seen what was pushed since its start. */
  lemma SeenSoFar(before: seq<Event>, o: Observer, during: seq<Event>)
    requires Legal(before + [Start(o)] + during) && Finish(o) !in during
    ensures SeenBy(before + [Start(o)] + during, o) == Pushed(during)
  {
    var start := before + [Start(o)];
    assert (start + during)[..|start|] == start && start[..|start| - 1] == before;
    LegalPrefix(start + during, |start|);
    SeenBefore(before, o);
    SeenOne(before, Start(o), o);
    if Finish(o) in before {
      StartedFirst(before, o);
    }
    SeenDuring(start, during, o);
  }

  /** The queue after the events: each push is told to the asynchronous commands in flight. */
  function QueueAfter(queue: seq<Packet>, events: seq<Event>): seq<Packet> {
    if events == [] then queue else
      var front, last := events[..|events| - 1], events[|events| - 1];
      var before := QueueAfter(queue, front);
      if last.Push? then AfterPush(before, last.p, AsyncCount(InFlight(front))) else before
  }

  // ----- a run -----

  lemma NothingYet(queue: seq<Packet>)
    ensures InFlight([]) == [] && Pushed([]) == [] && QueueAfter(queue, []) == queue
    ensures forall o :: SeenBy([], o) == []
  {
  }

  /** What one more event adds. */
  lemma OneMoreStep(queue: seq<Packet>, events: seq<Event>, e: Event)
    requires Legal(events)
    ensures Pushed(events + [e]) == Pushed(events) + if e.Push? then [e.p] else []
    ensures QueueAfter(queue, events + [e])
            == if e.Push? then AfterPush(QueueAfter(queue, events), e.p, AsyncCount(InFlight(events)))
               else QueueAfter(queue, events)
    ensures forall o :: SeenBy(events + [e], o)
                        == SeenBy(events, o) + if e.Push? && o in InFlight(events) then [e.p] else []
    ensures forall o | o in InFlight(events) :: Start(o) in events && Times(InFlight(events), o) == 1
  {
    hide InFlight, SeenBy, Pushed, AsyncCount;
    assert (events + [e])[..|events|] == events;
    forall o ensures SeenBy(events + [e], o)
                     == SeenBy(events, o) + if e.Push? && o in InFlight(events) then [e.p] else [] {
      SeenOne(events, e, o);
    }
    SeenPushed(events, e);
    InFlightOnce(events);
  }

  lemma SeenPushed(events: seq<Event>, e: Event)
    ensures Pushed(events + [e]) == Pushed(events) + if e.Push? then [e.p] else []
  {
    assert (events + [e])[..|events|] == events;
  }

  lemma InFlightOnce(events: seq<Event>)
    requires Legal(events)
    ensures Distinct(InFlight(events))
    ensures forall o | o in InFlight(events) :: Start(o) in events && Times(InFlight(events), o) == 1
  {
    hide Legal, Unfinished, Times;
    UnfinishedDistinct(events, events);
    forall o | o in InFlight(events) ensures Start(o) in events && Times(InFlight(events), o) == 1 {
      UnfinishedElements(events, events, o);
      DistinctOnce(InFlight(events), o);
    }
  }

  lemma DistinctOnce(observers: seq<Observer>, o: Observer)
    requires Distinct(observers) && o in observers
    ensures Times(observers, o) == 1
  {
    var i := Find(observers, o);
    assert observers == observers[..i] + [o] + observers[i + 1..];
    assert o !in observers[i + 1..];
  }

  /** The observers of all commands of a run. */
  function Observers(events: seq<Event>): set<Observer> {
    set e | e in events && e.Start? :: e.o
  }

  /** One step of a run. */
  method Step(queue: PacketQueue, e: Event, ghost observers: set<Observer>)
    requires e.Finish? ==> e.o in queue.observers
    requires forall o | o in queue.observers :: o in observers && Times(queue.observers, o) == 1
    modifies queue, observers
    ensures queue.observers == match e
                               case Start(o) => old(queue.observers) + [o]
                               case Finish(o) => Erased(old(queue.observers), o)
                               case Push(_) => old(queue.observers)
    ensures forall o | o in observers ::
              o.seen == old(o.seen) + if e.Push? && o in old(queue.observers) then [e.p] else []
    ensures queue.queue == if e.Push? then AfterPush(old(queue.queue), e.p, AsyncCount(old(queue.observers)))
                           else old(queue.queue)
    ensures queue.pushed == old(queue.pushed) + if e.Push? then [e.p] else []
    ensures old(queue.InOrder()) ==> queue.InOrder()
  {
    hide AsyncCount, Updated, Times, AfterPush;
    match e {
      case Start(o) => var _ := queue.Attach(o);
      case Finish(o) => queue.Detach(o);
      case Push(p) => queue.PushBack(p);
    }
  }

  /** Any interleaving of command starts, command finishes and pushes on one queue: the attached observers
      are always exactly those of the commands in flight, in start order; every detach finds its entry; and
      every command's observer has seen exactly the packets pushed while it was in flight. */
  method RunCommands(queue: PacketQueue, events: seq<Event>)
    requires queue.observers == [] && Legal(events)
    modifies queue, Observers(events)
    ensures queue.observers == InFlight(events) && Distinct(queue.observers)
    ensures forall o | o in Observers(events) :: o.seen == old(o.seen) + SeenBy(events, o)
    ensures queue.queue == QueueAfter(old(queue.queue), events)
    ensures queue.pushed == old(queue.pushed) + Pushed(events)
    ensures old(queue.InOrder()) ==> queue.InOrder()
  {
    hide InFlight, SeenBy, Pushed, QueueAfter, AsyncCount, AfterPush, Legal, Erased, Times, PacketQueue.InOrder;
    var k := 0;
    NothingYet(queue.queue);
    while k < |events|
      invariant 0 <= k <= |events|
      invariant queue.observers == InFlight(events[..k])
      invariant forall o | o in Observers(events) :: o.seen == old(o.seen) + SeenBy(events[..k], o)
      invariant queue.queue == QueueAfter(old(queue.queue), events[..k])
      invariant queue.pushed == old(queue.pushed) + Pushed(events[..k])
      invariant old(queue.InOrder()) ==> queue.InOrder()
    {
      OneMore(events, k);
      LegalPrefix(events, k + 1);
      LegalPrefix(events, k);
      OneMoreEvent(events[..k], events[k]);
      OneMoreStep(old(queue.queue), events[..k], events[k]);
      Step(queue, events[k], Observers(events));
      k := k + 1;
    }
    assert events[..|events|] == events;
    InFlightOnce(events);
  }
}
