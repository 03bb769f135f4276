/** The packet queue, a subject whose observers are notified of every packet and may pop it. */
module PacketBus {
  import opened Results
  import opened Sequences
  import opened Framing

  /** A PacketContent; the default one is what pop returns for an empty queue. */
  datatype Packet = Packet(bytes: string, ptype: PacketType)

  const NO_PACKET := Packet("", Normal)

  datatype ObserverKind = Sync | Async

  /** SendSyncObserver and SendAsyncObserver. Callback and finish conditions are the command's own. */
  class Observer {
    const kind: ObserverKind
    const observerId: int
    const callback: Option<Packet -> bool>
    const finishConditions: seq<Packet -> bool>
    var observerState: Packet
    var wakeups: nat            // calls of notify_one
    ghost var seen: seq<Packet> // every packet this observer was updated with

    constructor (kind: ObserverKind, id: int, callback: Option<Packet -> bool>, conditions: seq<Packet -> bool>)
      ensures this.kind == kind && observerId == id && seen == [] && wakeups == 0
      ensures this.callback == callback && finishConditions == conditions
    {
      this.kind := kind;
      observerId := id;
      this.callback := callback;
      finishConditions := conditions;
      observerState := NO_PACKET;
      wakeups := 0;
      seen := [];
    }

    ghost function Shown(): View
      reads this
    {
      View(observerState, seen, wakeups)
    }

    /** The packet ends the wait of the command: a synchronous one waits for any packet. */
    predicate Finishes(p: Packet) {
      kind == Sync
      || (callback.Some? && callback.value(p))
      || exists i | 0 <= i < |finishConditions| :: finishConditions[i](p)
    }

    /** Observer::update, without the pop that an asynchronous observer ends it with. */
    method Update(state: Packet)
      modifies this
      ensures observerState == state && seen == old(seen) + [state]
      ensures wakeups == old(wakeups) + if Finishes(state) then 1 else 0
    {
      observerState := state;
      seen := seen + [state];
      if kind == Sync {
        wakeups := wakeups + 1;
        return;
      }
      var result := false;
      if callback.Some? {
        result := callback.value(observerState);
      }
      if result {
        wakeups := wakeups + 1;
      } else {
        var i := 0;
        while i < |finishConditions|
          invariant 0 <= i <= |finishConditions|
          invariant wakeups == old(wakeups) && observerState == state && seen == old(seen) + [state]
          invariant forall j | 0 <= j < i :: !finishConditions[j](state)
        {
          result := finishConditions[i](observerState);
          if result {
            wakeups := wakeups + 1;
            break;
          }
          i := i + 1;
        }
      }
    }
  }

  /** How many asynchronous observers there are. */
  function AsyncCount(observers: seq<Observer>): nat {
    if observers == [] then 0
    else AsyncCount(observers[..|observers| - 1]) + if observers[|observers| - 1].kind == Async then 1 else 0
  }

  function Find(observers: seq<Observer>, o: Observer): (i: nat)
    requires o in observers
    ensures i < |observers| && observers[i] == o && o !in observers[..i]
  {
    if observers[0] == o then 0 else Find(observers[1..], o) + 1
  }

  /** The observers without the first entry that is `o`. */
  function Erased(observers: seq<Observer>, o: Observer): seq<Observer>
    requires o in observers
  {
    var i := Find(observers, o);
    observers[..i] + observers[i + 1..]
  }

  lemma WithoutEntry(observers: seq<Observer>, i: nat)
    requires i < |observers|
    ensures multiset(observers[..i] + observers[i + 1..]) == multiset(observers) - multiset{observers[i]}
  {
    assert observers == observers[..i] + [observers[i]] + observers[i + 1..];
  }

  /** What an observer shows of its updates. */
  datatype View = View(state: Packet, seen: seq<Packet>, wakeups: nat)

  function Repeated(p: Packet, n: nat): seq<Packet> {
    if n == 0 then [] else Repeated(p, n - 1) + [p]
  }

  /** The view after so many updates with the state. */
  function Told(v: View, state: Packet, finishes: bool, times: nat): View {
    View(if times == 0 then v.state else state, v.seen + Repeated(state, times),
         v.wakeups + if finishes then times else 0)
  }

  lemma ToldAgain(v: View, state: Packet, finishes: bool, times: nat)
    ensures Told(Told(v, state, finishes, times), state, finishes, 1) == Told(v, state, finishes, times + 1)
    ensures Told(v, state, finishes, 0) == v
  {
    assert Repeated(state, 1) == [state];
  }

  /** The observer has been updated with the state, so many times. */
  twostate predicate Updated(o: Observer, state: Packet, times: nat)
    reads o
  {
    o.Shown() == Told(old(o.Shown()), state, o.Finishes(state), times)
  }

  /** How often the observer is attached. */
  ghost function Times(observers: seq<Observer>, o: Observer): nat {
    multiset(observers)[o]
  }

  lemma NotYet(observers: seq<Observer>, o: Observer)
    ensures Times(observers[..0], o) == 0
  {
  }

  lemma OneMoreTime(observers: seq<Observer>, i: nat)
    requires i < |observers|
    ensures forall o :: Times(observers[..i + 1], o) == Times(observers[..i], o) + if o == observers[i] then 1 else 0
  {
    OneMore(observers, i);
  }

  /** A queue after `n` pops. */
  function Popped(queue: seq<Packet>, n: nat): seq<Packet> {
    queue[Min(n, |queue|)..]
  }

  lemma NoPops(queue: seq<Packet>, observers: seq<Observer>)
    ensures Popped(queue, AsyncCount(observers[..0])) == queue
  {
  }

  lemma OneMorePop(queue: seq<Packet>, observers: seq<Observer>, i: nat)
    requires i < |observers|
    ensures Popped(queue, AsyncCount(observers[..i + 1]))
            == var q := Popped(queue, AsyncCount(observers[..i]));
               if observers[i].kind == Async && q != [] then q[1..] else q
  {
    assert observers[..i + 1][..i] == observers[..i];
  }

  class PacketQueue {
    var queue: seq<Packet>
    var subjectState: Packet
    var observers: seq<Observer>
    ghost var pushed: seq<Packet>  // every packet ever pushed
    ghost var removed: seq<Packet> // every packet taken out or dropped, in that order

    /** First in, first out: what was pushed is what has left, followed by what is still here. */
    ghost predicate InOrder()
      reads this
    {
      pushed == removed + queue
    }

    ghost predicate AttachedOnce(o: Observer)
      reads this`observers
    {
      Times(observers, o) == 1
    }

    constructor ()
      ensures InOrder() && queue == [] && observers == [] && pushed == [] && removed == []
    {
      queue, observers, pushed, removed := [], [], [], [];
      subjectState := NO_PACKET;
    }

    /** remove: walk to the given place, erase the packet there and return it. The source needs a
        packet at that place. */
    method Remove(index: int) returns (p: Packet)
      requires queue != [] && index < |queue|
      modifies this`queue, this`removed
      ensures var k: nat := if index > 0 then index else 0;
              p == old(queue)[k] && queue == old(queue)[..k] + old(queue)[k + 1..]
      ensures removed == old(removed) + [p]
      ensures old(InOrder()) && index <= 0 ==> InOrder()
    {
      var iter, left := 0, index;
      while iter < |queue| && left > 0
        invariant 0 <= iter <= |queue| && queue == old(queue) && removed == old(removed)
        invariant iter + left == index || (iter == 0 && left == index)
        invariant index > 0 ==> left >= 0
        invariant index <= 0 ==> iter == 0
      {
        iter, left := iter + 1, left - 1;
      }
      p := queue[iter];
      queue := queue[..iter] + queue[iter + 1..];
      removed := removed + [p];
      if old(InOrder()) && index <= 0 {
        assert old(queue) == [p] + queue;
      }
    }

    /** pop: the first packet, or the default one if there is none. */
    method Pop() returns (p: Packet)
      modifies this`queue, this`removed
      ensures old(queue) == [] ==> p == NO_PACKET && queue == [] && removed == old(removed)
      ensures old(queue) != [] ==>
                p == old(queue)[0] && queue == old(queue)[1..] && removed == old(removed) + [p]
      ensures removed + queue == old(removed + queue)
    {
      if |queue| > 0 {
        p := Remove(0);
        assert old(queue) == [p] + queue;
      } else {
        p := NO_PACKET;
      }
    }

    /** reset: everything still queued is dropped. */
    method Reset()
      modifies this`queue, this`removed
      ensures queue == [] && removed == old(removed) + old(queue)
      ensures old(InOrder()) ==> InOrder()
    {
      removed := removed + queue;
      queue := [];
    }

    /** notify: every observer is updated with the subject's state, once for each time it is attached,
        and each asynchronous entry of the list pops a packet. */
    method Notify()
      modifies this`queue, this`removed, observers
      ensures forall o | o in observers :: Updated(o, subjectState, Times(observers, o))
      ensures queue == Popped(old(queue), AsyncCount(observers))
      ensures removed + queue == old(removed + queue)
    {
      hide Observer.Finishes, AsyncCount, Popped, Times, Told, Observer.Shown;
      var i := 0;
      NoPops(queue, observers);
      forall o | o in observers ensures Updated(o, subjectState, Times(observers[..0], o)) {
        NotYet(observers, o);
        ToldAgain(o.Shown(), subjectState, o.Finishes(subjectState), 0);
      }
      while i < |observers|
        invariant 0 <= i <= |observers|
        invariant forall o | o in observers :: Updated(o, subjectState, Times(observers[..i], o))
        invariant queue == Popped(old(queue), AsyncCount(observers[..i]))
        invariant removed + queue == old(removed + queue)
      {
        OneMorePop(old(queue), observers, i);
        OneMoreTime(observers, i);
        ghost var o := observers[i];
        ToldAgain(old(o.Shown()), subjectState, o.Finishes(subjectState), Times(observers[..i], o));
        NotifyOne(observers[i]);
        i := i + 1;
      }
      assert observers[..|observers|] == observers;
    }

    /** One turn of notify: the update of one observer, with the pop an asynchronous one ends it with. */
    method NotifyOne(o: Observer)
      modifies this`queue, this`removed, o
      ensures Updated(o, subjectState, 1)
      ensures queue == if o.kind == Async && old(queue) != [] then old(queue)[1..] else old(queue)
      ensures removed + queue == old(removed + queue)
    {
      hide Observer.Finishes;
      o.Update(subjectState);
      assert Repeated(subjectState, 1) == [subjectState];
      if o.kind == Async {
        var _ := Pop();
      }
    }

    /** push_back: append, remember as the state, notify. */
    method PushBack(packet: Packet)
      modifies this`queue, this`subjectState, this`pushed, this`removed, observers
      ensures subjectState == packet && pushed == old(pushed) + [packet]
      ensures queue == AfterPush(old(queue), packet, AsyncCount(observers))
      ensures forall o | o in observers :: Updated(o, packet, Times(observers, o))
      ensures forall o | o in observers && AttachedOnce(o) :: o.seen == old(o.seen) + [packet]
      ensures old(InOrder()) ==> InOrder()
    {
      Assoc(removed, queue, [packet]);
      queue := queue + [packet];
      pushed := pushed + [packet];
      subjectState := packet;
      Notify();
      assert Repeated(packet, 1) == [packet];
    }

    /** attach. */
    method Attach(observer: Observer) returns (index: nat)
      modifies this`observers
      ensures observers == old(observers) + [observer] && index == |old(observers)|
    {
      observers := observers + [observer];
      index := |observers| - 1;
    }

    /** detach: the first entry with the observer's address is erased. The source needs one. */
    method Detach(observer: Observer)
      requires observer in observers
      modifies this`observers
      ensures observers == Erased(old(observers), observer)
      ensures multiset(observers) == multiset(old(observers)) - multiset{observer}
    {
      var i := 0;
      while observers[i] != observer
        invariant 0 <= i < |observers| && observer !in observers[..i] && observer in observers[i..]
        decreases |observers| - i
      {
        assert observers[i..] == [observers[i]] + observers[i + 1..];
        assert observers[..i + 1] == observers[..i] + [observers[i]];
        i := i + 1;
      }
      assert i == Find(observers, observer);
      WithoutEntry(observers, i);
      observers := observers[..i] + observers[i + 1..];
    }
  }

  // ----- runs of pushes -----

  /** The queue after a push that `a` asynchronous observers are told of. */
  function AfterPush(queue: seq<Packet>, p: Packet, a: nat): seq<Packet> {
    Popped(queue + [p], a)
  }

  function AfterPushes(queue: seq<Packet>, ps: seq<Packet>, a: nat): seq<Packet> {
    if ps == [] then queue
    else AfterPush(AfterPushes(queue, ps[..|ps| - 1], a), ps[|ps| - 1], a)
  }

  /** What is left after the pushes is always the newest part of everything that was there or came.
      Without an asynchronous observer it is all of it. With one it keeps its length: a backlog from
      before is never worked off, and an empty queue is empty after every push. With more, each push
      also works off as many packets as there are further observers. */
  lemma {:induction false} PushRuns(queue: seq<Packet>, ps: seq<Packet>, a: nat)
    ensures AfterPushes(queue, ps, a) == Newest(queue + ps, Remaining(|queue|, |ps|, a))
    ensures Remaining(|queue|, |ps|, a) <= |queue| + |ps|
  {
    if ps == [] {
      assert queue + ps == queue;
    } else {
      var n := |ps| - 1;
      PushRuns(queue, ps[..n], a);
      RemainingStep(|queue|, n, a);
      assert queue + ps == (queue + ps[..n]) + [ps[n]];
      NewestStep(queue + ps[..n], Remaining(|queue|, n, a), ps[n], a);
    }
  }

  /** How many packets are left after `pushes` pushes. */
  function Remaining(backlog: nat, pushes: nat, a: nat): nat {
    if a == 0 then backlog + pushes
    else if backlog >= pushes * (a - 1) then backlog - pushes * (a - 1) else 0
  }

  function Newest(ps: seq<Packet>, k: nat): seq<Packet> {
    ps[if k <= |ps| then |ps| - k else 0..]
  }

  lemma RemainingStep(backlog: nat, pushes: nat, a: nat)
    ensures Remaining(backlog, pushes + 1, a)
            == var r := Remaining(backlog, pushes, a) + 1; if r >= a then r - a else 0
  {
    if a > 0 {
      assert (pushes + 1) * (a - 1) == pushes * (a - 1) + (a - 1);
    }
  }

  lemma NewestStep(all: seq<Packet>, k: nat, p: Packet, a: nat)
    requires k <= |all|
    ensures AfterPush(Newest(all, k), p, a) == Newest(all + [p], if k + 1 >= a then k + 1 - a else 0)
  {
  }
}
