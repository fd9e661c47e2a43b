/** The queues of an event base: which callbacks are active, waiting for a timeout, or inserted (event.c). */
module EventQueues {
  import opened Bytes

  datatype Closure = Plain | Persist | SelfCb | FinalizeEvent | FinalizeCb

  /** A time, or an interval, in microseconds; `common` is the list of a common timeout. */
  datatype Timeout = Timeout(time: nat, common: Option<nat>)

  /** struct event_callback, and struct event when `isEvent` (EVLIST_INIT). */
  class Callback {
    const internal: bool
    const isEvent: bool
    const pri: nat
    /** ev_events has EV_PERSIST, or one of EV_READ, EV_WRITE, EV_CLOSED and EV_SIGNAL. */
    const persist: bool
    const io: bool
    var active: bool
    var later: bool
    var timed: bool
    var inserted: bool
    var finalizing: bool
    /** ev_res has EV_TIMEOUT. */
    var byTimeout: bool
    var closure: Closure
    var due: Timeout
    var interval: Option<Timeout>

    constructor (internal: bool, isEvent: bool, pri: nat, persist: bool, io: bool, closure: Closure)
      ensures !active && !later && !timed && !inserted && !finalizing && !byTimeout
      ensures
        && this.internal == internal
        && this.isEvent == isEvent
        && this.pri == pri
        && this.persist == persist
        && this.io == io
      ensures this.closure == closure && interval == None && due == Timeout(0, None)
    {
      this.internal, this.isEvent, this.pri, this.persist, this.io := internal, isEvent, pri, persist, io;
      active, later, timed, inserted, finalizing, byTimeout := false, false, false, false, false, false;
      this.closure := closure;
      due, interval := Timeout(0, None), None;
    }
  }

  type Queue = seq<Callback>

  ghost predicate NoDup(q: Queue) {
    forall i, j :: 0 <= i < j < |q| ==> q[i] != q[j]
  }

  /** TAILQ_REMOVE. */
  function Without(q: Queue, c: Callback): Queue {
    if q == [] then [] else if q[0] == c then q[1..] else [q[0]] + Without(q[1..], c)
  }

  /** TAILQ_INSERT_TAIL for the queue of the callback's priority. */
  ghost function Pushed(qs: seq<Queue>, c: Callback): seq<Queue> {
    if c.pri < |qs| then qs[c.pri := qs[c.pri] + [c]] else qs
  }

  ghost function PushedAll(qs: seq<Queue>, cs: Queue): seq<Queue>
    decreases |cs|
  {
    if cs == [] then qs else PushedAll(Pushed(qs, cs[0]), cs[1..])
  }

  ghost function OfPriority(cs: Queue, p: nat): Queue {
    if cs == [] then [] else (if cs[0].pri == p then [cs[0]] else []) + OfPriority(cs[1..], p)
  }

  /** Each queue gains the callbacks of its priority, in the order in which they waited. */
  lemma {:induction false} PushedInOrder(qs: seq<Queue>, cs: Queue)
    ensures |PushedAll(qs, cs)| == |qs|
    ensures forall p :: 0 <= p < |qs| ==> PushedAll(qs, cs)[p] == qs[p] + OfPriority(cs, p)
    decreases |cs|
  {
    if cs != [] {
      PushedInOrder(Pushed(qs, cs[0]), cs[1..]);
    }
  }

  /** How many callbacks of a queue event_count counts. */
  ghost function Counted(q: Queue): nat {
    if q == [] then 0 else (if q[0].internal then 0 else 1) + Counted(q[1..])
  }

  ghost function Weight(c: Callback): nat {
    if c.internal then 0 else 1
  }

  ghost function TotalLength(qs: seq<Queue>): nat {
    if qs == [] then 0 else |qs[0]| + TotalLength(qs[1..])
  }

  ghost function TotalCounted(qs: seq<Queue>): nat {
    if qs == [] then 0 else Counted(qs[0]) + TotalCounted(qs[1..])
  }

  lemma {:induction false} TotalsUpdate(qs: seq<Queue>, i: nat, q: Queue)
    requires i < |qs|
    ensures TotalLength(qs[i := q]) == TotalLength(qs) - |qs[i]| + |q|
    ensures TotalCounted(qs[i := q]) == TotalCounted(qs) - Counted(qs[i]) + Counted(q)
  {
    if i == 0 {
      assert qs[0 := q][1..] == qs[1..];
    } else {
      TotalsUpdate(qs[1..], i - 1, q);
      assert qs[i := q][1..] == qs[1..][i - 1 := q];
    }
  }

  ghost function Elements(q: Queue): set<Callback> {
    set c | c in q
  }

  ghost function InSome(qs: seq<Queue>): set<Callback> {
    if qs == [] then {} else Elements(qs[0]) + InSome(qs[1..])
  }

  /** Those that event_count counts. */
  ghost function External(s: set<Callback>): set<Callback> {
    set c | c in s && !c.internal
  }

  lemma Parted(a: set<Callback>, b: set<Callback>)
    requires a !! b
    ensures |a + b| == |a| + |b| && |External(a + b)| == |External(a)| + |External(b)|
  {
    assert External(a + b) == External(a) + External(b);
  }

  lemma OneElement(c: Callback)
    ensures |External({c})| == Weight(c)
  {
    assert External({c}) == if c.internal then {} else {c};
  }

  lemma {:induction false} CountedSet(q: Queue)
    requires NoDup(q)
    ensures |Elements(q)| == |q| && |External(Elements(q))| == Counted(q)
  {
    hide External;
    if q == [] {
      assert External({}) == {} by { NoneExternal(); }
    } else {
      var rest := q[1..];
      assert NoDup(rest) && q[0] !in rest by { assert forall i :: 0 <= i < |rest| ==> rest[i] == q[i + 1]; }
      CountedSet(rest);
      assert Elements(q) == {q[0]} + Elements(rest);
      Parted({q[0]}, Elements(rest));
      OneElement(q[0]);
    }
  }

  lemma NoneExternal()
    ensures External({}) == {}
  {
  }

  lemma {:induction false} TotalSet(qs: seq<Queue>)
    requires forall i :: 0 <= i < |qs| ==> NoDup(qs[i])
    requires forall i, j, c :: 0 <= i < j < |qs| && c in qs[i] ==> c !in qs[j]
    ensures |InSome(qs)| == TotalLength(qs) && |External(InSome(qs))| == TotalCounted(qs)
  {
    hide NoDup, Counted, External;
    if qs == [] {
      NoneExternal();
    } else {
      var rest := qs[1..];
      assert forall i :: 0 <= i < |rest| ==> rest[i] == qs[i + 1];
      TotalSet(rest);
      CountedSet(qs[0]);
      InSomeIs(rest);
      Parted(Elements(qs[0]), InSome(rest));
    }
  }

  lemma {:induction false} QueueOf(qs: seq<Queue>, c: Callback) returns (p: nat)
    requires c in InSome(qs)
    ensures p < |qs| && c in qs[p]
  {
    if c in qs[0] {
      p := 0;
    } else {
      p := QueueOf(qs[1..], c);
      p := p + 1;
    }
  }

  lemma {:induction false} InSomeIs(qs: seq<Queue>)
    ensures forall c :: c in InSome(qs) <==> exists i :: 0 <= i < |qs| && c in qs[i]
  {
    if qs != [] {
      InSomeIs(qs[1..]);
      assert forall i :: 0 < i < |qs| ==> qs[i] == qs[1..][i - 1];
    }
  }

  lemma {:induction false} CountedConcat(a: Queue, b: Queue)
    ensures Counted(a + b) == Counted(a) + Counted(b)
  {
    if a == [] {
      assert a + b == b;
    } else {
      CountedConcat(a[1..], b);
      assert (a + b)[1..] == a[1..] + b;
    }
  }

  /** A callback is put into a queue at position `k`. */
  lemma InsertedAt(q: Queue, k: nat, c: Callback)
    requires k <= |q| && NoDup(q) && c !in q
    ensures var r := q[..k] + [c] + q[k..];
      && NoDup(r) && |r| == |q| + 1 && Counted(r) == Counted(q) + Weight(c)
      && forall x :: x in r <==> x in q || x == c
  {
    CountedInserted(q, k, c);
    var r := q[..k] + [c] + q[k..];
    hide Counted;
    assert forall i :: 0 <= i < |r| ==> r[i] == if i < k then q[i] else if i == k then c else q[i - 1];
    assert r[k] == c && forall i :: 0 <= i < |q| ==> q[i] == r[if i < k then i else i + 1];
  }

  lemma CountedInserted(q: Queue, k: nat, c: Callback)
    requires k <= |q|
    ensures Counted(q[..k] + [c] + q[k..]) == Counted(q) + Weight(c)
  {
    CountedConcat(q[..k] + [c], q[k..]);
    CountedConcat(q[..k], [c]);
    CountedConcat(q[..k], q[k..]);
    assert q == q[..k] + q[k..];
  }

  lemma Appended(q: Queue, c: Callback)
    requires NoDup(q) && c !in q
    ensures NoDup(q + [c]) && Counted(q + [c]) == Counted(q) + Weight(c)
    ensures forall x :: x in q + [c] <==> x in q || x == c
  {
    CountedConcat(q, [c]);
  }

  lemma {:induction false} TakenOut(q: Queue, c: Callback)
    requires NoDup(q) && c in q
    ensures var r := Without(q, c);
      && NoDup(r) && |r| == |q| - 1 && Counted(r) == Counted(q) - Weight(c)
      && forall x :: x in r <==> x in q && x != c
    ensures Counted(q) >= Weight(c)
  {
    if q[0] != c {
      TakenOut(q[1..], c);
      var r := Without(q[1..], c);
      assert q[0] !in r;
      assert ([q[0]] + r)[1..] == r;
    } else {
      assert forall i :: 0 <= i < |q[1..]| ==> q[1..][i] == q[i + 1] && q[i + 1] != c;
    }
  }

  /** In order of the times they are due. */
  ghost predicate Sorted(q: Queue)
    reads q`due
  {
    forall i, j :: 0 <= i < j < |q| ==> q[i].due.time <= q[j].due.time
  }

  lemma SortedTail(q: Queue)
    requires Sorted(q) && q != []
    ensures Sorted(q[1..]) && forall x :: x in q[1..] ==> q[0].due.time <= x.due.time
  {
  }

  lemma SortedCons(c: Callback, q: Queue)
    requires Sorted(q) && forall x :: x in q ==> c.due.time <= x.due.time
    ensures Sorted([c] + q)
  {
  }

  lemma {:induction false} SortedWithout(q: Queue, c: Callback)
    requires Sorted(q)
    ensures Sorted(Without(q, c))
    ensures forall x :: x in Without(q, c) ==> x in q
  {
    hide Sorted;
    if q != [] {
      SortedTail(q);
      if q[0] != c {
        SortedWithout(q[1..], c);
        SortedCons(q[0], Without(q[1..], c));
      }
    }
  }

  /** insert_common_timeout_inorder: the search starts at the end. */
  method InsertInOrder(q: Queue, ev: Callback) returns (r: Queue, ghost k: nat)
    requires Sorted(q)
    ensures k <= |q| && r == q[..k] + [ev] + q[k..] && Sorted(r)
    ensures forall i :: 0 <= i < |q| ==> (i < k <==> q[i].due.time <= ev.due.time)
    ensures k == 0 ==> forall x :: x in q ==> ev.due.time < x.due.time
  {
    var n := |q|;
    while n > 0 && ev.due.time < q[n - 1].due.time
      invariant 0 <= n <= |q| && forall i :: n <= i < |q| ==> ev.due.time < q[i].due.time
    {
      n := n - 1;
    }
    k := n;
    r := q[..n] + [ev] + q[n..];
  }

  /** The marks of a common timeout make its interval different from zero. */
  predicate Repeats(interval: Option<Timeout>) {
    interval.Some? && (interval.value.time > 0 || interval.value.common.Some?)
  }

  const MAX_COMMON_TIMEOUTS := 256

  class Base {
    var activeQueues: seq<Queue>
    var laterQueue: Queue
    /** The events in the min-heap of timeouts. */
    var heap: Queue
    /** The events of each common timeout, and the internal event that wakes its list. */
    var lists: seq<Queue>
    var timers: seq<Callback>
    /** The interval of each common timeout, in microseconds. */
    var durations: seq<nat>
    var eventCount: int
    var eventCountActive: int
    var current: Callback?
    /** The events that evmap holds. */
    ghost var insertedQueue: Queue
    /** The callbacks that were set up for this base. */
    ghost var all: set<Callback>

    ghost predicate Queued(q: Queue)
      reads `all
    {
      NoDup(q) && forall c :: c in q ==> c in all
    }

    /** EVLIST_ACTIVE says which callbacks are in the active queue of their priority. */
    ghost predicate ActiveOk()
      reads `activeQueues, `all, all`active
    {
      && (forall p :: 0 <= p < |activeQueues| ==> Queued(activeQueues[p]))
      && (forall p :: 0 <= p < |activeQueues| ==> forall c :: c in activeQueues[p] ==> c.pri == p)
      && (forall c :: c in all ==> c.pri < |activeQueues| && (c.active <==> c in activeQueues[c.pri]))
    }

    /** EVLIST_ACTIVE_LATER says which callbacks are in the later queue. */
    ghost predicate LaterOk()
      reads `laterQueue, `all, all`later
    {
      Queued(laterQueue) && forall c :: c in all ==> (c.later <==> c in laterQueue)
    }

    /** EVLIST_INSERTED says which events evmap holds. */
    ghost predicate InsertedOk()
      reads `insertedQueue, `all, all`inserted
    {
      Queued(insertedQueue) && forall c :: c in all ==> (c.inserted <==> c in insertedQueue)
    }

    /** EVLIST_TIMEOUT says which events are in the heap ... */
    ghost predicate HeapOk()
      reads `heap, `all, all`timed, all`due
    {
      Queued(heap) && forall c :: c in all ==> (c in heap <==> c.timed && c.due.common.None?)
    }

    /** ... or in a common timeout list. The lists are in order. */
    ghost predicate ListsOk()
      reads `lists, `all, all`timed, all`due
    {
      && (forall i :: 0 <= i < |lists| ==> ListOk(i))
      && (forall c :: c in all && c.timed && c.due.common.Some? ==> c.due.common.value < |lists|)
    }

    ghost predicate ListOk(i: nat)
      requires i < |lists|
      reads `lists, `all, all`timed, all`due
    {
      && Queued(lists[i]) && Sorted(lists[i])
      && forall c :: c in all ==> (c in lists[i] <==> c.timed && c.due.common == Some(i))
    }

    /** A callback is not active and later at once; one that is being finalized waits for nothing. */
    ghost predicate FlagsOk()
      reads `all, all`active, all`later, all`timed, all`inserted, all`finalizing
    {
      forall c :: c in all ==> !(c.active && c.later) && (c.finalizing || !c.isEvent ==> !c.timed && !c.inserted)
    }

    ghost predicate IntervalsOk()
      reads `lists, `all, all`interval
    {
      forall c :: c in all && c.interval.Some? && c.interval.value.common.Some? ==>
        c.interval.value.common.value < |lists|
    }

    /** The internal events of the common timeout lists. */
    ghost predicate TimersWf()
      reads `timers, `lists, `durations, `all, all`timed, all`due, all`inserted, all`finalizing, all`closure
    {
      && |timers| == |lists| == |durations| <= MAX_COMMON_TIMEOUTS && NoDup(timers)
      && (forall i :: 0 <= i < |timers| ==> timers[i] in all)
      && (forall i :: 0 <= i < |timers| ==> IsTimer(timers[i]))
    }

    ghost predicate IsTimer(t: Callback)
      reads t`timed, t`due, t`inserted, t`finalizing, t`closure
    {
      && t.internal && t.isEvent && !t.persist && !t.io && !t.inserted && !t.finalizing && t.closure == Plain
      && (t.timed ==> t.due.common.None?)
    }

    /** The counters count the callbacks in the queues. */
    ghost predicate CountsOk()
      reads `activeQueues, `laterQueue, `heap, `lists, `insertedQueue, `eventCount, `eventCountActive
    {
      && eventCountActive == TotalLength(activeQueues) + |laterQueue|
      && eventCount ==
           TotalCounted(activeQueues) + Counted(laterQueue) + Counted(heap) + TotalCounted(lists) +
             Counted(insertedQueue)
    }

    /** The queues hold what the flags say, and the counters count them. */
    ghost predicate Core()
      reads this, all
    {
      && ActiveOk()
      && LaterOk()
      && InsertedOk()
      && HeapOk()
      && ListsOk()
      && FlagsOk()
      && IntervalsOk()
      && TimersWf()
      && CountsOk()
    }

    /** All callbacks in the queues belong to the base. */
    lemma Everyone()
      requires Core()
      ensures forall c :: c in heap ==> c in all && c.timed && c.due.common.None?
      ensures forall c, i :: 0 <= i < |lists| && c in lists[i] ==> c in all && c.timed && c.due.common == Some(i)
      ensures forall i :: 0 <= i < |lists| ==> NoDup(lists[i]) && Sorted(lists[i])
      ensures forall c :: c in laterQueue ==> c in all && c.later
      ensures forall c, p :: 0 <= p < |activeQueues| && c in activeQueues[p] ==> c in all && c.active && c.pri == p
      ensures forall c :: c in all ==> (c.later <==> c in laterQueue)
      ensures forall c :: c in all ==> (c in heap <==> c.timed && c.due.common.None?)
    {
      hide NoDup, Sorted;
      forall c, i | 0 <= i < |lists| && c in lists[i]
        ensures c in all && c.timed && c.due.common == Some(i)
      {
        assert ListOk(i);
      }
      forall i | 0 <= i < |lists| ensures NoDup(lists[i]) && Sorted(lists[i]) { assert ListOk(i); }
    }

    lemma Known(c: Callback)
      requires Core() && c in all
      ensures c.pri < |activeQueues| && (c.active <==> c in activeQueues[c.pri])
      ensures (c.later <==> c in laterQueue) && (c.inserted <==> c in insertedQueue)
      ensures (c in heap <==> c.timed && c.due.common.None?)
      ensures c.timed && c.due.common.Some? ==> c.due.common.value < |lists|
      ensures forall i :: 0 <= i < |lists| ==> (c in lists[i] <==> c.timed && c.due.common == Some(i))
      ensures !(c.active && c.later) && (c.finalizing || !c.isEvent ==> !c.timed && !c.inserted)
      ensures c.interval.Some? && c.interval.value.common.Some? ==> c.interval.value.common.value < |lists|
      ensures c in timers ==> IsTimer(c)
      ensures |timers| == |lists|
    {
      forall i | 0 <= i < |lists| ensures c in lists[i] <==> c.timed && c.due.common == Some(i) { assert ListOk(i); }
    }

    /** The counters count the flags: a callback counts once for each kind of queue it is in, unless it is internal. */
    lemma CountersAreFlags()
      requires Core()
      ensures eventCountActive == |set c | c in all && c.active| + |set c | c in all && c.later|
      ensures eventCount ==
        |set c | c in all && c.active && !c.internal| + |set c | c in all && c.later && !c.internal| +
          |set c | c in all && c.timed && !c.internal| + |set c | c in all && c.inserted && !c.internal|
    {
      hide NoDup, Sorted, TotalLength, TotalCounted, Counted, InSome, ActiveOk, LaterOk, InsertedOk, HeapOk, ListsOk,
        TimersWf, FlagsOk, IntervalsOk;
      CountedActive();
      CountedLater();
      CountedInserted();
      CountedTimed();
    }

    lemma CountedActive()
      requires ActiveOk()
      ensures |set c | c in all && c.active| == TotalLength(activeQueues)
      ensures |set c | c in all && c.active && !c.internal| == TotalCounted(activeQueues)
    {
      hide NoDup, TotalLength, TotalCounted, InSome;
      TotalSet(activeQueues);
      InSomeIs(activeQueues);
      forall c | c in all && c.active ensures c in InSome(activeQueues) {
        assert c in activeQueues[c.pri];
      }
      forall c | c in InSome(activeQueues) ensures c in all && c.active {
        var p := QueueOf(activeQueues, c);
        assert Queued(activeQueues[p]) && c.pri == p;
      }
      assert InSome(activeQueues) == set c | c in all && c.active;
      assert External(InSome(activeQueues)) == set c | c in all && c.active && !c.internal;
    }

    lemma CountedLater()
      requires LaterOk()
      ensures |set c | c in all && c.later| == |laterQueue|
      ensures |set c | c in all && c.later && !c.internal| == Counted(laterQueue)
    {
      hide NoDup, Counted;
      CountedSet(laterQueue);
      var s := Elements(laterQueue);
      assert s == set c | c in all && c.later;
      assert External(s) == set c | c in all && c.later && !c.internal;
    }

    lemma CountedInserted()
      requires InsertedOk()
      ensures |set c | c in all && c.inserted && !c.internal| == Counted(insertedQueue)
    {
      hide NoDup, Counted;
      CountedSet(insertedQueue);
      var s := Elements(insertedQueue);
      assert External(s) == set c | c in all && c.inserted && !c.internal;
    }

    lemma CountedTimed()
      requires HeapOk() && ListsOk()
      ensures |set c | c in all && c.timed && !c.internal| == Counted(heap) + TotalCounted(lists)
    {
      hide NoDup, Sorted, Counted, TotalLength, TotalCounted, InSome;
      CountedSet(heap);
      forall i | 0 <= i < |lists|
        ensures NoDup(lists[i]) && forall c :: c in lists[i] <==> c in all && c.timed && c.due.common == Some(i)
      {
        assert ListOk(i);
      }
      TotalSet(lists);
      InSomeIs(lists);
      var s, t := External(Elements(heap)), External(InSome(lists));
      forall c | c in all && c.timed && c.due.common.Some? ensures c in InSome(lists) {
        assert c in lists[c.due.common.value];
      }
      assert s + t == set c | c in all && c.timed && !c.internal;
    }

    /** A common timeout that somebody waits for is not forgotten. */
    ghost predicate TimerOk(i: int)
      requires 0 <= i < |lists| && i < |timers|
      reads `lists, `timers, `heap, `current, `all, all`due, all`active
    {
      lists[i] != [] ==>
        && timers[i] in all && lists[i][0] in all
        && ((timers[i] in heap && timers[i].due.time <= lists[i][0].due.time)
            || timers[i].active
            || current == timers[i])
    }

    /** No common timeout is forgotten, except perhaps that of list `k`. */
    ghost predicate TimersOk(k: int)
      requires |timers| == |lists|
      reads `lists, `timers, `heap, `current, `all, all`due, all`active
    {
      forall i :: 0 <= i < |lists| && i != k ==> TimerOk(i)
    }

    ghost predicate Valid()
      reads this, all
    {
      Core() && TimersOk(-1)
    }

    /** event_queue_insert_active. */
    method InsertActive(c: Callback)
      requires Core() && c in all && !c.later
      modifies this`activeQueues, this`eventCount, this`eventCountActive, c`active
      ensures Core() && c.active
      ensures activeQueues == if old(c.active) then old(activeQueues) else Pushed(old(activeQueues), c)
      ensures forall i :: 0 <= i < |lists| && old(TimerOk(i)) ==> TimerOk(i)
    {
      hide NoDup, Counted, TotalLength, TotalCounted, Without, Sorted, LaterOk, InsertedOk, HeapOk, ListsOk,
        IntervalsOk, TimersWf;
      if c.active {
        return;
      }
      Appended(activeQueues[c.pri], c);
      TotalsUpdate(activeQueues, c.pri, activeQueues[c.pri] + [c]);
      eventCount := eventCount + if c.internal then 0 else 1;
      c.active := true;
      eventCountActive := eventCountActive + 1;
      activeQueues := activeQueues[c.pri := activeQueues[c.pri] + [c]];
    }

    /** event_queue_remove_active. */
    method RemoveActive(c: Callback)
      requires Core() && c in all && c.active
      modifies this`activeQueues, this`eventCount, this`eventCountActive, c`active
      ensures Core() && !c.active
      ensures
        && c.pri < |old(activeQueues)|
        && activeQueues == old(activeQueues)[c.pri := Without(old(activeQueues)[c.pri], c)]
      ensures forall i :: 0 <= i < |lists| && timers[i] != c && old(TimerOk(i)) ==> TimerOk(i)
    {
      hide NoDup, Counted, TotalLength, TotalCounted, Without, Sorted, LaterOk, InsertedOk, HeapOk, ListsOk,
        IntervalsOk;
      TakenOut(activeQueues[c.pri], c);
      TotalsUpdate(activeQueues, c.pri, Without(activeQueues[c.pri], c));
      eventCount := eventCount - if c.internal then 0 else 1;
      c.active := false;
      eventCountActive := eventCountActive - 1;
      activeQueues := activeQueues[c.pri := Without(activeQueues[c.pri], c)];
    }

    /** event_queue_insert_active_later. */
    method InsertLater(c: Callback)
      requires Core() && c in all
      modifies this`laterQueue, this`eventCount, this`eventCountActive, c`later
      ensures Core() && (c.later || c.active)
      ensures laterQueue == if old(c.later) || c.active then old(laterQueue) else old(laterQueue) + [c]
      ensures forall i :: 0 <= i < |lists| && old(TimerOk(i)) ==> TimerOk(i)
    {
      hide NoDup, Counted, TotalLength, TotalCounted, Without, Sorted, TimerOk, ActiveOk, InsertedOk, HeapOk, ListsOk,
        IntervalsOk, TimersWf;
      if c.later || c.active {
        return;
      }
      Appended(laterQueue, c);
      eventCount := eventCount + if c.internal then 0 else 1;
      c.later := true;
      eventCountActive := eventCountActive + 1;
      laterQueue := laterQueue + [c];
    }

    /** event_queue_remove_active_later. */
    method RemoveLater(c: Callback)
      requires Core() && c in all && c.later
      modifies this`laterQueue, this`eventCount, this`eventCountActive, c`later
      ensures Core() && !c.later && laterQueue == Without(old(laterQueue), c)
      ensures forall i :: 0 <= i < |lists| && old(TimerOk(i)) ==> TimerOk(i)
    {
      hide NoDup, Counted, TotalLength, TotalCounted, Without, Sorted, TimerOk, ActiveOk, InsertedOk, HeapOk, ListsOk,
        IntervalsOk, TimersWf;
      TakenOut(laterQueue, c);
      eventCount := eventCount - if c.internal then 0 else 1;
      c.later := false;
      eventCountActive := eventCountActive - 1;
      laterQueue := Without(laterQueue, c);
    }

    /** event_queue_insert_inserted. */
    method InsertInserted(c: Callback)
      requires Core() && c in all && !c.inserted && !c.finalizing && c.isEvent && c !in timers
      modifies this`eventCount, this`insertedQueue, c`inserted
      ensures Core() && c.inserted
      ensures forall i :: 0 <= i < |lists| && old(TimerOk(i)) ==> TimerOk(i)
    {
      hide NoDup, Counted, TotalLength, TotalCounted, Without, Sorted, TimerOk, ActiveOk, LaterOk, HeapOk, ListsOk,
        IntervalsOk;
      Appended(insertedQueue, c);
      eventCount := eventCount + if c.internal then 0 else 1;
      c.inserted := true;
      insertedQueue := insertedQueue + [c];
    }

    /** event_queue_remove_inserted. */
    method RemoveInserted(c: Callback)
      requires Core() && c in all && c.inserted
      modifies this`eventCount, this`insertedQueue, c`inserted
      ensures Core() && !c.inserted
      ensures forall i :: 0 <= i < |lists| && old(TimerOk(i)) ==> TimerOk(i)
    {
      hide NoDup, Counted, TotalLength, TotalCounted, Without, Sorted, TimerOk, ActiveOk, LaterOk, HeapOk, ListsOk,
        IntervalsOk;
      TakenOut(insertedQueue, c);
      eventCount := eventCount - if c.internal then 0 else 1;
      c.inserted := false;
      insertedQueue := Without(insertedQueue, c);
    }

    /** event_queue_remove_timeout for an event in the heap. */
    method RemoveFromHeap(c: Callback)
      requires Core() && c in all && c.timed && c.due.common.None?
      modifies this`eventCount, this`heap, c`timed
      ensures Core() && !c.timed && heap == Without(old(heap), c) && |heap| == old(|heap|) - 1
      ensures forall i :: 0 <= i < |lists| && timers[i] != c && old(TimerOk(i)) ==> TimerOk(i)
    {
      hide NoDup, Counted, TotalLength, TotalCounted, Without, Sorted, ActiveOk, LaterOk, InsertedOk, IntervalsOk;
      TakenOut(heap, c);
      eventCount := eventCount - if c.internal then 0 else 1;
      c.timed := false;
      heap := Without(heap, c);
      forall i | 0 <= i < |lists| ensures ListOk(i) {
        assert old(ListOk(i));
      }
    }

    /** event_queue_remove_timeout for an event with a common timeout. */
    method RemoveFromList(c: Callback, k: nat)
      requires Core() && c in all && c.timed && c.due.common == Some(k)
      modifies this`eventCount, this`lists, c`timed
      ensures
        && Core()
        && !c.timed
        && k < |old(lists)|
        && lists == old(lists)[k := Without(old(lists[k]), c)]
        && |lists[k]| == |old(lists[k])| - 1
      ensures forall i :: 0 <= i < |lists| && old(TimerOk(i)) ==> TimerOk(i)
    {
      hide NoDup, Counted, TotalLength, TotalCounted, Without, Sorted, ActiveOk, LaterOk, InsertedOk;
      assert ListOk(k);
      TakenOut(lists[k], c);
      SortedWithout(lists[k], c);
      HeadLater(lists[k], c);
      TotalsUpdate(lists, k, Without(lists[k], c));
      eventCount := eventCount - if c.internal then 0 else 1;
      c.timed := false;
      lists := lists[k := Without(lists[k], c)];
      forall i | 0 <= i < |lists| ensures ListOk(i) {
        assert old(ListOk(i));
      }
    }

    /** event_queue_insert_timeout for the heap. */
    method InsertIntoHeap(c: Callback)
      requires Core() && c in all && !c.timed && !c.finalizing && c.isEvent && c.due.common.None?
      modifies this`eventCount, this`heap, c`timed
      ensures Core() && c.timed && heap == old(heap) + [c]
      ensures forall i :: 0 <= i < |lists| && old(TimerOk(i)) ==> TimerOk(i)
    {
      hide NoDup, Counted, TotalLength, TotalCounted, Without, Sorted, ActiveOk, LaterOk, InsertedOk, IntervalsOk;
      Appended(heap, c);
      eventCount := eventCount + if c.internal then 0 else 1;
      c.timed := true;
      heap := heap + [c];
      forall i | 0 <= i < |lists| ensures ListOk(i) {
        assert old(ListOk(i));
      }
    }

    /** event_queue_insert_timeout for a common timeout. */
    method InsertIntoList(c: Callback, k: nat)
      requires
        && Core()
        && c in all
        && c !in timers
        && !c.timed
        && !c.finalizing
        && c.isEvent
        && c.due.common == Some(k)
        && k < |lists|
      modifies this`eventCount, this`lists, c`timed
      ensures Core() && c.timed && |lists| == old(|lists|) && lists[k] != []
      ensures forall i :: 0 <= i < |lists| && i != k ==> lists[i] == old(lists[i])
      ensures forall i :: 0 <= i < |lists| && i != k && old(TimerOk(i)) ==> TimerOk(i)
      ensures lists[k][0] != c && old(TimerOk(k)) ==> TimerOk(k)
    {
      hide NoDup, Counted, TotalLength, TotalCounted, Without, Sorted, ActiveOk, LaterOk, InsertedOk, HeapOk, FlagsOk,
        CountsOk;
      ghost var at;
      var q;
      assert ListOk(k);
      q, at := InsertInOrder(lists[k], c);
      InsertedAt(lists[k], at, c);
      TotalsUpdate(lists, k, q);
      SetList(c, k, q);
    }

    method SetList(c: Callback, k: nat, q: Queue)
      requires
        && Core()
        && c in all
        && c !in timers
        && !c.timed
        && !c.finalizing
        && c.isEvent
        && c.due.common == Some(k)
        && k < |lists|
      requires Queued(q) && Sorted(q) && (forall x :: x in q <==> x == c || x in lists[k])
      requires TotalCounted(lists[k := q]) == TotalCounted(lists) + Weight(c)
      modifies this`eventCount, this`lists, c`timed
      ensures Core() && c.timed && lists == old(lists)[k := q]
    {
      hide NoDup, Counted, TotalLength, TotalCounted, Without, Sorted, ActiveOk, LaterOk, InsertedOk;
      eventCount := eventCount + if c.internal then 0 else 1;
      c.timed := true;
      lists := lists[k := q];
      forall i | 0 <= i < |lists| ensures ListOk(i) {
        assert old(ListOk(i));
      }
    }

    /** event_del_nolock_, apart from telling evmap. */
    method EventDel(c: Callback, evenIfFinalizing: bool)
      requires Core() && c in all
      modifies this`activeQueues, this`laterQueue, this`heap, this`lists, this`insertedQueue, this`eventCount
      modifies this`eventCountActive
      modifies c`timed, c`active, c`later, c`inserted
      ensures Core()
      ensures if c.finalizing && !evenIfFinalizing
              then unchanged(this) && unchanged(c)
              else !c.timed && !c.active && !c.later && !c.inserted
      ensures |lists| == old(|lists|)
      ensures forall i :: 0 <= i < |lists| && timers[i] != c && old(TimerOk(i)) ==> TimerOk(i)
      ensures |heap| == old(|heap|) - if old(c in heap) then 1 else 0
      ensures forall i :: 0 <= i < |lists| ==> |lists[i]| == |old(lists[i])| - if old(c in lists[i]) then 1 else 0
      ensures forall i :: 0 <= i < |lists| ==>
        lists[i] == if old(c in lists[i]) then Without(old(lists[i]), c) else old(lists[i])
    {
      hide NoDup, Counted, TotalLength, TotalCounted, Without, Sorted, TimerOk, ActiveOk, LaterOk, InsertedOk, HeapOk,
        ListsOk, IntervalsOk;
      Known(c);
      if !evenIfFinalizing && c.finalizing {
        return;
      }
      if c.timed {
        RemoveTimeout(c);
      }
      if c.active {
        RemoveActive(c);
      } else if c.later {
        RemoveLater(c);
      }
      if c.inserted {
        RemoveInserted(c);
      }
    }

    /** event_queue_remove_timeout. */
    method RemoveTimeout(c: Callback)
      requires Core() && c in all && c.timed
      modifies this`eventCount, this`heap, this`lists, c`timed
      ensures Core() && !c.timed && |lists| == old(|lists|)
      ensures forall i :: 0 <= i < |lists| && timers[i] != c && old(TimerOk(i)) ==> TimerOk(i)
      ensures |heap| == old(|heap|) - if old(c in heap) then 1 else 0
      ensures forall i :: 0 <= i < |lists| ==> |lists[i]| == |old(lists[i])| - if old(c in lists[i]) then 1 else 0
      ensures forall i :: 0 <= i < |lists| ==>
        lists[i] == if old(c in lists[i]) then Without(old(lists[i]), c) else old(lists[i])
    {
      hide NoDup, Counted, TotalLength, TotalCounted, Without, Sorted, TimerOk, ActiveOk, LaterOk, InsertedOk, HeapOk,
        ListsOk, IntervalsOk;
      Known(c);
      if c.due.common.Some? {
        RemoveFromList(c, c.due.common.value);
      } else {
        RemoveFromHeap(c);
      }
    }

    /** event_callback_activate_nolock_. */
    method CallbackActivate(c: Callback) returns (r: int)
      requires Core() && c in all
      modifies this`activeQueues, this`laterQueue, this`eventCount, this`eventCountActive, c`active, c`later
      ensures Core()
      ensures if c.finalizing then unchanged(this) && unchanged(c) && r == 0
        else c.active && !c.later && (r == 1 <==> !old(c.active) && !old(c.later))
      ensures r == 0 || r == 1
      ensures !c.finalizing ==>
        && activeQueues == (if old(c.active) then old(activeQueues) else Pushed(old(activeQueues), c))
        && laterQueue == (if old(c.later) then Without(old(laterQueue), c) else old(laterQueue))
      ensures forall i :: 0 <= i < |lists| && old(TimerOk(i)) ==> TimerOk(i)
    {
      hide NoDup, Counted, TotalLength, TotalCounted, Without, Sorted, ActiveOk, LaterOk, InsertedOk, HeapOk, ListsOk,
        IntervalsOk;
      Known(c);
      r := 1;
      if c.finalizing {
        return 0;
      }
      if c.later {
        RemoveLater(c);
        r := 0;
      } else if c.active {
        return 0;
      }
      InsertActive(c);
    }

    /** event_active_nolock_ for an event that is not a signal. */
    method EventActive(c: Callback, byTimeout: bool)
      requires Core() && c in all
      modifies this`activeQueues, this`laterQueue, this`eventCount, this`eventCountActive, c`active, c`later
      modifies c`byTimeout
      ensures Core()
      ensures if c.finalizing then unchanged(this) && unchanged(c) else c.active && !c.later
      ensures !c.finalizing ==>
        activeQueues == if old(c.active) then old(activeQueues) else Pushed(old(activeQueues), c)
      ensures !c.finalizing ==> c.byTimeout == (byTimeout || (old(c.byTimeout) && (old(c.active) || old(c.later))))
      ensures forall i :: 0 <= i < |lists| && old(TimerOk(i)) ==> TimerOk(i)
    {
      hide NoDup, Counted, TotalLength, TotalCounted, Without, Sorted, ActiveOk, LaterOk, InsertedOk, HeapOk, ListsOk,
        IntervalsOk;
      if c.finalizing {
        return;
      }
      if c.active {
        c.byTimeout := c.byTimeout || byTimeout;
        return;
      } else if c.later {
        c.byTimeout := c.byTimeout || byTimeout;
      } else {
        c.byTimeout := byTimeout;
      }
      var _ := CallbackActivate(c);
    }

    /** event_callback_activate_later_nolock_. */
    method CallbackActivateLater(c: Callback) returns (r: int)
      requires Core() && c in all
      modifies this`laterQueue, this`eventCount, this`eventCountActive, c`later
      ensures laterQueue == if old(c.later) || c.active then old(laterQueue) else old(laterQueue) + [c]
      ensures Core() && (c.later || c.active) && (r == 1 <==> !old(c.active) && !old(c.later)) && (r == 0 || r == 1)
      ensures forall i :: 0 <= i < |lists| && old(TimerOk(i)) ==> TimerOk(i)
    {
      hide NoDup, Counted, TotalLength, TotalCounted, Without, Sorted, ActiveOk, LaterOk, InsertedOk, HeapOk, ListsOk,
        IntervalsOk;
      if c.active || c.later {
        return 0;
      }
      InsertLater(c);
      return 1;
    }

    /** event_callback_cancel_nolock_. */
    method CallbackCancel(c: Callback, evenIfFinalizing: bool)
      requires Core() && c in all
      modifies this`activeQueues, this`laterQueue, this`heap, this`lists, this`insertedQueue, this`eventCount
      modifies this`eventCountActive
      modifies c`timed, c`active, c`later, c`inserted
      ensures Core() && |lists| == old(|lists|)
      ensures if c.finalizing && !evenIfFinalizing
              then unchanged(this) && unchanged(c)
              else !c.timed && !c.active && !c.later && !c.inserted
      ensures forall i :: 0 <= i < |lists| && timers[i] != c && old(TimerOk(i)) ==> TimerOk(i)
    {
      hide NoDup, Counted, TotalLength, TotalCounted, Without, Sorted, TimerOk, ActiveOk, LaterOk, InsertedOk, HeapOk,
        ListsOk, IntervalsOk;
      Known(c);
      if c.finalizing && !evenIfFinalizing {
        return;
      }
      if c.isEvent {
        EventDel(c, evenIfFinalizing);
        return;
      }
      if c.active {
        RemoveActive(c);
      } else if c.later {
        RemoveLater(c);
      }
    }

    /** common_timeout_schedule: the internal event of list `k` is due with the first event of the list. */
    method Schedule(k: nat, now: nat)
      requires Core() && k < |lists| && lists[k] != [] && TimersOk(k)
      modifies this`activeQueues, this`heap, this`lists, this`eventCount, this`eventCountActive
      modifies {timers[k]}`timed, {timers[k]}`active, {timers[k]}`due
      ensures Valid() && lists == old(lists) && timers[k] in heap && timers[k].due.time == lists[k][0].due.time
      decreases 0, 1
    {
      hide NoDup, Counted, TotalLength, TotalCounted, Without, Sorted, ActiveOk, LaterOk, InsertedOk, HeapOk, ListsOk,
        IntervalsOk;
      var t := timers[k];
      Known(t);
      AddTimeout(t, Timeout(lists[k][0].due.time, None), true, now, k);
    }

    /** The event leaves the timeouts, and the active queue if a timeout brought it there; then its time is set. */
    method ResetTimeout(c: Callback, due: Timeout)
      requires Core() && c in all && (c in timers ==> due.common.None?)
      modifies this`activeQueues, this`heap, this`lists, this`eventCount, this`eventCountActive, c`timed, c`active
      modifies c`due
      ensures Core() && !c.timed && c.due == due && |lists| == old(|lists|)
      ensures c.active == (old(c.active) && !c.byTimeout)
      ensures c in timers ==> lists == old(lists)
      ensures forall i :: 0 <= i < |lists| && timers[i] != c && old(TimerOk(i)) ==> TimerOk(i)
    {
      hide NoDup, Counted, TotalLength, TotalCounted, Without, Sorted, TimerOk, ActiveOk, LaterOk, InsertedOk, HeapOk,
        ListsOk, IntervalsOk;
      Known(c);
      if c.timed {
        RemoveTimeout(c);
      }
      if c.active && c.byTimeout {
        RemoveActive(c);
      }
      SetDue(c, due);
    }

    method SetDue(c: Callback, due: Timeout)
      requires Core() && c in all && !c.timed && (c in timers ==> due.common.None?)
      modifies c`due
      ensures Core() && c.due == due
      ensures forall i :: 0 <= i < |lists| && timers[i] != c && old(TimerOk(i)) ==> TimerOk(i)
    {
      hide NoDup, Counted, TotalLength, TotalCounted, Without, ActiveOk, LaterOk, InsertedOk, FlagsOk, IntervalsOk;
      Known(c);
      c.due := due;
      forall i | 0 <= i < |lists| ensures ListOk(i) {
        assert old(ListOk(i));
      }
    }

    /** The part of event_add_nolock_ that sets a timeout. `k` is the list of an internal event. */
    method AddTimeout(c: Callback, tv: Timeout, absolute: bool, now: nat, ghost k: int)
      requires Core() && c in all && !c.finalizing && c.isEvent && TimersOk(k)
      requires if c in timers then 0 <= k < |timers| && c == timers[k] && lists[k] != []
                 && tv == Timeout(lists[k][0].due.time, None) && absolute else k == -1
      requires tv.common.Some? ==> tv.common.value < |lists|
      modifies this`activeQueues, this`heap, this`lists, this`eventCount, this`eventCountActive
      modifies c`timed, c`active, c`due
      modifies (if tv.common.Some? then {timers[tv.common.value]} else {})`timed
      modifies (if tv.common.Some? then {timers[tv.common.value]} else {})`active
      modifies (if tv.common.Some? then {timers[tv.common.value]} else {})`due
      ensures Valid() && c.timed && c.due == Timeout(if absolute then tv.time else now + tv.time, tv.common)
      ensures c.active == (old(c.active) && !c.byTimeout)
      ensures c in timers ==> lists == old(lists) && c in heap
      decreases if tv.common.Some? then 1 else 0, 0
    {
      hide Counted, TotalLength, TotalCounted, Without, Sorted, TimerOk, ActiveOk, LaterOk, InsertedOk, HeapOk, ListsOk,
        IntervalsOk;
      ResetTimeout(c, Timeout(if absolute then tv.time else now + tv.time, tv.common));
      if tv.common.Some? {
        AddToList(c, tv.common.value, now);
      } else {
        AddToHeap(c, k);
      }
    }

    /** The event joins the heap. The internal event of a list is then due with the first event of its list. */
    method AddToHeap(c: Callback, ghost k: int)
      requires Core() && c in all && !c.finalizing && c.isEvent && !c.timed && c.due.common.None? && TimersOk(k)
      requires k == -1 || (0 <= k < |timers| && c == timers[k] && lists[k] != [] && c.due.time == lists[k][0].due.time)
      modifies this`heap, this`eventCount, c`timed
      ensures Valid() && c.timed && c in heap
    {
      hide NoDup, Counted, TotalLength, TotalCounted, Without, Sorted, ActiveOk, LaterOk, InsertedOk, HeapOk, ListsOk,
        IntervalsOk;
      InsertIntoHeap(c);
      if k >= 0 {
        Everyone();
        assert lists[k][0] in lists[k] && TimerOk(k);
      }
    }

    /** The event joins a common timeout; if it is the first one there, the internal event is scheduled. */
    method AddToList(c: Callback, n: nat, now: nat)
      requires
        && Core()
        && c in all
        && c !in timers
        && !c.finalizing
        && c.isEvent
        && !c.timed
        && c.due.common == Some(n)
        && n < |lists|
        && TimersOk(-1)
      modifies this`activeQueues, this`heap, this`lists, this`eventCount, this`eventCountActive
      modifies c`timed, {timers[n]}`timed, {timers[n]}`active, {timers[n]}`due
      ensures Valid() && c.timed
      decreases 0, 2
    {
      hide NoDup, Counted, TotalLength, TotalCounted, Without, Sorted, TimerOk, ActiveOk, LaterOk, InsertedOk, HeapOk,
        ListsOk, IntervalsOk;
      InsertIntoList(c, n);
      if c == lists[n][0] {
        Schedule(n, now);
      }
    }

    /** The part of event_add_nolock_ that tells evmap. */
    method AddIo(c: Callback, ioOk: bool) returns (ok: bool)
      requires Valid() && c in all && c !in timers && !c.finalizing && c.isEvent
      modifies this`insertedQueue, this`eventCount, c`inserted
      ensures Valid()
      ensures var wanted := c.io && !old(c.inserted) && !c.active && !c.later;
        && (ok <==> !wanted || ioOk)
        && c.inserted == (old(c.inserted) || (wanted && ioOk))
        && (!ok ==> unchanged(this) && unchanged(c))
    {
      hide Counted, TotalLength, TotalCounted, Without, Sorted, TimerOk, NoDup, ActiveOk, LaterOk, InsertedOk, HeapOk,
        ListsOk, IntervalsOk;
      if c.io && !(c.inserted || c.active || c.later) {
        if !ioOk {
          return false;
        }
        InsertInserted(c);
      }
      return true;
    }

    /** event_add_nolock_; `ioOk` is the answer of evmap. It does nothing when it fails. */
    method EventAdd(c: Callback, tv: Option<Timeout>, absolute: bool, now: nat, ioOk: bool) returns (r: int)
      requires Valid() && c in all && c !in timers && c.isEvent
      requires tv.Some? && tv.value.common.Some? ==> tv.value.common.value < |lists|
      modifies this`activeQueues, this`heap, this`lists, this`insertedQueue, this`eventCount, this`eventCountActive
      modifies c`timed, c`active, c`inserted, c`due, c`interval
      modifies (if tv.Some? && tv.value.common.Some? then {timers[tv.value.common.value]} else {})`timed
      modifies (if tv.Some? && tv.value.common.Some? then {timers[tv.value.common.value]} else {})`active
      modifies (if tv.Some? && tv.value.common.Some? then {timers[tv.value.common.value]} else {})`due
      ensures Valid() && (r == 0 || r == -1)
      ensures r == -1 <==> c.finalizing || (c.io && !old(c.inserted) && !old(c.active) && !old(c.later) && !ioOk)
      ensures r == -1 ==> unchanged(this) && unchanged(c) && unchanged(timers)
      ensures r == 0 ==>
        && c.inserted == (old(c.inserted) || (c.io && !old(c.active) && !old(c.later)))
        && (tv.Some? ==>
            && c.timed
            && c.due == Timeout(if absolute then tv.value.time else now + tv.value.time, tv.value.common))
        && (tv.Some? ==> c.active == (old(c.active) && !c.byTimeout))
        && (tv.None? ==> c.timed == old(c.timed) && c.active == old(c.active))
        && c.interval == (if tv.Some? && c.closure == Persist && !absolute then tv else old(c.interval))
    {
      hide Counted, TotalLength, TotalCounted, Without, Sorted, TimerOk, NoDup, ActiveOk, LaterOk, InsertedOk, HeapOk,
        ListsOk;
      if c.finalizing {
        return -1;
      }
      var ok := AddIo(c, ioOk);
      if !ok {
        return -1;
      }
      if tv.Some? {
        if c.closure == Persist && !absolute {
          c.interval := tv;
        }
        AddTimeout(c, tv.value, absolute, now, -1);
      }
      return 0;
    }

    /** min_heap_top_. */
    method HeapTop() returns (c: Callback)
      requires heap != []
      ensures c in heap && forall x :: x in heap ==> c.due.time <= x.due.time
    {
      c := heap[0];
      var i := 1;
      while i < |heap|
        invariant 1 <= i <= |heap| && c in heap[..i]
        invariant forall x :: x in heap[..i] ==> c.due.time <= x.due.time
      {
        if heap[i].due.time < c.due.time {
          c := heap[i];
        }
        i := i + 1;
      }
    }

    /** An event whose time has come leaves the timeouts and becomes active. */
    method Expire(c: Callback)
      requires Core() && c in all && c.timed
      modifies this`activeQueues, this`laterQueue, this`heap, this`lists, this`insertedQueue, this`eventCount
      modifies this`eventCountActive
      modifies c`timed, c`active, c`later, c`inserted, c`byTimeout
      ensures Core() && !c.timed && c.active && !c.later && c.byTimeout && |lists| == old(|lists|)
      ensures forall i :: 0 <= i < |lists| && old(TimerOk(i)) ==> TimerOk(i)
      ensures |heap| == old(|heap|) - if old(c in heap) then 1 else 0
      ensures forall i :: 0 <= i < |lists| ==>
        lists[i] == if old(c in lists[i]) then Without(old(lists[i]), c) else old(lists[i])
    {
      hide Counted, TotalLength, TotalCounted, Without, Sorted, TimerOk, NoDup, ActiveOk, LaterOk, InsertedOk, HeapOk,
        ListsOk, IntervalsOk;
      Known(c);
      EventDel(c, false);
      EventActive(c, true);
      forall i | 0 <= i < |lists| && timers[i] == c && old(TimerOk(i)) ensures TimerOk(i) {
        TimerActive(i);
      }
    }

    lemma TimerActive(k: nat)
      requires Core() && k < |lists| && timers[k].active
      ensures TimerOk(k)
    {
      if lists[k] != [] { assert ListOk(k) && lists[k][0] in lists[k]; }
    }

    /** timeout_process. It returns because no event in the heap is being finalized. */
    method TimeoutProcess(now: nat)
      requires Valid()
      modifies this`activeQueues, this`laterQueue, this`heap, this`lists, this`insertedQueue, this`eventCount
      modifies this`eventCountActive
      modifies all`timed, all`active, all`later, all`inserted, all`byTimeout
      ensures Valid()
      ensures forall c :: c in heap ==> c.due.time > now
      ensures forall c :: c in all && old(c.timed) && old(c.due.common.None?) && c.due.time <= now ==>
        c.active && c.byTimeout && !c.timed
      ensures forall c :: c in all && !(old(c.timed) && old(c.due.common.None?) && c.due.time <= now) ==>
        c.timed == old(c.timed) && c.active == old(c.active) && c.later == old(c.later) && c.inserted == old(c.inserted)
    {
      hide Core, TimerOk;
      while heap != []
        invariant Valid() && |lists| == old(|lists|)
        invariant forall c :: c in all && c.timed && c.due.common.None? ==> old(c.timed)
        invariant forall c :: c in all && old(c.timed) && c.due.common.None? && !c.timed ==>
          c.due.time <= now && c.active && c.byTimeout
        invariant forall c :: c in all && !(old(c.timed) && c.due.common.None? && c.due.time <= now) ==>
          && c.timed == old(c.timed)
          && c.active == old(c.active)
          && c.later == old(c.later)
          && c.inserted == old(c.inserted)
        decreases |heap|
      {
        Everyone();
        var ev := HeapTop();
        Known(ev);
        if ev.due.time > now {
          break;
        }
        Expire(ev);
      }
      forall c | c in all && old(c.timed) && old(c.due.common.None?) && c.due.time <= now ensures !c.timed {
        Known(c);
      }
    }

    /** common_timeout_callback, which the internal event of list `k` runs. */
    method CommonTimeoutCallback(k: nat, now: nat)
      requires Core() && k < |lists| && TimersOk(k)
      modifies this`activeQueues, this`laterQueue, this`heap, this`lists, this`insertedQueue, this`eventCount
      modifies this`eventCountActive
      modifies all`timed, all`active, all`later, all`inserted, all`byTimeout, {timers[k]}`due
      ensures Valid() && |lists| == old(|lists|)
      ensures forall c :: c in lists[k] ==> c.due.time > now
      ensures lists[k] != [] ==> timers[k] in heap && timers[k].due.time == lists[k][0].due.time
      ensures forall c :: c in old(lists[k]) && c.due.time <= now ==> c.active && c.byTimeout && !c.timed
    {
      hide Counted, TotalLength, TotalCounted, Without, NoDup, TimerOk, ActiveOk, LaterOk, InsertedOk, HeapOk, ListsOk,
        IntervalsOk, FlagsOk, CountsOk;
      ghost var q := lists[k];
      while lists[k] != [] && lists[k][0].due.time <= now
        invariant Core() && TimersOk(k) && |lists| == old(|lists|)
        invariant forall c :: c in lists[k] ==> c in q
        invariant forall c :: c in q && c !in lists[k] ==> c.active && c.byTimeout && !c.timed
        decreases |lists[k]|
      {
        Everyone();
        ExpireHead(k);
      }
      if lists[k] != [] {
        Schedule(k, now);
      } else {
        NobodyWaits(k);
      }
      Everyone();
      AllLater(lists[k], now);
    }

    /** The first event of a list becomes active. */
    method ExpireHead(k: nat)
      requires Core() && k < |lists| && TimersOk(k) && lists[k] != [] && lists[k][0] in all
      modifies this`activeQueues, this`laterQueue, this`heap, this`lists, this`insertedQueue, this`eventCount
      modifies this`eventCountActive
      modifies {lists[k][0]}`timed, {lists[k][0]}`active, {lists[k][0]}`later, {lists[k][0]}`inserted
      modifies {lists[k][0]}`byTimeout
      ensures Core() && |lists| == old(|lists|) && TimersOk(k) && |lists[k]| < |old(lists[k])|
      ensures forall c :: c in lists[k] <==> c in old(lists[k]) && c != old(lists[k][0])
      ensures var c := old(lists[k][0]); c.active && c.byTimeout && !c.timed
    {
      hide Counted, TotalLength, TotalCounted, Without, NoDup, TimerOk, ActiveOk, LaterOk, InsertedOk, HeapOk, ListsOk,
        IntervalsOk, FlagsOk, CountsOk;
      Everyone();
      var ev := lists[k][0];
      Known(ev);
      ListedNotTimer(ev, k);
      ghost var before := lists[k];
      Expire(ev);
      TakenOut(before, ev);
      assert lists[k] == Without(before, ev);
    }

    lemma ListedNotTimer(c: Callback, k: nat)
      requires Core() && k < |lists| && c in lists[k]
      ensures c !in timers && c in all && c.timed && !c.finalizing && c !in heap
    {
      assert ListOk(k);
      Known(c);
      forall i | 0 <= i < |timers| ensures timers[i] != c {
        assert IsTimer(timers[i]);
      }
    }

    lemma NobodyWaits(k: nat)
      requires k < |lists| && k < |timers| && lists[k] == []
      ensures TimerOk(k)
    {
    }

    /** event_queue_make_later_events_active. */
    method MakeLaterActive()
      requires Valid()
      modifies this`activeQueues, this`laterQueue, all`active, all`later
      ensures Valid() && laterQueue == [] && activeQueues == PushedAll(old(activeQueues), old(laterQueue))
      ensures forall c :: c in all ==> c.active == (old(c.active) || old(c.later)) && !c.later
    {
      hide Counted, TotalLength, TotalCounted, Without, Sorted, NoDup, ActiveOk, LaterOk, InsertedOk, HeapOk, ListsOk,
        IntervalsOk;
      while laterQueue != []
        invariant Valid() && PushedAll(activeQueues, laterQueue) == PushedAll(old(activeQueues), old(laterQueue))
        invariant forall c :: c in all ==>
          (if c.later then old(c.later) && !c.active else c.active == (old(c.active) || old(c.later)))
        decreases |laterQueue|
      {
        Everyone();
        var c := laterQueue[0];
        Known(c);
        MoveLater(c);
      }
      forall c | c in all ensures !c.later { Known(c); }
    }

    /** One callback goes from the later queue to its active queue. */
    method MoveLater(c: Callback)
      requires Valid() && c in all && laterQueue != [] && c == laterQueue[0]
      modifies this`activeQueues, this`laterQueue, c`active, c`later
      ensures Valid() && laterQueue == old(laterQueue)[1..] && c.active && !c.later
      ensures activeQueues == Pushed(old(activeQueues), c)
    {
      hide Counted, TotalLength, TotalCounted, Without, Sorted, NoDup, InsertedOk, HeapOk, ListsOk, IntervalsOk,
        TimersWf;
      Known(c);
      FirstOut(laterQueue, c);
      Appended(activeQueues[c.pri], c);
      TotalsUpdate(activeQueues, c.pri, activeQueues[c.pri] + [c]);
      laterQueue := laterQueue[1..];
      c.later := false;
      c.active := true;
      activeQueues := activeQueues[c.pri := activeQueues[c.pri] + [c]];
      forall i | 0 <= i < |lists| ensures TimerOk(i) {
        assert old(TimerOk(i));
      }
    }

    /** `evcb_flags |= EVLIST_FINALIZING`. */
    method MarkFinalizing(c: Callback)
      requires Valid() && c in all && c !in timers && !c.timed && !c.inserted
      modifies c`finalizing
      ensures Valid() && c.finalizing
    {
      hide Counted, TotalLength, TotalCounted, Without, Sorted, NoDup, ActiveOk, LaterOk, InsertedOk, HeapOk, ListsOk,
        IntervalsOk;
      Known(c);
      c.finalizing := true;
    }

    /** event_finalize_nolock_. */
    method Finalize(c: Callback)
      requires Valid() && c in all && c !in timers && c.isEvent
      modifies this`activeQueues, this`laterQueue, this`heap, this`lists, this`insertedQueue, this`eventCount
      modifies this`eventCountActive
      modifies c`timed, c`active, c`later, c`inserted, c`byTimeout, c`closure, c`finalizing
      ensures Valid() && c.finalizing && c.closure == FinalizeEvent && !c.timed && !c.inserted
      ensures !old(c.finalizing) ==> c.active && !c.later
    {
      hide Counted, TotalLength, TotalCounted, Without, Sorted, NoDup, TimerOk, ActiveOk, LaterOk, InsertedOk, HeapOk,
        ListsOk, IntervalsOk;
      EventDel(c, false);
      c.closure := FinalizeEvent;
      EventActive(c, false);
      Known(c);
      MarkFinalizing(c);
    }

    /** event_callback_finalize_nolock_. */
    method CallbackFinalize(c: Callback)
      requires Valid() && c in all && c !in timers
      modifies this`activeQueues, this`laterQueue, this`heap, this`lists, this`insertedQueue, this`eventCount
      modifies this`eventCountActive
      modifies c`timed, c`active, c`later, c`inserted, c`closure, c`finalizing
      ensures Valid() && c.finalizing && c.closure == FinalizeCb && !c.timed && !c.inserted
      ensures !old(c.finalizing) ==> c.active && !c.later
    {
      hide Counted, TotalLength, TotalCounted, Without, Sorted, NoDup, TimerOk, ActiveOk, LaterOk, InsertedOk, HeapOk,
        ListsOk, IntervalsOk;
      if c.isEvent {
        EventDel(c, false);
      } else {
        CallbackCancel(c, false);
      }
      c.closure := FinalizeCb;
      var _ := CallbackActivate(c);
      Known(c);
      MarkFinalizing(c);
    }

    /** A callback that is in no queue. */
    ghost predicate Dequeued(c: Callback)
      reads c
    {
      !c.timed && !c.active && !c.later && !c.inserted && !c.finalizing
    }

    /** A callback whose finalizer is about to run. */
    ghost predicate Finalizer(c: Callback)
      reads c
    {
      c.finalizing && c.active && !c.later && !c.timed && !c.inserted && c.closure == FinalizeCb
    }

    /** event_callback_finalize_many_: one finalizer is scheduled, for the callback that is running if it is among them
        and for the first one otherwise, and the rest are dequeued. */
    method FinalizeMany(cs: seq<Callback>) returns (ghost k: nat)
      requires Valid() && cs != [] && NoDup(cs)
      requires forall c :: c in cs ==> c in all && c !in timers && !c.finalizing
      modifies this`activeQueues, this`laterQueue, this`heap, this`lists, this`insertedQueue, this`eventCount
      modifies this`eventCountActive
      modifies cs`timed, cs`active, cs`later, cs`inserted, cs`closure, cs`finalizing
      ensures Valid() && k < |cs| && Finalizer(cs[k])
      ensures if current in cs then current == cs[k] else k == 0
      ensures forall j :: 0 <= j < |cs| && j != k ==> Dequeued(cs[j])
    {
      hide Counted, TotalLength, TotalCounted, Without, Sorted, TimerOk, ActiveOk, LaterOk, InsertedOk, HeapOk, ListsOk,
        IntervalsOk;
      var nPending, i: nat := 0, 0;
      k := 0;
      while i < |cs|
        invariant Valid() && i <= |cs| && (nPending == 0 || nPending == 1) && k < |cs|
        invariant if nPending == 1 then k < i && current == cs[k] && Finalizer(cs[k]) else k == 0 && current !in cs[..i]
        invariant forall j :: 0 <= j < i && (nPending == 0 || j != k) ==> Dequeued(cs[j])
        invariant forall j :: i <= j < |cs| ==> !cs[j].finalizing
      {
        if cs[i] == current {
          CallbackFinalize(cs[i]);
          nPending, k := nPending + 1, i;
        } else {
          CallbackCancel(cs[i], false);
        }
        i := i + 1;
      }
      if nPending == 0 {
        CallbackFinalize(cs[0]);
      }
    }

    constructor (priorities: nat)
      ensures Valid() && all == {} && lists == [] && current == null && |activeQueues| == priorities
      ensures eventCount == 0 && eventCountActive == 0
    {
      activeQueues := seq(priorities, _ => []);
      laterQueue, heap, lists, timers, durations, insertedQueue := [], [], [], [], [], [];
      eventCount, eventCountActive, current, all := 0, 0, null, {};
      new;
      NoneCounted(activeQueues);
    }

    /** A callback, or an event, is set up for this base. */
    ghost method Register(c: Callback)
      requires Valid() && c !in all && c.pri < |activeQueues|
      requires !c.active && !c.later && !c.timed && !c.inserted && !c.finalizing && c.interval.None?
      modifies this`all
      ensures Valid() && all == old(all) + {c}
    {
      hide Counted, TotalLength, TotalCounted, Without, Sorted, NoDup, CountsOk, IsTimer;
      Everyone();
      all := all + {c};
      forall i | 0 <= i < |lists| ensures ListOk(i) {
        assert old(ListOk(i));
      }
      forall i | 0 <= i < |lists| ensures TimerOk(i) {
        assert old(TimerOk(i));
      }
    }

    /** event_base_init_common_timeout: the list for an interval, which is made if there is none. */
    method InitCommonTimeout(duration: nat) returns (k: Option<nat>)
      requires Valid() && |activeQueues| > 0
      modifies this`lists, this`timers, this`durations, this`all
      ensures Valid() && fresh(all - old(all)) && old(all) <= all
      ensures k.None? <==> old(|lists|) == MAX_COMMON_TIMEOUTS && duration !in old(durations)
      ensures k.None? ==> lists == old(lists)
      ensures k.Some? ==> k.value < |lists| && durations[k.value] == duration
      ensures old(lists) <= lists && forall i :: |old(lists)| <= i < |lists| ==> lists[i] == []
    {
      hide Counted, TotalLength, TotalCounted, Without, Sorted, NoDup;
      var i: nat := 0;
      while i < |durations|
        invariant i <= |durations| && duration !in durations[..i]
      {
        if durations[i] == duration {
          return Some(i);
        }
        i := i + 1;
      }
      if |lists| == MAX_COMMON_TIMEOUTS {
        return None;
      }
      var t := new Callback(true, true, 0, false, false, Plain);
      NewList(t, duration);
      return Some(|lists| - 1);
    }

    method NewList(t: Callback, duration: nat)
      requires
        && Valid()
        && t !in all
        && t.pri < |activeQueues|
        && IsTimer(t)
        && !t.persist
        && |lists| < MAX_COMMON_TIMEOUTS
      requires !t.active && !t.later && !t.timed && !t.inserted && !t.finalizing && t.interval.None?
      modifies this`lists, this`timers, this`durations, this`all
      ensures Valid() && all == old(all) + {t} && lists == old(lists) + [[]] && durations == old(durations) + [duration]
    {
      hide Counted, TotalLength, TotalCounted, Without, Sorted, ActiveOk, LaterOk, InsertedOk, HeapOk, FlagsOk, IsTimer;
      Register(t);
      EmptyList(lists);
      timers := timers + [t];
      durations := durations + [duration];
      lists := lists + [[]];
      forall i | 0 <= i < |lists| ensures ListOk(i) {
        if i < |old(lists)| { assert old(ListOk(i)); } else { NoneSorted(); }
      }
      forall i | 0 <= i < |lists| ensures TimerOk(i) {
        if i < |old(lists)| { assert old(TimerOk(i)); }
      }
    }

    /** The internal event of the common timeout that `interval` names, if there is one. */
    ghost function TimerOf(interval: Option<Timeout>): set<Callback>
      reads this`timers
    {
      if interval.Some? && interval.value.common.Some? && interval.value.common.value < |timers|
      then {timers[interval.value.common.value]} else {}
    }

    /**
     * event_persist_closure: an event with an interval is due again an interval after it was due, or after now if it
     * fired for another reason or that time has passed. A plain interval of zero is like none.
     */
    method PersistClosure(c: Callback, now: nat, ioOk: bool)
      requires Valid() && c in all && c !in timers && c.isEvent && !c.finalizing
      modifies this`activeQueues, this`heap, this`lists, this`insertedQueue, this`eventCount, this`eventCountActive
      modifies c`timed, c`active, c`inserted, c`due, c`interval
      modifies TimerOf(c.interval)`timed, TimerOf(c.interval)`active, TimerOf(c.interval)`due
      ensures Valid() && c.interval == old(c.interval)
      ensures
        if c.interval.Some? && (c.interval.value.time > 0 || c.interval.value.common.Some?)
           && (!c.io || old(c.inserted) || old(c.active) || old(c.later) || ioOk)
        then
          && c.timed
          && c.due.common == c.interval.value.common
          && (if c.byTimeout && old(c.due.time) + c.interval.value.time >= now
              then c.due.time - old(c.due.time) == c.interval.value.time
              else c.due.time - now == c.interval.value.time)
          && c.active == (old(c.active) && !c.byTimeout)
          && c.inserted == (old(c.inserted) || (c.io && !old(c.active) && !old(c.later)))
        else unchanged(this) && unchanged(c) && unchanged(timers)
    {
      hide Counted, TotalLength, TotalCounted, Without, Sorted, TimerOk, NoDup, ActiveOk, LaterOk, InsertedOk, HeapOk,
        ListsOk;
      Known(c);
      if c.interval.Some? && (c.interval.value.time > 0 || c.interval.value.common.Some?) {
        var delay := c.interval.value.time;
        var relativeTo := if c.byTimeout then c.due.time else now;
        var runAt := relativeTo + delay;
        if runAt < now {
          runAt := now + delay;
        }
        var _ := EventAdd(c, Some(Timeout(runAt, c.interval.value.common)), true, now, ioOk);
      }
    }

    /**
     * A repeated event that fires at `times` and is added again each time: when it is never late by more than its
     * interval, it stays in step with the time at which it was due first, however late each call was.
     */
    method Firings(c: Callback, times: seq<nat>)
      requires Valid() && c in all && c !in timers && c.isEvent && !c.finalizing && c.timed && Repeats(c.interval)
      requires forall i :: 0 <= i < |times| ==>
        c.due.time + i * c.interval.value.time <= times[i] <= c.due.time + (i + 1) * c.interval.value.time
      modifies this`activeQueues, this`laterQueue, this`heap, this`lists, this`insertedQueue, this`eventCount
      modifies this`eventCountActive, c`timed, c`active, c`later, c`inserted, c`byTimeout, c`due, c`interval
      modifies TimerOf(c.interval)`timed, TimerOf(c.interval)`active, TimerOf(c.interval)`due
      ensures Valid() && c.timed && c.interval == old(c.interval)
      ensures c.due.time == old(c.due.time) + |times| * c.interval.value.time
    {
      hide Core, TimersOk, TimerOk;
      var i := 0;
      while i < |times|
        invariant 0 <= i <= |times| && Valid() && c.timed && c.interval == old(c.interval)
        invariant c.due.time == old(c.due.time) + i * c.interval.value.time
      {
        Fire(c, times[i]);
        Multiple(i, c.interval.value.time);
        i := i + 1;
      }
    }

    /** The event becomes active because of its timeout, leaves its queue, and its closure runs. */
    method Fire(c: Callback, now: nat)
      requires Valid() && c in all && c !in timers && c.isEvent && !c.finalizing && c.timed && Repeats(c.interval)
      modifies this`activeQueues, this`laterQueue, this`heap, this`lists, this`insertedQueue, this`eventCount
      modifies this`eventCountActive, c`timed, c`active, c`later, c`inserted, c`byTimeout, c`due, c`interval
      modifies TimerOf(c.interval)`timed, TimerOf(c.interval)`active, TimerOf(c.interval)`due
      ensures Valid() && c.timed && c.interval == old(c.interval)
      ensures c.due.time ==
        (if old(c.due.time) + c.interval.value.time >= now then old(c.due.time) else now) + c.interval.value.time
    {
      hide Core, TimerOk;
      Known(c);
      Expire(c);
      RemoveActive(c);
      PersistClosure(c, now, true);
    }

    /** `base->current_event = evcb` for a callback that was just taken from its queue. */
    method SetCurrent(c: Callback)
      requires Core() && c in all && current == null
      requires forall i :: 0 <= i < |lists| && timers[i] != c ==> TimerOk(i)
      modifies this`current
      ensures Valid() && current == c
    {
      hide Counted, TotalLength, TotalCounted, Without, Sorted, NoDup, ActiveOk, LaterOk, InsertedOk, HeapOk,
        IntervalsOk;
      current := c;
      forall i | 0 <= i < |lists| ensures TimerOk(i) {
        if timers[i] != c {
          assert old(TimerOk(i));
        } else if lists[i] != [] {
          assert ListOk(i) && lists[i][0] in lists[i];
        }
      }
    }

    method ClearCurrent(ghost k: int)
      requires Valid() && current != null
      requires k == -1 ||
        (0 <= k < |lists| && timers[k] == current &&
         (lists[k] == [] || (timers[k] in heap && timers[k].due.time == lists[k][0].due.time)))
      requires k == -1 ==> current !in timers
      modifies this`current
      ensures Valid() && current == null
    {
      hide Counted, TotalLength, TotalCounted, Without, Sorted, ActiveOk, LaterOk, InsertedOk, HeapOk, ListsOk,
        IntervalsOk;
      current := null;
      forall i | 0 <= i < |lists| ensures TimerOk(i) {
        assert old(TimerOk(i));
      }
    }

    /** One turn of event_process_active_single_queue, for callbacks that do nothing to the base themselves.
        The internal event of a common timeout list moves what is due. */
    method RunFirst(p: nat, now: nat, ioOk: bool) returns (c: Callback, counted: bool)
      requires Valid() && p < |activeQueues| && activeQueues[p] != [] && current == null
      modifies this, all
      ensures Valid() && current == null && all == old(all) && timers == old(timers)
      ensures c == old(activeQueues[p][0]) && counted == !c.internal
      ensures c !in timers ==> !c.active && !c.later
      ensures
        c !in timers && c.isEvent && !c.persist && !c.finalizing && (c.closure != Persist || !Repeats(c.interval)) ==>
          !c.timed && !c.inserted
      ensures c !in timers && c.closure == Persist && c.isEvent && c.persist && !c.finalizing && Repeats(c.interval) ==>
        !c.io || old(activeQueues[p][0].inserted) || ioOk ==>
        && c.timed
        && c.due.common == c.interval.value.common
        && (if c.byTimeout && old(activeQueues[p][0].due.time) + c.interval.value.time >= now
            then c.due.time - old(activeQueues[p][0].due.time) == c.interval.value.time
            else c.due.time - now == c.interval.value.time)
      ensures forall k :: 0 <= k < |lists| && timers[k] == c ==> forall x :: x in lists[k] ==> x.due.time > now
    {
      hide Counted, TotalLength, TotalCounted, Without, Sorted, TimerOk, NoDup, ActiveOk, LaterOk, InsertedOk, HeapOk,
        ListsOk, IntervalsOk;
      Everyone();
      c := activeQueues[p][0];
      assert c in activeQueues[p];
      if !c.isEvent || c.persist || c.finalizing {
        RemoveActive(c);
      } else {
        EventDel(c, false);
      }
      counted := !c.internal;
      SetCurrent(c);
      RunClosure(c, now, ioOk);
    }

    /** The switch over the closures, for callbacks that do nothing to the base themselves. */
    method RunClosure(c: Callback, now: nat, ioOk: bool)
      requires Valid() && c in all && current == c
      modifies this`activeQueues, this`laterQueue, this`heap, this`lists, this`insertedQueue, this`eventCount
      modifies this`eventCountActive, this`current
      modifies all`timed, all`active, all`later, all`inserted, all`byTimeout, all`due, all`interval
      ensures Valid() && current == null
      ensures c !in timers ==> (c.active ==> old(c.active)) && c.later == old(c.later) && c.interval == old(c.interval)
      ensures c !in timers && (c.closure != Persist || !c.isEvent || c.finalizing || !Repeats(c.interval)) ==>
        c.timed == old(c.timed) && c.inserted == old(c.inserted) && c.due == old(c.due)
      ensures c !in timers && c.closure == Persist && c.isEvent && !c.finalizing && Repeats(c.interval) ==>
        !c.io || old(c.inserted) || old(c.active) || old(c.later) || ioOk ==>
        && c.timed
        && c.due.common == c.interval.value.common
        && (if c.byTimeout && old(c.due.time) + c.interval.value.time >= now
            then c.due.time - old(c.due.time) == c.interval.value.time
            else c.due.time - now == c.interval.value.time)
      ensures forall k :: 0 <= k < |lists| && timers[k] == c ==> forall x :: x in lists[k] ==> x.due.time > now
    {
      hide Counted, TotalLength, TotalCounted, Without, Sorted, TimerOk, NoDup, ActiveOk, LaterOk, InsertedOk, HeapOk,
        ListsOk, IntervalsOk;
      var k := PositionOf(timers, c);
      if k < |timers| {
        CommonTimeoutCallback(k, now);
        OnePlace(k);
        ClearCurrent(k);
      } else {
        if c.closure == Persist && c.isEvent && !c.finalizing {
          PersistClosure(c, now, ioOk);
        }
        ClearCurrent(-1);
      }
    }

    lemma OnePlace(k: nat)
      requires Core() && k < |timers|
      ensures forall i :: 0 <= i < |timers| && timers[i] == timers[k] ==> i == k
    {
      hide ActiveOk, LaterOk, InsertedOk, HeapOk, ListsOk, IntervalsOk;
    }
  }

  lemma Multiple(i: int, m: int)
    ensures (i + 1) * m == i * m + m
  {
  }

  function PositionOf(q: Queue, c: Callback): (k: nat)
    ensures k <= |q| && (k < |q| <==> c in q) && (k < |q| ==> q[k] == c)
  {
    if q == [] then 0 else if q[0] == c then 0 else 1 + PositionOf(q[1..], c)
  }

  lemma {:induction false} NoneCounted(qs: seq<Queue>)
    requires forall i :: 0 <= i < |qs| ==> qs[i] == []
    ensures TotalLength(qs) == 0 && TotalCounted(qs) == 0 && Counted([]) == 0
  {
    if qs != [] { NoneCounted(qs[1..]); }
  }

  lemma {:induction false} EmptyList(qs: seq<Queue>)
    ensures TotalCounted(qs + [[]]) == TotalCounted(qs)
  {
    if qs == [] {
      assert (qs + [[]])[1..] == qs && Counted([]) == 0;
    } else {
      EmptyList(qs[1..]);
      assert (qs + [[]])[1..] == qs[1..] + [[]];
    }
  }

  lemma NoneSorted()
    ensures Sorted([])
  {
  }

  lemma FirstOut(q: Queue, c: Callback)
    requires q != [] && q[0] == c && NoDup(q)
    ensures NoDup(q[1..]) && Counted(q) == Counted(q[1..]) + Weight(c)
    ensures forall x :: x in q[1..] <==> x in q && x != c
  {
    assert forall i :: 0 <= i < |q[1..]| ==> q[1..][i] == q[i + 1] && q[i + 1] != c;
  }

  lemma AllLater(q: Queue, now: nat)
    requires Sorted(q) && (q != [] ==> q[0].due.time > now)
    ensures forall c :: c in q ==> c.due.time > now
  {
  }

  /** When an event leaves a list, the next one to be due is due no earlier. */
  lemma HeadLater(q: Queue, c: Callback)
    requires Sorted(q) && c in q
    ensures Without(q, c) != [] ==> q[0].due.time <= Without(q, c)[0].due.time
  {
  }
}
