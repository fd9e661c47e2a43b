/** Which events the kernel watches on each file descriptor: evmap.c, its changelist, and epoll.c. */
module FdInterest {
  import opened Bytes

  datatype Dir = Read | Write | Close

  /** EV_READ, EV_WRITE and EV_CLOSED, or the epoll flags EPOLLIN, EPOLLOUT and EPOLLRDHUP. */
  datatype Mask = Mask(r: bool, w: bool, c: bool) {
    predicate Has(d: Dir) {
      match d
      case Read => r
      case Write => w
      case Close => c
    }

    predicate Empty() { !r && !w && !c }

    function Plus(that: Mask): Mask { Mask(r || that.r, w || that.w, c || that.c) }

    function Minus(that: Mask): Mask { Mask(r && !that.r, w && !that.w, c && !that.c) }
  }

  const NONE := Mask(false, false, false)

  const EV_CHANGE_ADD := 1
  const EV_CHANGE_DEL := 2

  /** struct event_change. */
  datatype Change = Change(fd: nat, was: Mask, read: nat, write: nat, close: nat)

  ghost predicate WfChange(ch: Change) {
    ch.read <= 2 && ch.write <= 2 && ch.close <= 2
  }

  /** Whether a direction is wanted after a change to it. */
  predicate Bit(change: nat, was: bool) {
    change == EV_CHANGE_ADD || (change != EV_CHANGE_DEL && was)
  }

  /** What is wanted on the descriptor after the changes. */
  function Applied(ch: Change): Mask {
    Mask(Bit(ch.read, ch.was.r), Bit(ch.write, ch.was.w), Bit(ch.close, ch.was.c))
  }

  predicate Idle(ch: Change) {
    ch.read == 0 && ch.write == 0 && ch.close == 0
  }

  datatype Op = NoOp | Add | Mod | Del | Impossible

  /** An entry of epoll_op_table. */
  datatype Operation = Operation(events: Mask, op: Op)

  /** The operation that brings the kernel from `old` to where the changes lead. */
  ghost function Wanted(was: Mask, write: nat, read: nat, close: nat): Operation {
    var t := Applied(Change(0, was, read, write, close));
    if read > 2 || write > 2 || close > 2 then Operation(NONE, Impossible)
    else if read == 0 && write == 0 && close == 0 then Operation(NONE, NoOp)
    else if read == EV_CHANGE_ADD || write == EV_CHANGE_ADD || close == EV_CHANGE_ADD then
      Operation(t, if was.Empty() then Add else Mod)
    else if !t.Empty() then Operation(t, Mod)
    else Operation(Mask(read == EV_CHANGE_DEL, write == EV_CHANGE_DEL, close == EV_CHANGE_DEL), Del)
  }

  /** The masks in the order in which the table lists them. */
  function OldMask(i: nat): Mask {
    Mask(i % 2 == 1, i / 2 % 2 == 1, i / 4 % 2 == 1)
  }

  function JoinFlags(events: seq<Dir>): Mask {
    Mask(Read in events, Write in events, Close in events)
  }

  lemma SomeFlag(events: seq<Dir>)
    ensures JoinFlags(events).Empty() <==> events == []
  {
    if events != [] {
      var d := events[0];
      assert d in events && (d.Read? || d.Write? || d.Close?);
    }
  }

  /** get in make_epoll_table.py; 3 stands for the impossible "xxx". */
  method GetOperation(was: Mask, wc: nat, rc: nat, cc: nat) returns (o: Operation)
    requires wc <= 3 && rc <= 3 && cc <= 3
    ensures o == Wanted(was, wc, rc, cc)
  {
    if rc == 3 || wc == 3 || cc == 3 {
      return Operation(NONE, Impossible);
    }
    if rc == EV_CHANGE_ADD || wc == EV_CHANGE_ADD || cc == EV_CHANGE_ADD {
      var events: seq<Dir> := [];
      if rc == EV_CHANGE_ADD || (rc != EV_CHANGE_DEL && was.r) {
        events := events + [Read];
      }
      if wc == EV_CHANGE_ADD || (wc != EV_CHANGE_DEL && was.w) {
        events := events + [Write];
      }
      if cc == EV_CHANGE_ADD || (cc != EV_CHANGE_DEL && was.c) {
        events := events + [Close];
      }
      return Operation(JoinFlags(events), if was == NONE then Add else Mod);
    }
    if rc == EV_CHANGE_DEL || wc == EV_CHANGE_DEL || cc == EV_CHANGE_DEL {
      var delEvents: seq<Dir>, modEvents: seq<Dir> := [], [];
      if was.r { modEvents := modEvents + [Read]; }
      if was.w { modEvents := modEvents + [Write]; }
      if was.c { modEvents := modEvents + [Close]; }
      var items := [(rc, Read), (wc, Write), (cc, Close)];
      var k := 0;
      while k < 3
        invariant 0 <= k <= 3
        invariant JoinFlags(delEvents) ==
          Mask(0 < k && rc == EV_CHANGE_DEL, 1 < k && wc == EV_CHANGE_DEL, 2 < k && cc == EV_CHANGE_DEL)
        invariant JoinFlags(modEvents) == was.Minus(JoinFlags(delEvents))
      {
        var (item, event) := items[k];
        if item == EV_CHANGE_DEL {
          delEvents := delEvents + [event];
          modEvents := Without(modEvents, event);
        }
        k := k + 1;
      }
      SomeFlag(modEvents);
      if modEvents != [] {
        return Operation(JoinFlags(modEvents), Mod);
      } else {
        return Operation(JoinFlags(delEvents), Del);
      }
    }
    return Operation(NONE, NoOp);
  }

  /** Removes an item from a list that has it at most once. */
  function Without(s: seq<Dir>, x: Dir): (r: seq<Dir>)
    ensures forall y :: y in r <==> y in s && y != x
  {
    if s == [] then [] else (if s[0] == x then [] else [s[0]]) + Without(s[1..], x)
  }

  /** EPOLL_OP_TABLE_INDEX. */
  function Index(ch: Change): (i: nat)
    requires ch.read <= 3 && ch.write <= 3 && ch.close <= 3
    ensures i < 512
  {
    ch.close + ch.read * 4 + ch.write * 16
    + (if ch.was.r then 64 else 0) + (if ch.was.w then 128 else 0) + (if ch.was.c then 256 else 0)
  }

  /** Every entry of the table is the wanted operation for the changes that lead to it. */
  ghost predicate GoodTable(t: seq<Operation>) {
    |t| == 512 && forall ch :: WfChange(ch) ==> t[Index(ch)] == Wanted(ch.was, ch.write, ch.read, ch.close)
  }

  /** The loops of make_epoll_table.py. */
  method MakeTable() returns (t: seq<Operation>)
    ensures GoodTable(t)
  {
    hide Wanted, OldMask, EntryAt, Index;
    t := [];
    for o := 0 to 8
      invariant |t| == o * 64
      invariant forall i {:trigger t[i]} :: 0 <= i < |t| ==> t[i] == EntryAt(i)
    {
      for wc := 0 to 4
        invariant |t| == o * 64 + wc * 16
        invariant forall i {:trigger t[i]} :: 0 <= i < |t| ==> t[i] == EntryAt(i)
      {
        for rc := 0 to 4
          invariant |t| == o * 64 + wc * 16 + rc * 4
          invariant forall i {:trigger t[i]} :: 0 <= i < |t| ==> t[i] == EntryAt(i)
        {
          for cc := 0 to 4
            invariant |t| == o * 64 + wc * 16 + rc * 4 + cc
            invariant forall i {:trigger t[i]} :: 0 <= i < |t| ==> t[i] == EntryAt(i)
          {
            var op := GetOperation(OldMask(o), wc, rc, cc);
            EntryStep(o, wc, rc, cc);
            t := t + [op];
          }
        }
      }
    }
    forall ch | WfChange(ch) ensures t[Index(ch)] == Wanted(ch.was, ch.write, ch.read, ch.close) {
      IndexEntry(ch);
    }
  }

  ghost function EntryAt(i: nat): Operation {
    Wanted(OldMask(i / 64), i / 16 % 4, i / 4 % 4, i % 4)
  }

  lemma EntryStep(o: nat, wc: nat, rc: nat, cc: nat)
    requires wc < 4 && rc < 4 && cc < 4
    ensures EntryAt(o * 64 + wc * 16 + rc * 4 + cc) == Wanted(OldMask(o), wc, rc, cc)
  {
    hide Wanted, OldMask;
    var i := o * 64 + wc * 16 + rc * 4 + cc;
    DivOnce(i, 4, o * 16 + wc * 4 + rc, cc);
    DivOnce(i, 16, o * 4 + wc, rc * 4 + cc);
    DivOnce(i, 64, o, wc * 16 + rc * 4 + cc);
    DivOnce(o * 16 + wc * 4 + rc, 4, o * 4 + wc, rc);
    DivOnce(o * 4 + wc, 4, o, wc);
  }

  lemma IndexEntry(ch: Change)
    requires WfChange(ch)
    ensures EntryAt(Index(ch)) == Wanted(ch.was, ch.write, ch.read, ch.close)
  {
    hide Wanted, EntryAt;
    var o := (if ch.was.r then 1 else 0) + (if ch.was.w then 2 else 0) + (if ch.was.c then 4 else 0);
    EntryStep(o, ch.write, ch.read, ch.close);
    assert OldMask(o) == ch.was;
  }

  /** What the operations of the table do when they succeed. */
  lemma OperationMeans(ch: Change)
    requires WfChange(ch)
    ensures var o := Wanted(ch.was, ch.write, ch.read, ch.close);
      && (o.events.Empty() <==> Idle(ch)) && (Idle(ch) <==> o.op == NoOp) && o.op != Impossible
      && (o.op == Add || o.op == Mod ==> o.events == Applied(ch) && !o.events.Empty())
      && (o.op == Del ==> Applied(ch).Empty())
      && (Idle(ch) ==> Applied(ch) == ch.was)
  {
  }

  /**
   * Which operation the kernel is asked for: to add a descriptor exactly when something is added to one on which
   * nothing was watched, so that it need not be repeated when the kernel was in step; to remove it exactly when nothing
   * is left.
   */
  lemma OperationFits(ch: Change)
    requires WfChange(ch)
    ensures var o := Wanted(ch.was, ch.write, ch.read, ch.close);
      var adds := ch.read == EV_CHANGE_ADD || ch.write == EV_CHANGE_ADD || ch.close == EV_CHANGE_ADD;
      && (o.op == Add <==> adds && ch.was.Empty())
      && (o.op == Mod <==> !Idle(ch) && !ch.was.Empty() && !Applied(ch).Empty())
      && (o.op == Del <==> !Idle(ch) && Applied(ch).Empty())
      && (o.op == Del ==> forall d :: o.events.Has(d) <==>
            (match d case Read => ch.read case Write => ch.write case Close => ch.close) == EV_CHANGE_DEL)
  {
  }

  /** The part of an event that concerns its descriptor. */
  datatype Event = Event(id: nat, fd: int, events: Mask)

  /** struct evmap_io with the changelist's data behind it. */
  datatype Io = Io(events: seq<Event>, nread: nat, nwrite: nat, nclose: nat, idxplus1: nat) {
    /** The directions with a positive count. */
    function Counted(): Mask { Mask(nread > 0, nwrite > 0, nclose > 0) }
  }

  const FRESH_IO := Io([], 0, 0, 0, 0)
  const COUNT_LIMIT := 0xffff

  /** How many of the events want a direction. */
  ghost function Count(events: seq<Event>, d: Dir): nat {
    if events == [] then 0 else (if events[0].events.Has(d) then 1 else 0) + Count(events[1..], d)
  }

  /** The union of what the events want. */
  ghost function Union(events: seq<Event>): Mask {
    if events == [] then NONE else events[0].events.Plus(Union(events[1..]))
  }

  ghost predicate DistinctIds(events: seq<Event>) {
    forall i, j :: 0 <= i < j < |events| ==> events[i].id != events[j].id
  }

  ghost predicate WfIo(io: Io, fd: int) {
    && io.nread == Count(io.events, Read) <= COUNT_LIMIT
    && io.nwrite == Count(io.events, Write) <= COUNT_LIMIT
    && io.nclose == Count(io.events, Close) <= COUNT_LIMIT
    && (forall e :: e in io.events ==> e.fd == fd)
    && DistinctIds(io.events)
  }

  lemma {:induction false} CountUnion(events: seq<Event>)
    ensures forall d :: Count(events, d) > 0 <==> Union(events).Has(d)
  {
    if events != [] { CountUnion(events[1..]); }
  }

  /** The directions with a positive count are those some event wants. */
  lemma CountedIsUnion(io: Io, fd: int)
    requires WfIo(io, fd)
    ensures io.Counted() == Union(io.events)
  {
    CountUnion(io.events);
    assert forall d :: (Count(io.events, d) > 0) == Union(io.events).Has(d);
  }

  /** LIST_REMOVE. */
  function Removed(events: seq<Event>, ev: Event): seq<Event> {
    if events == [] then [] else if events[0] == ev then events[1..] else [events[0]] + Removed(events[1..], ev)
  }

  lemma {:induction false} RemovedCounts(events: seq<Event>, ev: Event)
    requires ev in events
    ensures forall d :: Count(events, d) == Count(Removed(events, ev), d) + if ev.events.Has(d) then 1 else 0
    ensures forall e :: e in Removed(events, ev) ==> e in events
    ensures DistinctIds(events) ==> DistinctIds(Removed(events, ev)) && ev !in Removed(events, ev)
  {
    if events[0] != ev {
      RemovedCounts(events[1..], ev);
      var rest := Removed(events[1..], ev);
      assert ([events[0]] + rest)[1..] == rest;
      if DistinctIds(events) {
        assert DistinctIds(events[1..]);
        forall e | e in rest ensures e.id != events[0].id {
          var j :| 0 <= j < |events[1..]| && events[1..][j] == e;
          assert events[j + 1] == e;
        }
      }
    } else if DistinctIds(events) {
      assert forall j :: 0 <= j < |events[1..]| ==> events[1..][j] == events[j + 1] && events[j + 1].id != ev.id;
    }
  }

  lemma AddedCounts(events: seq<Event>, ev: Event)
    ensures forall d :: Count([ev] + events, d) == Count(events, d) + if ev.events.Has(d) then 1 else 0
    ensures DistinctIds(events) && (forall e :: e in events ==> e.id != ev.id) ==> DistinctIds([ev] + events)
  {
    assert ([ev] + events)[1..] == events;
  }

  type IoMap = seq<Option<Io>>

  /** What is wanted on descriptor `i` while `fd` is being changed to want `m`. */
  ghost function Goal(es: IoMap, i: int, fd: int, m: Mask): Mask {
    if i == fd then m else if 0 <= i < |es| && es[i].Some? then es[i].value.Counted() else NONE
  }

  /** What the kernel was last told about descriptor `i`. */
  ghost function Told(es: IoMap, cs: seq<Change>, i: int, fd: int, m: Mask): Mask {
    if 0 <= i < |es| && es[i].Some? && 0 < es[i].value.idxplus1 <= |cs| then cs[es[i].value.idxplus1 - 1].was
      else Goal(es, i, fd, m)
  }

  /** The table of descriptors and the changelist agree, and the changes lead to what is wanted. */
  ghost predicate Agree(es: IoMap, cs: seq<Change>, fd: int, m: Mask) {
    && (forall i :: 0 <= i < |es| && es[i].Some? ==> WfIo(es[i].value, i))
    && (forall k :: 0 <= k < |cs| ==> Owned(es, cs[k], k))
    && (forall i :: 0 <= i < |es| && es[i].Some? && es[i].value.idxplus1 > 0 ==>
          LeadsTo(cs, es[i].value.idxplus1 - 1, i, Goal(es, i, fd, m)))
  }

  ghost predicate Owned(es: IoMap, ch: Change, k: nat) {
    ch.fd < |es| && es[ch.fd].Some? && es[ch.fd].value.idxplus1 == k + 1
  }

  ghost predicate LeadsTo(cs: seq<Change>, k: nat, fd: int, m: Mask) {
    k < |cs| && cs[k].fd == fd && WfChange(cs[k]) && Applied(cs[k]) == m
  }

  ghost function Watched(kernel: map<nat, Mask>, fd: nat): Mask {
    if fd in kernel then kernel[fd] else NONE
  }

  /** The kernel watches what it was told, except on descriptors that were closed or replaced behind its back. */
  ghost predicate InStep(es: IoMap, cs: seq<Change>, kernel: map<nat, Mask>, disturbed: set<nat>, fd: int, m: Mask) {
    forall i: nat :: i !in disturbed ==> Watched(kernel, i) == Told(es, cs, i, fd, m)
  }

  /** The list of changes with one of them replaced leads somewhere else. */
  lemma ChangeReplaced(es: IoMap, cs: seq<Change>, kernel: map<nat, Mask>, disturbed: set<nat>, fd: nat, m: Mask,
      k: nat, ch: Change)
    requires Agree(es, cs, fd, m) && InStep(es, cs, kernel, disturbed, fd, m)
    requires k < |cs| && cs[k].fd == fd == ch.fd && ch.was == cs[k].was && WfChange(ch)
    ensures Agree(es, cs[k := ch], fd, Applied(ch)) && InStep(es, cs[k := ch], kernel, disturbed, fd, Applied(ch))
  {
    hide WfIo;
    assert Owned(es, cs[k], k);
    forall i | 0 <= i < |es| && es[i].Some? && es[i].value.idxplus1 > 0
      ensures LeadsTo(cs[k := ch], es[i].value.idxplus1 - 1, i, Goal(es, i, fd, Applied(ch)))
    {
      assert LeadsTo(cs, es[i].value.idxplus1 - 1, i, Goal(es, i, fd, m));
    }
    var cs' := cs[k := ch];
    forall j | 0 <= j < |cs'| ensures Owned(es, cs'[j], j) {
      assert Owned(es, cs[j], j);
    }
  }

  /** A change that changes nothing is added for a descriptor that has none. */
  lemma ChangeAdded(es: IoMap, cs: seq<Change>, kernel: map<nat, Mask>, disturbed: set<nat>, fd: nat, m: Mask)
    requires Agree(es, cs, fd, m) && InStep(es, cs, kernel, disturbed, fd, m)
    requires fd < |es| && es[fd].Some? && es[fd].value.idxplus1 == 0
    ensures var es' := es[fd := Some(es[fd].value.(idxplus1 := |cs| + 1))]; var cs' := cs + [Change(fd, m, 0, 0, 0)];
      Agree(es', cs', fd, m) && InStep(es', cs', kernel, disturbed, fd, m)
  {
    hide Count;
    var es' := es[fd := Some(es[fd].value.(idxplus1 := |cs| + 1))];
    var cs' := cs + [Change(fd, m, 0, 0, 0)];
    forall j | 0 <= j < |cs'| ensures Owned(es', cs'[j], j) {
      if j < |cs| { assert Owned(es, cs[j], j); }
    }
    forall i | 0 <= i < |es| && es'[i].Some? && es'[i].value.idxplus1 > 0
      ensures LeadsTo(cs', es'[i].value.idxplus1 - 1, i, Goal(es', i, fd, m))
    {
      if i != fd { assert LeadsTo(cs, es[i].value.idxplus1 - 1, i, Goal(es, i, fd, m)); }
    }
    forall i: nat | i !in disturbed ensures Watched(kernel, i) == Told(es', cs', i, fd, m) {
      assert Watched(kernel, i) == Told(es, cs, i, fd, m);
      if i < |es| && i != fd && es[i].Some? && es[i].value.idxplus1 > 0 {
        assert LeadsTo(cs, es[i].value.idxplus1 - 1, i, Goal(es, i, fd, m));
      }
    }
  }

  /** The counts of a descriptor catch up with what it was changed to want. */
  lemma CountsSettled(es: IoMap, cs: seq<Change>, kernel: map<nat, Mask>, disturbed: set<nat>, fd: nat, m: Mask, io: Io)
    requires Agree(es, cs, fd, m) && InStep(es, cs, kernel, disturbed, fd, m)
    requires fd < |es| && es[fd].Some? && WfIo(io, fd) && io.idxplus1 == es[fd].value.idxplus1 && io.Counted() == m
    ensures var es' := es[fd := Some(io)];
      Agree(es', cs, -1, NONE) && InStep(es', cs, kernel, disturbed, -1, NONE)
  {
    hide WfIo, Watched, Applied;
    var es' := es[fd := Some(io)];
    forall j | 0 <= j < |cs| ensures Owned(es', cs[j], j) {
      assert Owned(es, cs[j], j);
    }
    forall i | 0 <= i < |es| && es'[i].Some? && es'[i].value.idxplus1 > 0
      ensures LeadsTo(cs, es'[i].value.idxplus1 - 1, i, Goal(es', i, -1, NONE))
    {
      assert LeadsTo(cs, es[i].value.idxplus1 - 1, i, Goal(es, i, fd, m));
    }
    forall i: nat | i !in disturbed ensures Watched(kernel, i) == Told(es', cs, i, -1, NONE) {
      assert Watched(kernel, i) == Told(es, cs, i, fd, m);
    }
  }

  /** Nothing changes as long as the descriptor wants what its counts say. */
  lemma CountsUsed(es: IoMap, cs: seq<Change>, kernel: map<nat, Mask>, disturbed: set<nat>, fd: nat)
    requires Agree(es, cs, -1, NONE) && InStep(es, cs, kernel, disturbed, -1, NONE)
    ensures var m := Goal(es, fd, -1, NONE); Agree(es, cs, fd, m) && InStep(es, cs, kernel, disturbed, fd, m)
  {
    hide WfIo;
    var m := Goal(es, fd, -1, NONE);
    forall i | 0 <= i < |es| && es[i].Some? && es[i].value.idxplus1 > 0
      ensures LeadsTo(cs, es[i].value.idxplus1 - 1, i, Goal(es, i, fd, m))
    {
      assert LeadsTo(cs, es[i].value.idxplus1 - 1, i, Goal(es, i, -1, NONE));
    }
    forall i: nat | i !in disturbed ensures Watched(kernel, i) == Told(es, cs, i, fd, m) {
      assert Watched(kernel, i) == Told(es, cs, i, -1, NONE);
    }
  }

  /** More slots, which are empty. */
  lemma SlotsAdded(es: IoMap, cs: seq<Change>, kernel: map<nat, Mask>, disturbed: set<nat>, es': IoMap)
    requires Agree(es, cs, -1, NONE) && InStep(es, cs, kernel, disturbed, -1, NONE)
    requires
      && |es| <= |es'|
      && (forall i :: 0 <= i < |es| ==> es'[i] == es[i] || (es[i] == None && es'[i] == Some(FRESH_IO)))
    requires forall i :: |es| <= i < |es'| ==> es'[i] == None
    ensures Agree(es', cs, -1, NONE) && InStep(es', cs, kernel, disturbed, -1, NONE)
  {
    hide WfIo, Watched, Applied;
    forall i ensures WfIo(FRESH_IO, i) { FreshIo(i); }
    forall j | 0 <= j < |cs| ensures Owned(es', cs[j], j) {
      assert Owned(es, cs[j], j);
    }
    forall i | 0 <= i < |es'| && es'[i].Some? && es'[i].value.idxplus1 > 0
      ensures LeadsTo(cs, es'[i].value.idxplus1 - 1, i, Goal(es', i, -1, NONE))
    {
      assert LeadsTo(cs, es[i].value.idxplus1 - 1, i, Goal(es, i, -1, NONE));
    }
    forall i: nat | i !in disturbed ensures Watched(kernel, i) == Told(es', cs, i, -1, NONE) {
      assert Watched(kernel, i) == Told(es, cs, i, -1, NONE);
    }
  }

  lemma FreshIo(fd: int)
    ensures WfIo(FRESH_IO, fd)
  {
  }

  /** The changes before `k` have been applied. */
  ghost predicate PartStep(es: IoMap, cs: seq<Change>, kernel: map<nat, Mask>, disturbed: set<nat>, k: nat) {
    forall i: nat :: i !in disturbed ==>
      Watched(kernel, i) ==
        if i < |es| && es[i].Some? && es[i].value.idxplus1 > k then Told(es, cs, i, -1, NONE) else Goal(es, i, -1, NONE)
  }

  /** What applying a change does to the kernel. */
  ghost predicate AppliedTo(kernel: map<nat, Mask>, disturbed: set<nat>, ch: Change, kernel': map<nat, Mask>,
      disturbed': set<nat>)
  {
    if Idle(ch) then kernel' == kernel && disturbed' == disturbed
    else
      && Watched(kernel', ch.fd) == Applied(ch) && disturbed' == disturbed - {ch.fd}
      && forall i: nat :: i != ch.fd ==> Watched(kernel', i) == Watched(kernel, i)
  }

  lemma PartStepNext(es: IoMap, cs: seq<Change>, kernel: map<nat, Mask>, disturbed: set<nat>, k: nat,
      kernel': map<nat, Mask>, disturbed': set<nat>)
    requires Agree(es, cs, -1, NONE) && k < |cs| && PartStep(es, cs, kernel, disturbed, k)
    requires AppliedTo(kernel, disturbed, cs[k], kernel', disturbed')
    ensures PartStep(es, cs, kernel', disturbed', k + 1)
  {
    hide WfIo, Applied;
    assert Owned(es, cs[k], k);
    OperationMeans(cs[k]) by { assert LeadsTo(cs, k, cs[k].fd, Goal(es, cs[k].fd, -1, NONE)); }
    forall i: nat | i !in disturbed'
      ensures Watched(kernel', i) ==
        if i < |es| && es[i].Some? && es[i].value.idxplus1 > k + 1 then Told(es, cs, i, -1, NONE)
          else Goal(es, i, -1, NONE)
    {
      if i < |es| && es[i].Some? && es[i].value.idxplus1 > 0 {
        assert LeadsTo(cs, es[i].value.idxplus1 - 1, i, Goal(es, i, -1, NONE));
      }
    }
  }

  /** The table after the links to the first `k` changes are cut. */
  ghost function Cleared(es: IoMap, k: nat): IoMap {
    seq(|es|, i requires 0 <= i < |es| =>
      if es[i].Some? && 0 < es[i].value.idxplus1 <= k then Some(es[i].value.(idxplus1 := 0)) else es[i])
  }

  lemma ClearedNext(es: IoMap, cs: seq<Change>, k: nat)
    requires Agree(es, cs, -1, NONE) && k < |cs|
    ensures cs[k].fd < |es| && es[cs[k].fd].Some? && Cleared(es, k)[cs[k].fd] == es[cs[k].fd]
    ensures Cleared(es, k + 1) == Cleared(es, k)[cs[k].fd := Some(es[cs[k].fd].value.(idxplus1 := 0))]
  {
    hide WfIo;
    assert Owned(es, cs[k], k);
    var fd := cs[k].fd;
    forall i | 0 <= i < |es| && i != fd ensures Cleared(es, k + 1)[i] == Cleared(es, k)[i] {
      if es[i].Some? && es[i].value.idxplus1 > 0 {
        assert LeadsTo(cs, es[i].value.idxplus1 - 1, i, Goal(es, i, -1, NONE));
      }
    }
  }

  /** When all changes have been applied and forgotten, the kernel watches what is wanted. */
  lemma AllCleared(es: IoMap, cs: seq<Change>, kernel: map<nat, Mask>, disturbed: set<nat>)
    requires Agree(es, cs, -1, NONE) && PartStep(es, cs, kernel, disturbed, |cs|)
    ensures var es' := Cleared(es, |cs|); Agree(es', [], -1, NONE) && InStep(es', [], kernel, disturbed, -1, NONE)
  {
    hide Count;
    var es' := Cleared(es, |cs|);
    forall i | 0 <= i < |es| && es[i].Some? && es[i].value.idxplus1 > 0 ensures es'[i].value.idxplus1 == 0 {
      assert LeadsTo(cs, es[i].value.idxplus1 - 1, i, Goal(es, i, -1, NONE));
    }
    forall i: nat | i !in disturbed ensures Watched(kernel, i) == Told(es', [], i, -1, NONE) {
      if i < |es| && es[i].Some? && es[i].value.idxplus1 > 0 {
        assert LeadsTo(cs, es[i].value.idxplus1 - 1, i, Goal(es, i, -1, NONE));
      }
    }
  }

  lemma NothingApplied(es: IoMap, cs: seq<Change>, kernel: map<nat, Mask>, disturbed: set<nat>)
    requires InStep(es, cs, kernel, disturbed, -1, NONE)
    ensures PartStep(es, cs, kernel, disturbed, 0)
  {
    forall i: nat | i !in disturbed
      ensures Watched(kernel, i) ==
        if i < |es| && es[i].Some? && es[i].value.idxplus1 > 0 then Told(es, cs, i, -1, NONE) else Goal(es, i, -1, NONE)
    {
      assert Watched(kernel, i) == Told(es, cs, i, -1, NONE);
    }
  }

  datatype Errno = Ok | EEXIST | ENOENT

  /** The part of an event base that concerns descriptors, with the kernel's epoll set. */
  class Base {
    /** epollops_changelist, or epollops without a changelist. */
    const changelist: bool
    const table: seq<Operation>
    var entries: array<Option<Io>>
    var changes: array<Change>
    var nChanges: nat
    var kernel: map<nat, Mask>
    /** Descriptors that were closed or replaced while the kernel watched them. */
    ghost var disturbed: set<nat>

    /** The structures agree while descriptor `fd` is being changed to want `m`. */
    ghost predicate Inv(fd: int, m: Mask)
      reads this, entries, changes
    {
      && GoodTable(table) && nChanges <= changes.Length && (!changelist ==> nChanges == 0)
      && Agree(entries[..], changes[..nChanges], fd, m)
      && InStep(entries[..], changes[..nChanges], kernel, disturbed, fd, m)
    }

    ghost predicate Valid()
      reads this, entries, changes
    {
      Inv(-1, NONE)
    }

    /** The events added for a descriptor. */
    ghost function EventsOf(fd: int): seq<Event>
      reads this, entries
    {
      if 0 <= fd < entries.Length && entries[fd].Some? then entries[fd].value.events else []
    }

    constructor (changelist: bool)
      ensures Valid() && fresh(entries) && fresh(changes) && this.changelist == changelist
      ensures kernel == map[] && disturbed == {} && forall fd :: EventsOf(fd) == []
    {
      this.changelist := changelist;
      var t := MakeTable();
      table := t;
      entries := new Option<Io>[0];
      changes := new Change[0];
      nChanges, kernel, disturbed := 0, map[], {};
    }

    /** epoll_ctl. */
    method EpollCtl(op: Op, fd: nat, events: Mask) returns (e: Errno)
      requires op == Add || op == Mod || op == Del
      modifies this`kernel
      ensures e ==
        (if op == Add then if fd in old(kernel) then EEXIST else Ok else if fd in old(kernel) then Ok else ENOENT)
      ensures kernel ==
        if e != Ok then old(kernel) else if op == Del then old(kernel) - {fd} else old(kernel)[fd := events]
    {
      if op == Add && fd in kernel {
        return EEXIST;
      }
      if op != Add && fd !in kernel {
        return ENOENT;
      }
      kernel := if op == Del then kernel - {fd} else kernel[fd := events];
      return Ok;
    }

    /** epoll_apply_one_change. */
    method ApplyOneChange(ch: Change) returns (r: int)
      requires GoodTable(table) && WfChange(ch)
      modifies this`kernel, this`disturbed
      ensures r == 0 && AppliedTo(old(kernel), old(disturbed), ch, kernel, disturbed)
    {
      hide Wanted, Index, Applied, Idle;
      OperationMeans(ch);
      var o := table[Index(ch)];
      assert o == Wanted(ch.was, ch.write, ch.read, ch.close);
      if o.events.Empty() {
        return 0;
      }
      disturbed := disturbed - {ch.fd};
      var e := EpollCtl(o.op, ch.fd, o.events);
      if e == Ok {
        return 0;
      }
      match o.op {
        case Mod =>
          if e == ENOENT {
            e := EpollCtl(Add, ch.fd, o.events);
            return if e == Ok then 0 else -1;
          }
        case Add =>
          if e == EEXIST {
            e := EpollCtl(Mod, ch.fd, o.events);
            return if e == Ok then 0 else -1;
          }
        case Del =>
          if e == ENOENT {
            return 0;
          }
        case _ =>
      }
      return -1;
    }

    /** evmap_make_space. */
    method MakeSpace(slot: nat)
      requires Valid()
      modifies this`entries
      ensures Valid() && slot < entries.Length && (entries == old(entries) || fresh(entries))
      ensures forall i :: EventsOf(i) == old(EventsOf(i))
    {
      hide Agree, InStep;
      if entries.Length <= slot {
        ghost var es, cs := entries[..], changes[..nChanges];
        var n := if entries.Length == 0 then 32 else entries.Length;
        while n <= slot
          invariant n > 0 && entries.Length <= n
          decreases slot - n
        {
          n := n * 2;
        }
        var tmp := new Option<Io>[n](_ => None);
        forall i | 0 <= i < entries.Length {
          tmp[i] := entries[i];
        }
        SlotsAdded(es, cs, kernel, disturbed, tmp[..]);
        entries := tmp;
        assert changes[..nChanges] == cs;
      }
    }

    /** GET_IO_SLOT_AND_CTOR: makes room, and an empty record if there is none. */
    method GetSlot(fd: nat)
      requires Valid()
      modifies this`entries, entries
      ensures Valid() && fd < entries.Length && entries[fd].Some? && (entries == old(entries) || fresh(entries))
      ensures forall i :: EventsOf(i) == old(EventsOf(i))
    {
      hide Agree, InStep;
      MakeSpace(fd);
      if entries[fd].None? {
        ghost var es := entries[..];
        entries[fd] := Some(FRESH_IO);
        SlotsAdded(es, changes[..nChanges], kernel, disturbed, entries[..]);
      }
    }

    /** event_changelist_grow. */
    method Grow()
      requires nChanges <= changes.Length
      modifies this`changes
      ensures fresh(changes) && changes.Length > old(changes.Length) && changes[..nChanges] == old(changes[..nChanges])
    {
      var n := if changes.Length < 64 then 64 else changes.Length * 2;
      var tmp := new Change[n](_ => Change(0, NONE, 0, 0, 0));
      forall i | 0 <= i < changes.Length {
        tmp[i] := changes[i];
      }
      changes := tmp;
    }

    /** event_changelist_get_or_construct. */
    method GetOrConstruct(fd: nat, was: Mask) returns (k: nat)
      requires changelist && Inv(fd, was) && fd < entries.Length && entries[fd].Some?
      modifies this`changes, this`nChanges, entries, changes
      ensures Inv(fd, was) && entries[fd].Some? && (changes == old(changes) || fresh(changes))
      ensures k < nChanges && changes[k].fd == fd && WfChange(changes[k]) && Applied(changes[k]) == was
      ensures entries[fd].value == old(entries[fd].value).(idxplus1 := k + 1)
      ensures forall i :: 0 <= i < entries.Length && i != fd ==> entries[i] == old(entries[i])
    {
      hide Agree, InStep, Applied, WfChange;
      var idx := entries[fd].value.idxplus1;
      if idx == 0 {
        ghost var es, cs := entries[..], changes[..nChanges];
        ChangeAdded(es, cs, kernel, disturbed, fd, was);
        if nChanges == changes.Length {
          Grow();
        }
        k := nChanges;
        changes[k] := Change(fd, was, 0, 0, 0);
        nChanges := nChanges + 1;
        entries[fd] := Some(entries[fd].value.(idxplus1 := k + 1));
        assert changes[..nChanges] == cs + [Change(fd, was, 0, 0, 0)];
        assert entries[..] == es[fd := Some(es[fd].value.(idxplus1 := k + 1))];
      } else {
        k := idx - 1;
      }
      Leads(entries[..], changes[..nChanges], fd, was);
    }

    /** event_changelist_add_. */
    method ChangelistAdd(fd: nat, was: Mask, events: Mask)
      requires changelist && Inv(fd, was) && fd < entries.Length && entries[fd].Some?
      modifies this`changes, this`nChanges, entries, changes
      ensures Inv(fd, was.Plus(events)) && entries[fd].Some? && (changes == old(changes) || fresh(changes))
      ensures entries[fd].value == old(entries[fd].value).(idxplus1 := entries[fd].value.idxplus1)
      ensures forall i :: 0 <= i < entries.Length && i != fd ==> entries[i] == old(entries[i])
    {
      hide Agree, InStep;
      var k := GetOrConstruct(fd, was);
      var ch := changes[k];
      ghost var cs := changes[..nChanges];
      if events.r { ch := ch.(read := EV_CHANGE_ADD); }
      if events.w { ch := ch.(write := EV_CHANGE_ADD); }
      if events.c { ch := ch.(close := EV_CHANGE_ADD); }
      ChangeReplaced(entries[..], cs, kernel, disturbed, fd, was, k, ch);
      changes[k] := ch;
      assert changes[..nChanges] == cs[k := ch];
    }

    /** event_changelist_del_: deleting what was not there before is no change. */
    method ChangelistDel(fd: nat, was: Mask, events: Mask)
      requires changelist && Inv(fd, was) && fd < entries.Length && entries[fd].Some?
      modifies this`changes, this`nChanges, entries, changes
      ensures Inv(fd, was.Minus(events)) && entries[fd].Some? && (changes == old(changes) || fresh(changes))
      ensures entries[fd].value == old(entries[fd].value).(idxplus1 := entries[fd].value.idxplus1)
      ensures forall i :: 0 <= i < entries.Length && i != fd ==> entries[i] == old(entries[i])
    {
      hide Agree, InStep, Applied, WfChange;
      var k := GetOrConstruct(fd, was);
      var ch := changes[k];
      ghost var cs := changes[..nChanges];
      if events.r { ch := ch.(read := if !ch.was.r then 0 else EV_CHANGE_DEL); }
      if events.w { ch := ch.(write := if !ch.was.w then 0 else EV_CHANGE_DEL); }
      if events.c { ch := ch.(close := if !ch.was.c then 0 else EV_CHANGE_DEL); }
      Deleted(changes[k], events);
      ChangeReplaced(entries[..], cs, kernel, disturbed, fd, was, k, ch);
      changes[k] := ch;
      assert changes[..nChanges] == cs[k := ch];
    }

    /** epoll_nochangelist_add and epoll_nochangelist_del. */
    method NochangelistChange(fd: nat, was: Mask, events: Mask, change: nat)
      requires !changelist && Inv(fd, was) && (change == EV_CHANGE_ADD || change == EV_CHANGE_DEL) && !events.Empty()
      modifies this`kernel, this`disturbed
      ensures Inv(fd, if change == EV_CHANGE_ADD then was.Plus(events) else was.Minus(events))
      ensures disturbed == old(disturbed) - {fd}
    {
      hide Agree, InStep, AppliedTo;
      var ch := Change(fd, was,
        if events.r then change else 0, if events.w then change else 0, if events.c then change else 0);
      var r := ApplyOneChange(ch);
      Direct(entries[..], old(kernel), old(disturbed), fd, was, ch, kernel, disturbed);
      assert changes[..nChanges] == [];
    }

    /** `evsel->add` and `evsel->del`. */
    method Tell(fd: nat, was: Mask, events: Mask, change: nat)
      requires Inv(fd, was) && fd < entries.Length && entries[fd].Some?
      requires (change == EV_CHANGE_ADD || change == EV_CHANGE_DEL) && !events.Empty()
      modifies this`changes, this`nChanges, this`kernel, this`disturbed, entries, changes
      ensures Inv(fd, if change == EV_CHANGE_ADD then was.Plus(events) else was.Minus(events))
      ensures entries[fd].Some? && (changes == old(changes) || fresh(changes))
      ensures entries[fd].value == old(entries[fd].value).(idxplus1 := entries[fd].value.idxplus1)
      ensures forall i :: 0 <= i < entries.Length && i != fd ==> entries[i] == old(entries[i])
      ensures if changelist then kernel == old(kernel) && disturbed == old(disturbed)
        else disturbed == old(disturbed) - {fd}
    {
      hide Inv;
      if !changelist {
        NochangelistChange(fd, was, events, change);
      } else if change == EV_CHANGE_ADD {
        ChangelistAdd(fd, was, events);
      } else {
        ChangelistDel(fd, was, events);
      }
    }

    /** The counters and the list of a descriptor are stored. */
    method Store(fd: nat, m: Mask, io: Io)
      requires Inv(fd, m) && fd < entries.Length && entries[fd].Some?
      requires WfIo(io, fd) && io.idxplus1 == entries[fd].value.idxplus1 && io.Counted() == m
      modifies entries
      ensures Valid() && EventsOf(fd) == io.events && forall i :: i != fd ==> EventsOf(i) == old(EventsOf(i))
    {
      hide Agree, InStep, Count;
      ghost var es, cs := entries[..], changes[..nChanges];
      entries[fd] := Some(io);
      assert entries[..] == es[fd := Some(io)] && changes[..nChanges] == cs;
      CountsSettled(es, cs, kernel, disturbed, fd, m, io);
    }

    /** The counts of a descriptor are what its events say. */
    lemma SlotOk(fd: nat)
      requires Valid() && fd < entries.Length && entries[fd].Some?
      ensures WfIo(entries[fd].value, fd) && entries[fd].value.Counted() == Union(EventsOf(fd))
      ensures Inv(fd, entries[fd].value.Counted())
    {
      CountedIsUnion(entries[fd].value, fd);
      CountsUsed(entries[..], changes[..nChanges], kernel, disturbed, fd);
    }

    /** The counts go up; `res` says which were zero. */
    static method CountUp(ctx: Io, events: Mask) returns (nread: nat, nwrite: nat, nclose: nat, res: Mask)
      ensures nread == ctx.nread + if events.r then 1 else 0
      ensures nwrite == ctx.nwrite + if events.w then 1 else 0
      ensures nclose == ctx.nclose + if events.c then 1 else 0
      ensures res == events.Minus(ctx.Counted())
    {
      nread, nwrite, nclose, res := ctx.nread, ctx.nwrite, ctx.nclose, NONE;
      if events.r {
        nread := nread + 1;
        if nread == 1 { res := res.(r := true); }
      }
      if events.w {
        nwrite := nwrite + 1;
        if nwrite == 1 { res := res.(w := true); }
      }
      if events.c {
        nclose := nclose + 1;
        if nclose == 1 { res := res.(c := true); }
      }
    }

    /** The counts go down; `res` says which reach zero. */
    static method CountDown(ctx: Io, events: Mask) returns (nread: nat, nwrite: nat, nclose: nat, res: Mask)
      requires events.Minus(ctx.Counted()) == NONE
      ensures nread == ctx.nread - if events.r then 1 else 0
      ensures nwrite == ctx.nwrite - if events.w then 1 else 0
      ensures nclose == ctx.nclose - if events.c then 1 else 0
      ensures res == Mask(events.r && ctx.nread == 1, events.w && ctx.nwrite == 1, events.c && ctx.nclose == 1)
    {
      nread, nwrite, nclose, res := ctx.nread, ctx.nwrite, ctx.nclose, NONE;
      if events.r {
        nread := nread - 1;
        if nread == 0 { res := res.(r := true); }
      }
      if events.w {
        nwrite := nwrite - 1;
        if nwrite == 0 { res := res.(w := true); }
      }
      if events.c {
        nclose := nclose - 1;
        if nclose == 0 { res := res.(c := true); }
      }
    }

    /** evmap_io_add_: 1 when the backend was told, 0 when there was no need, -1 when there are too many events. */
    method IoAdd(fd: int, ev: Event) returns (r: int)
      requires Valid() && ev.fd == fd && forall e :: e in EventsOf(fd) ==> e.id != ev.id
      modifies this`entries, this`changes, this`nChanges, this`kernel, this`disturbed, entries, changes
      ensures Valid() && (entries == old(entries) || fresh(entries)) && (changes == old(changes) || fresh(changes))
      ensures r == -1 <==> fd >= 0 && exists d :: ev.events.Has(d) && Count(old(EventsOf(fd)), d) >= COUNT_LIMIT
      ensures r == 1 <==> fd >= 0 && r != -1 && !ev.events.Minus(Union(old(EventsOf(fd)))).Empty()
      ensures r == -1 || r == 0 || r == 1
      ensures EventsOf(fd) == if fd >= 0 && r != -1 then [ev] + old(EventsOf(fd)) else old(EventsOf(fd))
      ensures forall i :: i != fd ==> EventsOf(i) == old(EventsOf(i))
      ensures if changelist || r != 1 then kernel == old(kernel) && disturbed == old(disturbed)
        else disturbed == old(disturbed) - {fd}
    {
      hide Inv, WfIo, Count, Union;
      if fd < 0 {
        return 0;
      }
      GetSlot(fd);
      r := AddTo(fd, ev);
    }

    /** The part of evmap_io_add_ that follows GET_IO_SLOT_AND_CTOR. */
    method AddTo(fd: nat, ev: Event) returns (r: int)
      requires
        && Valid()
        && fd < entries.Length
        && entries[fd].Some?
        && ev.fd == fd
        && forall e :: e in EventsOf(fd) ==> e.id != ev.id
      modifies this`changes, this`nChanges, this`kernel, this`disturbed, entries, changes
      ensures Valid() && (changes == old(changes) || fresh(changes))
      ensures r == -1 <==> exists d :: ev.events.Has(d) && Count(old(EventsOf(fd)), d) >= COUNT_LIMIT
      ensures r == 1 <==> r != -1 && !ev.events.Minus(Union(old(EventsOf(fd)))).Empty()
      ensures r == -1 || r == 0 || r == 1
      ensures EventsOf(fd) == if r != -1 then [ev] + old(EventsOf(fd)) else old(EventsOf(fd))
      ensures forall i :: i != fd ==> EventsOf(i) == old(EventsOf(i))
      ensures if changelist || r != 1 then kernel == old(kernel) && disturbed == old(disturbed)
        else disturbed == old(disturbed) - {fd}
    {
      hide Inv, WfIo, Count, Union;
      SlotOk(fd);
      var ctx := entries[fd].value;
      AddedCounts(ctx.events, ev);
      var was := ctx.Counted();
      var nread, nwrite, nclose, res := CountUp(ctx, ev.events);
      Counts(ctx, fd);
      Limits(ctx, fd, ev.events);
      if nread > COUNT_LIMIT || nwrite > COUNT_LIMIT || nclose > COUNT_LIMIT {
        return -1;
      }
      r := 0;
      if res != NONE {
        Tell(fd, was, res, EV_CHANGE_ADD);
        r := 1;
      }
      Grown(ctx, fd, ev, nread, nwrite, nclose, entries[fd].value.idxplus1);
      Store(fd, was.Plus(res), Io([ev] + ctx.events, nread, nwrite, nclose, entries[fd].value.idxplus1));
    }

    /** evmap_io_del_. */
    method IoDel(fd: int, ev: Event) returns (r: int)
      requires Valid() && ev.fd == fd && (0 <= fd < entries.Length ==> ev in EventsOf(fd))
      modifies this`changes, this`nChanges, this`kernel, this`disturbed, entries, changes
      ensures Valid() && (changes == old(changes) || fresh(changes))
      ensures r == -1 <==> fd >= entries.Length
      ensures EventsOf(fd) == if r == -1 then [] else Removed(old(EventsOf(fd)), ev)
      ensures ev !in EventsOf(fd)
      ensures r == 1 <==> 0 <= fd < entries.Length && Union(EventsOf(fd)) != Union(old(EventsOf(fd)))
      ensures r == -1 || r == 0 || r == 1
      ensures forall i :: i != fd ==> EventsOf(i) == old(EventsOf(i))
      ensures if changelist || r != 1 then kernel == old(kernel) && disturbed == old(disturbed)
        else disturbed == old(disturbed) - {fd}
    {
      hide Inv, WfIo, Count;
      if fd < 0 {
        return 0;
      }
      if fd >= entries.Length {
        return -1;
      }
      SlotOk(fd);
      var ctx := entries[fd].value;
      Counts(ctx, fd);
      RemovedCounts(ctx.events, ev);
      var was := ctx.Counted();
      var nread, nwrite, nclose, res := CountDown(ctx, ev.events);
      r := 0;
      if res != NONE {
        Tell(fd, was, res, EV_CHANGE_DEL);
        r := 1;
      }
      Shrunk(ctx, fd, ev, nread, nwrite, nclose, entries[fd].value.idxplus1);
      Store(fd, was.Minus(res), Io(Removed(ctx.events, ev), nread, nwrite, nclose, entries[fd].value.idxplus1));
    }

    /** Outside the library a descriptor is closed, or replaced by another file that may or may not be watched. */
    method Disturb(fd: nat, now: Option<Mask>)
      requires Valid()
      modifies this`kernel, this`disturbed
      ensures Valid() && disturbed == old(disturbed) + {fd}
      ensures kernel == if now.None? then old(kernel) - {fd} else old(kernel)[fd := now.value]
    {
      hide Agree;
      kernel := if now.None? then kernel - {fd} else kernel[fd := now.value];
      disturbed := disturbed + {fd};
    }

    /** epoll_apply_changes. */
    method ApplyChanges() returns (r: int)
      requires Valid()
      modifies this`kernel, this`disturbed
      ensures r == 0 && PartStep(entries[..], changes[..nChanges], kernel, disturbed, nChanges)
      ensures disturbed == old(disturbed) - Effective(changes[..nChanges])
    {
      hide Agree, InStep, PartStep, WfChange, AppliedTo;
      ghost var es, cs := entries[..], changes[..nChanges];
      NothingApplied(es, cs, kernel, disturbed);
      r := 0;
      var i: nat := 0;
      while i < nChanges
        invariant i <= nChanges && r == 0 && entries[..] == es && changes[..nChanges] == cs
        invariant PartStep(es, cs, kernel, disturbed, i)
        invariant disturbed == old(disturbed) - Effective(cs[..i])
      {
        ghost var before, hidden := kernel, disturbed;
        ChangesOk(es, cs, i);
        var one := ApplyOneChange(changes[i]);
        if one < 0 {
          r := -1;
        }
        PartStepNext(es, cs, before, hidden, i, kernel, disturbed);
        EffectiveNext(cs, i);
        Undisturbed(before, hidden, cs[i], kernel, disturbed);
        i := i + 1;
      }
      assert cs[..i] == cs;
    }

    /** event_changelist_remove_all_. */
    method RemoveAll()
      requires nChanges <= changes.Length && Agree(entries[..], changes[..nChanges], -1, NONE)
      modifies this`nChanges, entries
      ensures nChanges == 0 && entries[..] == Cleared(old(entries[..]), old(nChanges))
      ensures forall i :: EventsOf(i) == old(EventsOf(i))
    {
      hide Agree;
      ghost var es, cs := entries[..], changes[..nChanges];
      var i: nat := 0;
      assert entries[..] == Cleared(es, 0);
      while i < nChanges
        invariant
          && i <= nChanges == |cs|
          && changes[..nChanges] == cs
          && entries[..] == Cleared(es, i)
          && nChanges <= changes.Length
      {
        ClearedNext(es, cs, i);
        var fd := changes[i].fd;
        assert entries[..][fd] == entries[fd];
        ghost var before := entries[..];
        entries[fd] := Some(entries[fd].value.(idxplus1 := 0));
        assert entries[..] == before[fd := Some(es[fd].value.(idxplus1 := 0))];
        i := i + 1;
      }
      nChanges := 0;
      forall j ensures EventsOf(j) == old(EventsOf(j)) {
        if 0 <= j < entries.Length { assert entries[j] == entries[..][j] && old(entries[j]) == es[j]; }
      }
    }

    /**
     * The part of epoll_dispatch that brings the kernel up to date. Afterwards the kernel watches exactly what the
     * events want on every descriptor, whatever happened to those for which there was something to tell it.
     */
    method Dispatch() returns (r: int)
      requires Valid()
      modifies this`nChanges, this`kernel, this`disturbed, entries
      ensures Valid() && r == 0 && nChanges == 0
      ensures forall i :: EventsOf(i) == old(EventsOf(i))
      ensures disturbed == old(disturbed) - Effective(old(changes[..nChanges]))
      ensures forall i: nat :: i !in disturbed ==> Watched(kernel, i) == Union(EventsOf(i))
    {
      hide Agree, InStep, PartStep, Effective;
      ghost var es, cs := entries[..], changes[..nChanges];
      r := ApplyChanges();
      assert entries[..] == es && changes[..nChanges] == cs;
      RemoveAll();
      AllCleared(es, cs, kernel, disturbed);
      assert changes[..0] == [];
      Settled();
    }

    /** With no changes pending the kernel watches what the events want. */
    lemma Settled()
      requires Valid() && nChanges == 0
      ensures forall i: nat :: i !in disturbed ==> Watched(kernel, i) == Union(EventsOf(i))
    {
      hide Count, Union;
      forall i: nat | i !in disturbed ensures Watched(kernel, i) == Union(EventsOf(i)) {
        assert Watched(kernel, i) == Told(entries[..], changes[..nChanges], i, -1, NONE);
        if i < entries.Length && entries[i].Some? {
          assert entries[..][i] == entries[i];
          CountedIsUnion(entries[i].value, i);
        } else {
          NoUnion();
        }
      }
    }
  }

  lemma NoUnion()
    ensures Union([]) == NONE
  {
  }

  /** The descriptors for which the changes make the kernel do something. */
  ghost function Effective(cs: seq<Change>): set<nat> {
    set k | 0 <= k < |cs| && !Idle(cs[k]) :: cs[k].fd
  }

  lemma EffectiveNext(cs: seq<Change>, k: nat)
    requires k < |cs|
    ensures Effective(cs[..k + 1]) == Effective(cs[..k]) + if Idle(cs[k]) then {} else {cs[k].fd}
  {
    assert cs[..k + 1] == cs[..k] + [cs[k]];
    forall x | x in Effective(cs[..k]) ensures x in Effective(cs[..k + 1]) {
      var j :| 0 <= j < k && !Idle(cs[..k][j]) && cs[..k][j].fd == x;
      assert cs[..k + 1][j] == cs[..k][j];
    }
    if !Idle(cs[k]) { assert cs[..k + 1][k].fd in Effective(cs[..k + 1]); }
  }

  lemma Undisturbed(kernel: map<nat, Mask>, disturbed: set<nat>, ch: Change, kernel': map<nat, Mask>,
      disturbed': set<nat>)
    requires AppliedTo(kernel, disturbed, ch, kernel', disturbed')
    ensures disturbed' == disturbed - if Idle(ch) then {} else {ch.fd}
  {
  }

  lemma ChangesOk(es: IoMap, cs: seq<Change>, k: nat)
    requires Agree(es, cs, -1, NONE) && k < |cs|
    ensures WfChange(cs[k])
  {
    assert Owned(es, cs[k], k);
    assert LeadsTo(cs, k, cs[k].fd, Goal(es, cs[k].fd, -1, NONE));
  }

  /** Telling the kernel late and all at once, or at once and one by one, comes to the same. */
  lemma BackendsAgree(a: Base, b: Base)
    requires a.Valid() && b.Valid() && a.nChanges == 0 && b.nChanges == 0
    requires forall i: nat :: a.EventsOf(i) == b.EventsOf(i)
    ensures forall i: nat :: i !in a.disturbed && i !in b.disturbed ==> Watched(a.kernel, i) == Watched(b.kernel, i)
  {
    hide Agree, InStep;
    a.Settled();
    b.Settled();
    forall i: nat | i !in a.disturbed && i !in b.disturbed ensures Watched(a.kernel, i) == Watched(b.kernel, i) {
      assert a.EventsOf(i) == b.EventsOf(i);
    }
  }

  lemma Counts(io: Io, fd: int)
    requires WfIo(io, fd)
    ensures
      && io.nread == Count(io.events, Read)
      && io.nwrite == Count(io.events, Write)
      && io.nclose == Count(io.events, Close)
  {
  }

  lemma Limits(io: Io, fd: int, events: Mask)
    requires WfIo(io, fd)
    ensures (exists d :: events.Has(d) && Count(io.events, d) >= COUNT_LIMIT) <==>
      (events.r && io.nread >= COUNT_LIMIT) || (events.w && io.nwrite >= COUNT_LIMIT) ||
        (events.c && io.nclose >= COUNT_LIMIT)
    ensures io.nread <= COUNT_LIMIT && io.nwrite <= COUNT_LIMIT && io.nclose <= COUNT_LIMIT
  {
    assert events.r == events.Has(Read) && events.w == events.Has(Write) && events.c == events.Has(Close);
  }

  lemma Grown(io: Io, fd: int, ev: Event, nread: nat, nwrite: nat, nclose: nat, idxplus1: nat)
    requires WfIo(io, fd) && ev.fd == fd && forall e :: e in io.events ==> e.id != ev.id
    requires nread == io.nread + (if ev.events.r then 1 else 0) <= COUNT_LIMIT
    requires nwrite == io.nwrite + (if ev.events.w then 1 else 0) <= COUNT_LIMIT
    requires nclose == io.nclose + (if ev.events.c then 1 else 0) <= COUNT_LIMIT
    ensures WfIo(Io([ev] + io.events, nread, nwrite, nclose, idxplus1), fd)
  {
    AddedCounts(io.events, ev);
  }

  lemma Shrunk(io: Io, fd: int, ev: Event, nread: nat, nwrite: nat, nclose: nat, idxplus1: nat)
    requires WfIo(io, fd) && ev in io.events
    requires nread == io.nread - (if ev.events.r then 1 else 0)
    requires nwrite == io.nwrite - (if ev.events.w then 1 else 0)
    requires nclose == io.nclose - (if ev.events.c then 1 else 0)
    ensures var io' := Io(Removed(io.events, ev), nread, nwrite, nclose, idxplus1);
      WfIo(io', fd) && io'.Counted() == Union(io'.events) && ev !in io'.events
  {
    RemovedCounts(io.events, ev);
    CountedIsUnion(Io(Removed(io.events, ev), nread, nwrite, nclose, idxplus1), fd);
  }

  /** A deletion undoes an addition that the kernel has not been told of. */
  lemma Deleted(ch: Change, events: Mask)
    requires WfChange(ch)
    ensures var read := if events.r then (if !ch.was.r then 0 else EV_CHANGE_DEL) else ch.read;
      var write := if events.w then (if !ch.was.w then 0 else EV_CHANGE_DEL) else ch.write;
      var close := if events.c then (if !ch.was.c then 0 else EV_CHANGE_DEL) else ch.close;
      var ch' := Change(ch.fd, ch.was, read, write, close);
      WfChange(ch') && Applied(ch') == Applied(ch).Minus(events)
  {
  }

  lemma Leads(es: IoMap, cs: seq<Change>, fd: nat, m: Mask)
    requires Agree(es, cs, fd, m) && fd < |es| && es[fd].Some? && es[fd].value.idxplus1 > 0
    ensures var k := es[fd].value.idxplus1 - 1; k < |cs| && cs[k].fd == fd && WfChange(cs[k]) && Applied(cs[k]) == m
  {
    assert LeadsTo(cs, es[fd].value.idxplus1 - 1, fd, Goal(es, fd, fd, m));
  }

  /** Without a changelist the kernel is told at once. */
  lemma Direct(es: IoMap, kernel: map<nat, Mask>, disturbed: set<nat>, fd: nat, was: Mask, ch: Change,
      kernel': map<nat, Mask>, disturbed': set<nat>)
    requires Agree(es, [], fd, was) && InStep(es, [], kernel, disturbed, fd, was) && ch.fd == fd && !Idle(ch)
    requires AppliedTo(kernel, disturbed, ch, kernel', disturbed')
    ensures Agree(es, [], fd, Applied(ch)) && InStep(es, [], kernel', disturbed', fd, Applied(ch))
    ensures disturbed' == disturbed - {fd}
  {
    hide WfIo, Applied;
    assert forall i :: 0 <= i < |es| && es[i].Some? ==> es[i].value.idxplus1 == 0;
    forall i: nat | i !in disturbed' ensures Watched(kernel', i) == Told(es, [], i, fd, Applied(ch)) {
      if i != fd { assert Watched(kernel, i) == Told(es, [], i, fd, was); }
    }
  }

  /** What may happen to a base: calls of the user and of the dispatcher, and descriptors that become other files. */
  datatype Step = AddEvent(ev: Event) | DelEvent(ev: Event) | Replaced(fd: nat, now: Option<Mask>) | Dispatched

  ghost function OnFd(all: seq<Event>, fd: int): seq<Event> {
    if all == [] then [] else (if all[0].fd == fd then [all[0]] else []) + OnFd(all[1..], fd)
  }

  /** The events that are added after a step. */
  ghost function Next(all: seq<Event>, step: Step): seq<Event> {
    match step
    case AddEvent(ev) => [ev] + all
    case DelEvent(ev) => Removed(all, ev)
    case _ => all
  }

  /** The steps can be taken: only new events are added, none too many, and only added events are deleted. */
  ghost predicate Legal(all: seq<Event>, steps: seq<Step>)
    decreases |steps|
  {
    steps != [] ==>
      && match steps[0] {
           case AddEvent(ev) =>
             && ev.fd >= 0
             && (forall e :: e in all ==> e.id != ev.id)
             && forall d :: Count(OnFd(all, ev.fd), d) < COUNT_LIMIT
           case DelEvent(ev) => ev in all && ev.fd >= 0
           case _ => true
         }
      && Legal(Next(all, steps[0]), steps[1..])
  }

  ghost function After(all: seq<Event>, steps: seq<Step>): seq<Event>
    decreases |steps|
  {
    if steps == [] then all else After(Next(all, steps[0]), steps[1..])
  }

  lemma {:induction false} OnFdIn(all: seq<Event>, fd: int)
    ensures forall e :: e in OnFd(all, fd) <==> e in all && e.fd == fd
  {
    if all != [] { OnFdIn(all[1..], fd); }
  }

  lemma {:induction false} OnFdRemoved(all: seq<Event>, ev: Event, fd: int)
    ensures OnFd(Removed(all, ev), fd) == if fd == ev.fd then Removed(OnFd(all, fd), ev) else OnFd(all, fd)
  {
    if all != [] {
      var e, rest := all[0], all[1..];
      assert OnFd(all, fd) == (if e.fd == fd then [e] else []) + OnFd(rest, fd);
      if e != ev {
        OnFdRemoved(rest, ev, fd);
        OnFdAdded(Removed(rest, ev), e, fd);
        RemovedFront(e, OnFd(rest, fd), ev);
      } else if e.fd == fd {
        RemovedFront(e, OnFd(rest, fd), ev);
      } else {
        assert [] + OnFd(rest, fd) == OnFd(rest, fd);
      }
    }
  }

  lemma RemovedFront(e: Event, s: seq<Event>, ev: Event)
    ensures Removed([e] + s, ev) == if e == ev then s else [e] + Removed(s, ev)
    ensures [] + s == s
  {
    assert ([e] + s)[1..] == s;
  }

  lemma OnFdAdded(all: seq<Event>, ev: Event, fd: int)
    ensures OnFd([ev] + all, fd) == (if fd == ev.fd then [ev] else []) + OnFd(all, fd)
  {
    assert ([ev] + all)[1..] == all;
  }

  /** The union of the events on a descriptor has exactly the directions that one of them wants. */
  lemma UnionMeans(all: seq<Event>, fd: int, d: Dir)
    ensures Union(OnFd(all, fd)).Has(d) <==> exists e :: e in all && e.fd == fd && e.events.Has(d)
  {
    hide OnFd, Union;
    OnFdIn(all, fd);
    UnionHas(OnFd(all, fd), d);
  }

  lemma {:induction false} UnionHas(events: seq<Event>, d: Dir)
    ensures Union(events).Has(d) <==> exists e :: e in events && e.events.Has(d)
  {
    if events != [] {
      UnionHas(events[1..], d);
      assert forall e :: e in events <==> e == events[0] || e in events[1..];
    }
  }

  ghost predicate IsReplaced(steps: seq<Step>, fd: int) {
    exists i :: 0 <= i < |steps| && steps[i].Replaced? && steps[i].fd == fd
  }

  /**
   * Any run of steps on either kind of base leaves the events that the run says. When nothing is pending, as after a
   * dispatch and always without a changelist, the kernel watches what these events want on every undisturbed
   * descriptor.
   */
  method Run(base: Base, steps: seq<Step>, ghost all: seq<Event>)
    requires base.Valid() && Legal(all, steps) && forall fd :: base.EventsOf(fd) == OnFd(all, fd)
    modifies base, base.entries, base.changes
    ensures base.Valid()
    ensures base.entries == old(base.entries) || fresh(base.entries)
    ensures base.changes == old(base.changes) || fresh(base.changes)
    ensures forall fd :: base.EventsOf(fd) == OnFd(After(all, steps), fd)
    ensures forall fd :: fd in base.disturbed ==> fd in old(base.disturbed) || IsReplaced(steps, fd)
    ensures !base.changelist || (steps != [] && steps[|steps| - 1].Dispatched?) ==> base.nChanges == 0
    ensures base.nChanges == 0 ==>
      forall fd: nat :: fd !in base.disturbed ==> Watched(base.kernel, fd) == Union(OnFd(After(all, steps), fd))
  {
    hide Base.Valid, Count, Union, Legal, After;
    ghost var now := all;
    var i: nat := 0;
    assert steps[0..] == steps;
    while i < |steps|
      invariant base.Valid() && i <= |steps| && Legal(now, steps[i..]) && After(now, steps[i..]) == After(all, steps)
      invariant base.entries == old(base.entries) || fresh(base.entries)
      invariant base.changes == old(base.changes) || fresh(base.changes)
      invariant forall fd :: base.EventsOf(fd) == OnFd(now, fd)
      invariant forall fd :: fd in base.disturbed ==> fd in old(base.disturbed) || IsReplaced(steps[..i], fd)
      invariant i > 0 && steps[i - 1].Dispatched? ==> base.nChanges == 0
    {
      assert steps[i..][1..] == steps[i + 1..] && steps[i..][0] == steps[i];
      StepLegal(now, steps[i..]);
      TakeStep(base, steps[i], now, steps[i..]);
      now := Next(now, steps[i]);
      ReplacedOn(steps, i);
      i := i + 1;
    }
    NoMore(now, steps[i..]);
    assert steps[..i] == steps;
    NoPending(base);
    if base.nChanges == 0 {
      base.Settled();
    }
  }

  lemma StepLegal(all: seq<Event>, steps: seq<Step>)
    requires Legal(all, steps) && steps != []
    ensures Legal(Next(all, steps[0]), steps[1..]) && After(all, steps) == After(Next(all, steps[0]), steps[1..])
  {
  }

  lemma NoMore(all: seq<Event>, steps: seq<Step>)
    ensures steps == [] ==> After(all, steps) == all
  {
  }

  lemma ReplacedOn(steps: seq<Step>, i: nat)
    requires i < |steps|
    ensures forall fd :: IsReplaced(steps[..i], fd) ==> IsReplaced(steps[..i + 1], fd)
    ensures steps[i].Replaced? ==> IsReplaced(steps[..i + 1], steps[i].fd)
  {
    forall fd | IsReplaced(steps[..i], fd) ensures IsReplaced(steps[..i + 1], fd) {
      var j :| 0 <= j < i && steps[..i][j].Replaced? && steps[..i][j].fd == fd;
      assert steps[..i + 1][j] == steps[..i][j];
    }
    assert steps[..i + 1][i] == steps[i];
  }

  lemma NoPending(base: Base)
    requires base.Valid()
    ensures !base.changelist ==> base.nChanges == 0
  {
  }

  /**
   * The same run on a base with a changelist and on one without, dispatched at the end: on every descriptor that no
   * other file took over, both kernels watch what the events want, however the run went and wherever it was dispatched
   * before.
   */
  method RunBoth(late: Base, direct: Base, steps: seq<Step>, ghost all: seq<Event>)
    requires late.Valid() && direct.Valid() && late.changelist && !direct.changelist
    requires {late, late.entries, late.changes} !! {direct, direct.entries, direct.changes}
    requires
      && Legal(all, steps)
      && forall fd :: late.EventsOf(fd) == OnFd(all, fd) && direct.EventsOf(fd) == OnFd(all, fd)
    requires steps != [] && steps[|steps| - 1] == Dispatched
    modifies late, late.entries, late.changes, direct, direct.entries, direct.changes
    ensures late.Valid() && direct.Valid()
    ensures forall fd: nat :: fd !in old(late.disturbed) && fd !in old(direct.disturbed) && !IsReplaced(steps, fd) ==>
      Watched(late.kernel, fd) == Watched(direct.kernel, fd) == Union(OnFd(After(all, steps), fd))
    ensures forall fd: nat :: fd !in late.disturbed ==> Watched(late.kernel, fd) == Union(OnFd(After(all, steps), fd))
    ensures forall fd: nat :: fd !in direct.disturbed ==>
      Watched(direct.kernel, fd) == Union(OnFd(After(all, steps), fd))
  {
    hide Base.Valid, Union, Legal, After, OnFd;
    Run(late, steps, all);
    assert forall fd :: direct.EventsOf(fd) == OnFd(all, fd);
    Run(direct, steps, all);
  }

  method TakeStep(base: Base, step: Step, ghost all: seq<Event>, ghost steps: seq<Step>)
    requires
      && base.Valid()
      && steps != []
      && step == steps[0]
      && Legal(all, steps)
      && forall fd :: base.EventsOf(fd) == OnFd(all, fd)
    modifies base, base.entries, base.changes
    ensures base.Valid()
    ensures base.entries == old(base.entries) || fresh(base.entries)
    ensures base.changes == old(base.changes) || fresh(base.changes)
    ensures forall fd :: base.EventsOf(fd) == OnFd(Next(all, step), fd)
    ensures base.disturbed <= old(base.disturbed) + if step.Replaced? then {step.fd} else {}
    ensures step.Dispatched? ==> base.nChanges == 0
  {
    hide Base.Valid, Count, OnFd, Removed;
    match step {
      case AddEvent(ev) =>
        OnFdIn(all, ev.fd);
        forall fd
          ensures OnFd([ev] + all, fd) == (if fd == ev.fd then [ev] else []) + OnFd(all, fd)
        {
          OnFdAdded(all, ev, fd);
        }
        var r := base.IoAdd(ev.fd, ev);
      case DelEvent(ev) =>
        OnFdIn(all, ev.fd);
        forall fd
          ensures OnFd(Removed(all, ev), fd) == (if fd == ev.fd then Removed(OnFd(all, fd), ev) else OnFd(all, fd))
        {
          OnFdRemoved(all, ev, fd);
        }
        assert ev in base.EventsOf(ev.fd);
        var r := base.IoDel(ev.fd, ev);
      case Replaced(fd, now) =>
        base.Disturb(fd, now);
      case Dispatched =>
        var r := base.Dispatch();
    }
  }
}
