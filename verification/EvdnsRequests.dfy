/** The requests and name servers of an evdns base: circular lists, hash buckets and counters (evdns.c). */
module EvdnsRequests {
  import opened Bytes

  /** struct nameserver; `next` leads around the circle of servers. */
  class Server {
    var next: Server?
    /** Whether the server is thought to be up. */
    var up: bool
    var inflight: int
    var failedTimes: nat

    constructor ()
      ensures next == null && up && inflight == 0 && failedTimes == 0
    {
      next, up, inflight, failedTimes := null, true, 0, 0;
    }
  }

  /** struct request. */
  class Request {
    var next: Request?
    var prev: Request?
    var transId: nat
    var ns: Server?
    var txCount: nat

    constructor (transId: nat, ns: Server?)
      ensures next == null && prev == null && this.transId == transId && this.ns == ns && txCount == 0
    {
      next, prev, txCount := null, null, 0;
      this.transId, this.ns := transId, ns;
    }
  }

  ghost predicate NoDup<T>(q: seq<T>) {
    forall i, j :: 0 <= i < j < |q| ==> q[i] != q[j]
  }

  function After(i: nat, n: nat): nat {
    if i + 1 == n then 0 else i + 1
  }

  function Before(i: nat, n: nat): nat {
    if i == 0 then if n == 0 then 0 else n - 1 else i - 1
  }

  /** `head` is the first of the requests `q`, which are linked in a circle. */
  ghost predicate Ring(head: Request?, q: seq<Request>)
    reads q`next, q`prev
  {
    Links(head, q)
  }

  ghost predicate Links(head: Request?, q: seq<Request>)
    reads q`next, q`prev
  {
    && head == (if q == [] then null else q[0])
    && NoDup(q)
    && (forall i {:trigger q[i].next} :: 0 <= i < |q| ==> q[i].next == q[After(i, |q|)])
    && (forall i {:trigger q[i].prev} :: 0 <= i < |q| ==> q[i].prev == q[Before(i, |q|)])
  }

  function Without<T>(q: seq<T>, k: nat): seq<T>
    requires k < |q|
  {
    q[..k] + q[k + 1..]
  }

  lemma WithoutFacts<T>(q: seq<T>, k: nat)
    requires k < |q| && NoDup(q)
    ensures NoDup(Without(q, k)) && |Without(q, k)| == |q| - 1 && q[k] !in Without(q, k)
    ensures forall i :: 0 <= i < |q| - 1 ==> Without(q, k)[i] == q[if i < k then i else i + 1]
  {
  }

  /** evdns_request_insert. */
  method RingInsert(req: Request, head: Request?, ghost q: seq<Request>) returns (head': Request)
    requires Ring(head, q) && req !in q
    modifies req`next, req`prev, q`next, q`prev
    ensures Ring(head', q + [req]) && head' == if q == [] then req else q[0]
  {
    if head == null {
      req.next, req.prev := req, req;
      return req;
    }
    ghost var n := |q|;
    assert q[0].prev == q[n - 1];
    req.prev := head.prev;
    req.prev.next := req;
    req.next := head;
    head.prev := req;
    head' := head;
    RingGrown(head, q, req);
  }

  /** The links around a request that was put behind the last one. */
  lemma RingGrown(head: Request, q: seq<Request>, req: Request)
    requires q != [] && head == q[0] && NoDup(q) && req !in q
    requires forall i {:trigger q[i].next} :: 0 <= i < |q| - 1 ==> q[i].next == q[i + 1]
    requires forall i {:trigger q[i].prev} :: 0 < i < |q| ==> q[i].prev == q[i - 1]
    requires q[|q| - 1].next == req && req.next == q[0] && req.prev == q[|q| - 1] && q[0].prev == req
    ensures Ring(head, q + [req])
  {
  }

  /** evdns_request_remove for the request at `k`. */
  method RingRemove(req: Request, head: Request?, ghost q: seq<Request>, ghost k: nat) returns (head': Request?)
    requires Ring(head, q) && k < |q| && req == q[k]
    modifies q`next, q`prev
    ensures Ring(head', Without(q, k)) && req.next == null && req.prev == null
  {
    ghost var n := |q|;
    head' := head;
    assert req.next == q[After(k, n)] && req.prev == q[Before(k, n)];
    if req.next == req {
      head' := null;
      req.next, req.prev := null, null;
    } else {
      req.next.prev := req.prev;
      req.prev.next := req.next;
      if head == req {
        head' := req.next;
      }
      req.next, req.prev := null, null;
      RingShrunk(head', q, k);
    }
  }

  lemma RingShrunk(head: Request?, q: seq<Request>, k: nat)
    requires 2 <= |q| && k < |q| && NoDup(q) && head == (if k == 0 then q[1] else q[0])
    requires forall i {:trigger q[i].next} :: 0 <= i < |q| && i != k && i != Before(k, |q|) ==>
      q[i].next == q[After(i, |q|)]
    requires forall i {:trigger q[i].prev} :: 0 <= i < |q| && i != k && i != After(k, |q|) ==>
      q[i].prev == q[Before(i, |q|)]
    requires q[Before(k, |q|)].next == q[After(k, |q|)] && q[After(k, |q|)].prev == q[Before(k, |q|)]
    ensures Ring(head, Without(q, k))
  {
    WithoutFacts(q, k);
    var r, n := Without(q, k), |q|;
    forall i {:trigger r[i].next} | 0 <= i < n - 1 ensures r[i].next == r[After(i, n - 1)] {
      var j := if i < k then i else i + 1;
      assert r[i] == q[j] && r[After(i, n - 1)] == q[if After(j, n) == k then After(k, n) else After(j, n)];
    }
    forall i {:trigger r[i].prev} | 0 <= i < n - 1 ensures r[i].prev == r[Before(i, n - 1)] {
      var j := if i < k then i else i + 1;
      assert r[i] == q[j] && r[Before(i, n - 1)] == q[if Before(j, n) == k then Before(k, n) else Before(j, n)];
    }
  }

  /** `head` is the first of the servers `q`, which are linked in a circle. */
  ghost predicate Circle(head: Server?, q: seq<Server>)
    reads q`next
  {
    CircleLinks(head, q)
  }

  ghost predicate CircleLinks(head: Server?, q: seq<Server>)
    reads q`next
  {
    && head == (if q == [] then null else q[0])
    && NoDup(q)
    && (forall i {:trigger q[i].next} :: 0 <= i < |q| ==> q[i].next == q[After(i, |q|)])
  }

  /** The circle seen from `k` places further on. */
  function Turned<T>(q: seq<T>, k: nat): (r: seq<T>)
    requires k <= |q|
    ensures |r| == |q|
  {
    q[k..] + q[..k]
  }

  /** The links after a server was put behind the head. */
  lemma CircleGrown(head: Server, q: seq<Server>, ns: Server)
    requires q != [] && head == q[0] && NoDup(q) && ns !in q
    requires forall i {:trigger q[i].next} :: 0 < i < |q| ==> q[i].next == q[After(i, |q|)]
    requires q[0].next == ns && ns.next == q[After(0, |q|)]
    ensures Circle(head, [q[0], ns] + q[1..])
  {
    var r := [q[0], ns] + q[1..];
    assert forall i :: 2 <= i < |r| ==> r[i] == q[i - 1];
  }

  lemma CircleTurned(head: Server?, q: seq<Server>, k: nat)
    requires Circle(head, q) && k < |q|
    ensures Circle(q[k], Turned(q, k)) && Circle(head, q)
    ensures forall s :: s in Turned(q, k) <==> s in q
  {
    var r, n := Turned(q, k), |q|;
    forall i {:trigger r[i].next} | 0 <= i < n ensures r[i].next == r[After(i, n)] {
      var j := if i + k < n then i + k else i + k - n;
      assert r[i] == q[j];
    }
    assert q == q[..k] + q[k..];
  }

  /** The servers that are up, in order. */
  ghost function UpIn(q: seq<Server>): seq<Server>
    reads q`up
  {
    if q == [] then [] else (if q[0].up then [q[0]] else []) + UpIn(q[1..])
  }

  lemma {:induction false} UpInConcat(a: seq<Server>, b: seq<Server>)
    ensures UpIn(a + b) == UpIn(a) + UpIn(b)
  {
    if a == [] {
      assert a + b == b;
    } else {
      UpInConcat(a[1..], b);
      assert (a + b)[1..] == a[1..] + b;
    }
  }

  lemma {:induction false} UpInFacts(q: seq<Server>)
    requires NoDup(q)
    ensures forall s :: s in UpIn(q) <==> s in q && s.up
    ensures NoDup(UpIn(q)) && |UpIn(q)| <= |q|
  {
    if q != [] {
      assert NoDup(q[1..]);
      UpInFacts(q[1..]);
      assert q[0] !in q[1..];
    }
  }

  lemma {:induction false} NoneUp(q: seq<Server>)
    requires forall i :: 0 <= i < |q| ==> !q[i].up
    ensures UpIn(q) == []
  {
    if q != [] { NoneUp(q[1..]); }
  }

  /** Behind the first server that is up the others that are up come in the same order. */
  lemma TurnedPastUp(q: seq<Server>, k: nat)
    requires k < |q| && q[k].up && forall i :: 0 <= i < k ==> !q[i].up
    ensures UpIn(q) != [] && UpIn(q)[0] == q[k]
    ensures UpIn(Turned(q, if k + 1 == |q| then 0 else k + 1)) == Turned(UpIn(q), 1)
  {
    var m := if k + 1 == |q| then 0 else k + 1;
    NoneUp(q[..k]);
    assert q == q[..k] + [q[k]] + q[k + 1..];
    UpInConcat(q[..k] + [q[k]], q[k + 1..]);
    UpInConcat(q[..k], [q[k]]);
    assert UpIn([q[k]]) == [q[k]];
    assert UpIn(q) == [q[k]] + UpIn(q[k + 1..]);
    if m == 0 {
      assert Turned(q, 0) == q && q[k + 1..] == [];
      assert UpIn(q) == [q[k]] == Turned(UpIn(q), 1);
    } else {
      assert q[..m] == q[..k] + [q[k]];
      UpInConcat(q[m..], q[..m]);
      assert Turned(UpIn(q), 1) == UpIn(q[m..]) + [q[k]];
    }
  }

  /** The servers in the order in which they are picked: those that are up, or all from the second one on if none is. */
  ghost function Order(q: seq<Server>): (r: seq<Server>)
    requires q != []
    reads q`up
    ensures r != []
  {
    if UpIn(q) != [] then UpIn(q) else Turned(q, 1)
  }

  /** The server that pick number `i` from now on returns. */
  ghost function Nth(q: seq<Server>, i: nat): Server
    requires q != []
    reads q`up
  {
    Order(q)[i % |Order(q)|]
  }

  /** The circle `r` goes on where `k` picks leave the circle `q`. */
  ghost predicate Follows(q: seq<Server>, r: seq<Server>, k: nat)
    reads q`up, r`up
  {
    q != [] && r != [] && forall i: nat :: Nth(r, i) == Nth(q, i + k)
  }

  lemma FollowsSelf(q: seq<Server>)
    requires q != []
    ensures Follows(q, q, 0)
  {
    hide Nth;
  }

  lemma FollowsMore(q: seq<Server>, r: seq<Server>, t: seq<Server>, k: nat, l: nat)
    requires Follows(q, r, k) && Follows(r, t, l)
    ensures Follows(q, t, k + l)
  {
    hide Nth;
    forall i: nat ensures Nth(t, i) == Nth(q, i + (k + l)) {
      assert Nth(t, i) == Nth(r, i + l) == Nth(q, i + l + k);
    }
  }

  lemma ModNext(i: nat, n: nat)
    requires n > 0
    ensures (i + 1) % n == if i % n + 1 == n then 0 else i % n + 1
    ensures (i + 1) / n == i / n + if i % n + 1 == n then 1 else 0
  {
    var q, r := i / n, i % n;
    assert i == q * n + r;
    if r + 1 == n {
      assert i + 1 == (q + 1) * n;
      DivOnce(i + 1, n, q + 1, 0);
    } else {
      DivOnce(i + 1, n, q, r + 1);
    }
  }

  /** A pick turns the order by one place. */
  lemma OrderTurned(q: seq<Server>, r: seq<Server>)
    requires q != [] && r != [] && Order(r) == Turned(Order(q), 1)
    ensures Follows(q, r, 1)
  {
    hide Order;
    var u := Order(q);
    forall i: nat ensures Nth(r, i) == Nth(q, i + 1) {
      ModNext(i, |u|);
    }
  }

  lemma FirstInOrder(q: seq<Server>)
    requires q != []
    ensures Nth(q, 0) == Order(q)[0]
  {
    ModZero(|Order(q)|);
  }

  lemma ModZero(n: nat)
    requires n > 0
    ensures 0 % n == 0
  {
  }

  /** The first `n` requests were given to the servers in turn. */
  ghost predicate InTurn(w: seq<Request>, n: nat, q: seq<Server>)
    reads w`ns, q`up
  {
    n <= |w| && forall i :: 0 <= i < n ==> q != [] && w[i].ns == Nth(q, i)
  }

  lemma InTurnMore(w: seq<Request>, n: nat, q: seq<Server>, now: seq<Server>)
    requires n < |w| && q != [] && (forall i :: 0 <= i < n ==> w[i].ns == Nth(q, i)) && Follows(q, now, n)
    requires now != [] && w[n].ns == Nth(now, 0)
    ensures InTurn(w, n + 1, q)
  {
    hide Nth;
    assert Nth(now, 0) == Nth(q, 0 + n);
  }

  /** The requests that a server is working on. */
  ghost function Of(inflight: set<Request>, s: Server?): set<Request>
    reads inflight`ns
  {
    set r | r in inflight && r.ns == s
  }

  /** A request adds to the load of its own server only. */
  lemma OfAdded(inflight: set<Request>, req: Request, s: Server?)
    requires req !in inflight
    ensures Of(inflight + {req}, s) == Of(inflight, s) + if req.ns == s then {req} else {}
    ensures |Of(inflight + {req}, s)| == |Of(inflight, s)| + if req.ns == s then 1 else 0
  {
  }

  ghost function UpSet(q: seq<Server>): set<Server>
    reads q`up
  {
    set s | s in q && s.up
  }

  lemma {:induction false} DistinctCount<T>(q: seq<T>, t: set<T>)
    requires NoDup(q) && forall x :: x in q <==> x in t
    ensures |q| == |t|
  {
    if q == [] {
      assert t == {};
    } else {
      assert q[0] !in q[1..] by { assert forall i :: 0 <= i < |q[1..]| ==> q[1..][i] == q[i + 1]; }
      assert NoDup(q[1..]);
      assert forall x :: x in q <==> x == q[0] || x in q[1..];
      DistinctCount(q[1..], t - {q[0]});
    }
  }

  lemma UpSetGrown(q: seq<Server>, r: seq<Server>, ns: Server)
    requires ns.up && ns !in q && r == if q == [] then [ns] else [q[0], ns] + q[1..]
    ensures UpSet(r) == UpSet(q) + {ns} && ns !in UpSet(q)
  {
    if q != [] {
      assert q == [q[0]] + q[1..];
    }
  }

  lemma UpCount(q: seq<Server>)
    requires NoDup(q)
    ensures |UpIn(q)| == |UpSet(q)|
  {
    UpInFacts(q);
    DistinctCount(UpIn(q), UpSet(q));
  }

  /** Each server counts the requests of `inflight` that it is working on. */
  ghost predicate LoadsAre(servers: set<Server>, inflight: set<Request>)
    reads inflight`ns, servers`inflight
  {
    LoadsCount(servers, inflight)
  }

  ghost predicate LoadsCount(servers: set<Server>, inflight: set<Request>)
    reads inflight`ns, servers`inflight
  {
    forall s :: s in servers ==> s.inflight == |Of(inflight, s)|
  }

  ghost predicate OwnIds(inflight: set<Request>)
    reads inflight`transId
  {
    forall r :: r in inflight ==> r.transId < 0xffff
  }

  /** No two requests have the same id. */
  ghost predicate Different(inflight: set<Request>)
    reads inflight`transId
  {
    forall r, q :: r in inflight && q in inflight && r.transId == q.transId ==> r == q
  }

  lemma DifferentMore(inflight: set<Request>, req: Request)
    requires req !in inflight
    ensures Different(inflight + {req}) <==>
      Different(inflight) && forall r :: r in inflight ==> r.transId != req.transId
  {
    if Different(inflight + {req}) {
      forall r | r in inflight ensures r.transId != req.transId {
        assert r in inflight + {req} && req in inflight + {req};
      }
    }
  }

  lemma OwnIdsMore(inflight: set<Request>, req: Request)
    requires OwnIds(inflight) && req.transId < 0xffff
    ensures OwnIds(inflight + {req})
  {
  }

  lemma OwnIdsLess(inflight: set<Request>, req: Request)
    requires OwnIds(inflight)
    ensures OwnIds(inflight - {req})
  {
  }

  /** The requests in flight have a known server, those that wait have none. */
  ghost predicate Held(inflight: set<Request>, waiting: seq<Request>, known: set<Server>)
    reads inflight`ns, waiting`ns
  {
    && (forall r :: r in inflight ==> r.ns != null && r.ns in known)
    && (forall r :: r in waiting ==> r.ns == null)
  }

  lemma HeldMore(inflight: set<Request>, waiting: seq<Request>, known: set<Server>, req: Request)
    requires Held(inflight, waiting, known) && req.ns != null && req.ns in known
    ensures Held(inflight + {req}, waiting, known)
  {
  }

  lemma LoadsIn(servers: set<Server>, inflight: set<Request>, ns: Server)
    requires LoadsAre(servers, inflight) && ns.inflight == 0 && Of(inflight, ns) == {}
    ensures LoadsAre(servers + {ns}, inflight)
  {
  }

  /**
   * How many of `w` waiting requests go in flight when `g` are: none without a server, else as many as there is room
   * for.
   */
  function Fits(g: int, max: int, w: nat, some: bool): (n: nat)
    ensures n <= w && (n > 0 ==> g + n <= max)
    ensures some ==> g + n >= max || n == w
  {
    if g >= max || !some then 0 else if w < max - g then w else max - g
  }

  lemma FitsIs(g: int, max: int, w: nat, some: bool, n: nat)
    requires n <= w && (n > 0 ==> some && g + n <= max) && (some ==> g + n >= max || n == w)
    ensures n == Fits(g, max, w, some)
  {
  }

  /** The first `n` requests have the first `n` ids. */
  ghost predicate Drawn(w: seq<Request>, n: nat, ids: seq<nat>)
    reads w`transId
  {
    n <= |w| && n <= |ids| && forall i :: 0 <= i < n ==> w[i].transId == ids[i]
  }

  ghost predicate UnusedBy(inflight: set<Request>, ids: seq<nat>)
    reads inflight`transId
  {
    && NoDup(ids) && (forall i :: 0 <= i < |ids| ==> ids[i] < 0xffff)
    && forall r, i :: r in inflight && 0 <= i < |ids| ==> r.transId != ids[i]
  }

  /** An evdns base. */
  class Base {
    var heads: array<Request?>
    var waitingHead: Request?
    var serverHead: Server?
    var globalInflight: int
    var globalWaiting: int
    var good: int
    var maxInflight: int
    /** The requests in each bucket, and those that wait for a server. */
    ghost var buckets: seq<seq<Request>>
    ghost var waiting: seq<Request>
    ghost var inflight: set<Request>
    /** The servers in the order of the circle, from `serverHead` on. */
    ghost var servers: seq<Server>
    ghost var known: set<Server>

    /**
     * Each request is linked once: in the bucket of its transaction id when it is in flight, or in the waiting list.
     */
    ghost predicate Linked()
      reads `buckets, `heads, heads, `waitingHead, `waiting, `inflight
      reads inflight`next, inflight`prev, inflight`transId, waiting`next, waiting`prev
    {
      && Table(heads, buckets, inflight)
      && Ring(waitingHead, waiting)
      && (forall r :: r in waiting ==> r !in inflight)
    }

    /** The requests in flight have ids. */
    ghost predicate IdsOk()
      reads `inflight, inflight`transId
    {
      OwnIds(inflight)
    }

    /** No two requests in flight have the same id. All operations but SearchNext keep this. */
    ghost predicate Distinct()
      reads `inflight, inflight`transId
    {
      Different(inflight)
    }

    /** The counters equal the lengths of the lists they count. */
    ghost predicate Counts()
      reads `globalInflight, `globalWaiting, `inflight, `waiting
    {
      globalInflight == |inflight| && globalWaiting == |waiting|
    }

    ghost predicate Assigned()
      reads `inflight, `known, `waiting, inflight`ns, waiting`ns
    {
      Held(inflight, waiting, known)
    }

    ghost predicate ServersOk()
      reads `servers, `serverHead, `good, `known, servers`next, servers`up
    {
      && Circle(serverHead, servers) && GoodCount()
      && (forall s :: s in servers ==> s in known)
      && (forall s :: s in known ==> s in servers)
    }

    ghost predicate GoodCount()
      reads `servers, `good, servers`up
    {
      good == |UpSet(servers)|
    }

    /** Everything but the loads of the servers. */
    ghost predicate Rest()
      reads this, heads, inflight`next, inflight`prev, inflight`transId, inflight`ns, waiting`next, waiting`prev
      reads waiting`ns
      reads servers`next, servers`up
    {
      Linked() && IdsOk() && Counts() && Assigned() && ServersOk()
    }

    /** The servers' loads count the requests of `loads`. */
    ghost predicate ValidBut(loads: set<Request>)
      reads this, heads, inflight, waiting, servers, known, loads
    {
      Rest() && LoadsAre(known, loads)
    }

    ghost predicate Valid()
      reads this, heads, inflight, waiting, servers, known
    {
      ValidBut(inflight)
    }

    /** evdns_base_new. */
    constructor ()
      ensures
        && Valid()
        && inflight == {}
        && waiting == []
        && servers == []
        && known == {}
        && maxInflight == 64
        && fresh(heads)
    {
      maxInflight := 64;
      heads := new Request?[13](_ => null);
      waitingHead, serverHead := null, null;
      globalInflight, globalWaiting, good := 0, 0, 0;
      buckets := Empties(13);
      waiting, inflight, servers, known := [], {}, [], {};
    }

    /** The end of evdns_nameserver_add_impl_: a new server comes next after the head. */
    method AddServer() returns (ns: Server)
      requires Valid()
      modifies `serverHead, `servers, `known, `good, servers`next
      ensures Valid() && fresh(ns) && ns.up && known == old(known) + {ns}
      ensures servers == if old(servers) == [] then [ns] else [old(servers)[0], ns] + old(servers)[1..]
      ensures UpSet(servers) == old(UpSet(servers)) + {ns}
    {
      hide Linked, IdsOk, Counts, Assigned, ServersOk, LoadsCount, UpSet, Of;
      ns := new Server();
      NoLoadYet(ns);
      LinkServer(ns);
      assert Linked() && IdsOk() && Counts() && LoadsAre(old(known), inflight);
      LoadsIn(old(known), inflight, ns);
      HeldThen(old(known), ns);
    }

    method LinkServer(ns: Server)
      requires ServersOk() && ns !in known && ns.up
      modifies `serverHead, `servers, `known, `good, servers`next, ns`next
      ensures ServersOk() && known == old(known) + {ns}
      ensures servers == if old(servers) == [] then [ns] else [old(servers)[0], ns] + old(servers)[1..]
      ensures UpSet(servers) == old(UpSet(servers)) + {ns}
    {
      hide UpSet, CircleLinks;
      ghost var q := servers;
      LinkCircle(ns);
      good := good + 1;
      known := known + {ns};
      UpSetGrown(q, servers, ns);
      assert forall s: Server :: s in servers <==> s in q || s == ns;
    }

    method LinkCircle(ns: Server)
      requires Circle(serverHead, servers) && ns !in servers
      modifies `serverHead, `servers, servers`next, ns`next
      ensures Circle(serverHead, servers)
      ensures servers == if old(servers) == [] then [ns] else [old(servers)[0], ns] + old(servers)[1..]
    {
      ghost var q := servers;
      if serverHead == null {
        ns.next := ns;
        serverHead := ns;
        servers := [ns];
      } else {
        assert q[0].next == q[After(0, |q|)];
        ns.next := serverHead.next;
        serverHead.next := ns;
        servers := [q[0], ns] + q[1..];
        CircleGrown(serverHead, q, ns);
      }
    }

    lemma HeldThen(was: set<Server>, ns: Server)
      requires Held(inflight, waiting, was) && known == was + {ns}
      ensures Assigned()
    {
    }

    lemma NoLoadYet(ns: Server)
      requires Assigned() && ns !in known
      ensures Of(inflight, ns) == {} && Held(inflight, waiting, known)
    {
    }

    /** evdns_base_set_max_requests_inflight: every request in flight moves to a table of the new size. */
    method SetMaxInflight(max: int)
      requires Valid()
      modifies heads, `heads, `buckets, `maxInflight, inflight`next, inflight`prev
      ensures Valid() && fresh(heads) && maxInflight == (if max < 1 then 1 else max)
      ensures heads.Length == |buckets| == (maxInflight + 4) / 5 > 0
    {
      hide Linked, IdsOk, Counts, Assigned, ServersOk, LoadsCount;
      var limit := if max < 1 then 1 else max;
      Rehash((limit + 4) / 5);
      maxInflight := limit;
    }

    method Rehash(size: nat)
      requires Linked() && size > 0
      modifies heads, `heads, `buckets, inflight`next, inflight`prev
      ensures Linked() && fresh(heads) && heads.Length == |buckets| == size
    {
      hide Entries, Links;
      var moved := new Request?[size](_ => null);
      EmptyTable(moved);
      buckets := MoveAll(heads, buckets, inflight, moved);
      heads := moved;
      assert Ring(waitingHead, waiting) by {
        assert forall r: Request :: r in waiting ==> r.next == old(r.next) && r.prev == old(r.prev);
      }
    }

    /** `base->server_head = base->server_head->next`. */
    method Step()
      requires ServersOk() && serverHead != null
      modifies `serverHead, `servers
      ensures ServersOk() && servers == Turned(old(servers), 1) && serverHead == old(serverHead).next
      ensures forall s :: s in servers <==> s in old(servers)
    {
      hide NoDup;
      ghost var q := servers;
      assert q[0].next == q[After(0, |q|)];
      serverHead := serverHead.next;
      servers := Turned(servers, 1);
      CircleNext(q[0], q);
      assert UpSet(servers) == UpSet(q);
    }

    /**
     * What nameserver_pick returns: the first server from the head on that is up, or the one behind the head if none
     * is.
     */
    ghost function NextServer(): Server?
      reads `servers, servers`up
    {
      if servers != [] then Nth(servers, 0) else null
    }

    /** `ns` is what a pick from the circle `q` returns, and the circle goes on behind it. */
    ghost predicate PickedFrom(q: seq<Server>, ns: Server?)
      reads `servers, servers`up, q`up
    {
      && q != [] && ns == Nth(q, 0) && Follows(q, servers, 1)
      && (UpIn(q) != [] ==> ns == UpIn(q)[0] && UpIn(servers) == Turned(UpIn(q), 1))
      && (UpIn(q) == [] ==> servers == Turned(q, 1) && ns == servers[0])
    }

    /** The first `n` requests of `w` were given to the servers of the circle `q` in turn, which goes on behind them. */
    ghost predicate Given(w: seq<Request>, n: nat, q: seq<Server>)
      reads `servers, servers`up, q`up, w`ns
    {
      && InTurn(w, n, q)
      && if q == [] then n == 0 && servers == [] else Follows(q, servers, n)
    }

    lemma NoneGiven(w: seq<Request>)
      ensures Given(w, 0, servers)
    {
      hide Follows;
      if servers != [] { FollowsSelf(servers); }
    }

    /** nameserver_pick: the next server that is up, or just the next one when none is. */
    method Pick() returns (picked: Server?)
      requires ServersOk()
      modifies `serverHead, `servers
      ensures ServersOk() && forall s :: s in servers <==> s in old(servers)
      ensures picked == old(NextServer()) && (picked == null <==> old(servers) == [])
      ensures picked != null ==> picked in known && (good > 0 ==> picked.up)
      ensures good > 0 ==>
        old(UpIn(servers)) != [] && picked == old(UpIn(servers))[0] && UpIn(servers) == Turned(old(UpIn(servers)), 1)
      ensures good == 0 && old(servers) != [] ==> servers == Turned(old(servers), 1) && picked == servers[0]
      ensures old(servers) != [] ==> PickedFrom(old(servers), picked)
    {
      hide NoDup, UpIn, UpSet, Follows, Nth;
      UpCount(servers);
      if servers == [] { NoneUp(servers); }
      if serverHead == null {
        return null;
      }
      ghost var q := servers;
      FirstInOrder(q);
      if good == 0 {
        Step();
        UpCount(servers);
        OrderTurned(q, servers);
        return serverHead;
      }
      picked := PickUp();
      TurnedOnce(UpIn(q));
      OrderTurned(q, servers);
    }

    lemma TurnedOnce<T>(u: seq<T>)
      requires u != []
      ensures Turned(u, 1) != []
    {
    }

    /** The loop of nameserver_pick. */
    method PickUp() returns (picked: Server)
      requires ServersOk() && serverHead != null && UpIn(servers) != []
      modifies `serverHead, `servers
      ensures ServersOk() && forall s :: s in servers <==> s in old(servers)
      ensures picked in known && picked.up
      ensures picked == old(UpIn(servers))[0] && UpIn(servers) == Turned(old(UpIn(servers)), 1)
    {
      hide NoDup, UpIn, UpSet, Turned;
      var startedAt := serverHead;
      ghost var q := servers;
      ghost var k: nat := 0;
      TurnedNone(q);
      while true
        invariant k < |q| && servers == Turned(q, k) && serverHead == q[k] && ServersOk()
        invariant forall i :: 0 <= i < k ==> !q[i].up
        invariant forall s :: s in servers <==> s in q
        decreases |q| - k
      {
        TurnedTwice(q, k);
        if serverHead.up {
          picked := serverHead;
          Step();
          assert UpIn(q) == old(UpIn(servers));
          TurnedPastUp(q, k);
          return;
        }
        if k + 1 == |q| { NoneUp(q); }
        Step();
        k := k + 1;
        OtherServer(q, k);
        if serverHead == startedAt {
          assert false;
        }
      }
    }

    /** As many picks as there are servers that are up return each of these once, in the order of the circle. */
    method PickRound() returns (picked: seq<Server>)
      requires ServersOk() && good > 0
      modifies `serverHead, `servers
      ensures ServersOk() && |picked| == good && NoDup(picked)
      ensures forall s :: s in picked <==> s in old(servers) && s.up
      ensures UpIn(servers) == old(UpIn(servers)) == picked
    {
      hide NoDup, UpIn, ServersOk, PickedFrom, NextServer;
      ghost var u := UpIn(servers);
      UpKnown();
      picked := [];
      var k := 0;
      while k < good
        invariant ServersOk() && 0 <= k <= good == |u| && picked == u[..k] && UpIn(servers) == Turned(u, k)
        invariant forall s :: s in servers <==> s in old(servers)
      {
        var s := Pick();
        TurnedTwice(u, k);
        picked := picked + [s];
        k := k + 1;
        if k == |u| { TurnedNone(u); TurnedAll(u); }
      }
      assert u[..k] == u;
      UpKnown();
    }

    lemma UpKnown()
      requires ServersOk()
      ensures |UpIn(servers)| == good && NoDup(UpIn(servers)) && NoDup(servers)
      ensures forall s :: s in UpIn(servers) <==> s in servers && s.up
      ensures forall s :: s in servers <==> s in known
    {
      hide NoDup, UpIn, UpSet;
      UpCount(servers);
      UpInFacts(servers);
    }

    /** A request goes to the end of the bucket of its id. */
    method BucketInsert(req: Request)
      requires Linked() && req !in inflight && req !in waiting
      modifies heads, `buckets, `inflight, req`next, req`prev, inflight`next, inflight`prev
      ensures Linked() && inflight == old(inflight) + {req}
    {
      hide Table, Links;
      buckets := TableInsert(heads, buckets, inflight, req);
      inflight := inflight + {req};
      assert Ring(waitingHead, waiting) by {
        assert forall r: Request :: r in waiting ==> r.next == old(r.next) && r.prev == old(r.prev);
      }
    }

    /** A request leaves the bucket of its id. */
    method BucketRemove(req: Request)
      requires Linked() && req in inflight
      modifies heads, `buckets, `inflight, inflight`next, inflight`prev
      ensures Linked() && inflight == old(inflight) - {req}
    {
      hide Table, Links;
      buckets := TableRemove(heads, buckets, inflight, req);
      inflight := inflight - {req};
      assert Ring(waitingHead, waiting) by {
        assert forall r: Request :: r in waiting ==> r.next == old(r.next) && r.prev == old(r.prev);
      }
    }

    /** A request goes to the end of the waiting list. */
    method WaitingInsert(req: Request)
      requires Linked() && req !in inflight && req !in waiting
      modifies `waitingHead, `waiting, req`next, req`prev, waiting`next, waiting`prev
      ensures Linked() && waiting == old(waiting) + [req]
    {
      hide Links, Entries;
      waitingHead := RingInsert(req, waitingHead, waiting);
      waiting := waiting + [req];
      assert Table(heads, buckets, inflight) by {
        assert forall r: Request :: r in inflight ==> r.next == old(r.next) && r.prev == old(r.prev);
      }
    }

    /** The request at `k` leaves the waiting list. */
    method WaitingRemove(req: Request, ghost k: nat)
      requires Linked() && k < |waiting| && req == waiting[k]
      modifies `waitingHead, `waiting, waiting`next, waiting`prev
      ensures Linked() && waiting == Without(old(waiting), k) && req !in waiting
      ensures forall x :: x in waiting ==> x in old(waiting)
    {
      hide Links, Entries, NoDup, Without;
      ghost var w := waiting;
      RingDistinct(waitingHead, w);
      waitingHead := RingRemove(req, waitingHead, w, k);
      WithoutIn(w, k);
      waiting := Without(w, k);
      assert forall x: Request :: x in waiting ==> x in w;
      assert Table(heads, buckets, inflight) by {
        assert forall r: Request :: r in inflight ==> r.next == old(r.next) && r.prev == old(r.prev);
      }
    }

    /** request_submit, apart from sending. */
    method Submit(req: Request)
      requires Valid() && req !in inflight && req !in waiting
      requires req.ns != null ==> req.ns in known && req.transId < 0xffff
      modifies heads, `buckets, `inflight, `globalInflight, `waitingHead, `waiting, `globalWaiting
      modifies req`next, req`prev, inflight`next, inflight`prev, waiting`next, waiting`prev, known`inflight
      ensures Valid() && globalInflight == old(globalInflight) + if req.ns != null then 1 else 0
      ensures if req.ns != null then inflight == old(inflight) + {req} && waiting == old(waiting)
              else inflight == old(inflight) && waiting == old(waiting) + [req]
      ensures Distinct() <==>
        old(Distinct()) && (req.ns != null ==> forall r :: r in old(inflight) ==> r.transId != req.transId)
    {
      hide Linked, IdsOk, Counts, Assigned, ServersOk, LoadsCount, Different;
      DifferentMore(inflight, req);
      if req.ns != null {
        Enter(req);
      } else {
        Await(req);
      }
    }

    /** A request goes to the waiting list. */
    method Await(req: Request)
      requires Rest() && req !in inflight && req !in waiting && req.ns == null
      modifies `waitingHead, `waiting, `globalWaiting, req`next, req`prev, waiting`next, waiting`prev
      ensures Rest() && waiting == old(waiting) + [req]
    {
      hide Entries, Links, NoDup, UpSet, CircleLinks, OwnIds;
      WaitingInsert(req);
      globalWaiting := globalWaiting + 1;
    }

    /** A request that has a server goes in flight. */
    method Enter(req: Request)
      requires Valid() && req !in inflight && req !in waiting && req.ns != null && req.ns in known
      requires req.transId < 0xffff
      modifies heads, `buckets, `inflight, `globalInflight, req`next, req`prev, inflight`next, inflight`prev
      modifies known`inflight
      ensures Valid() && inflight == old(inflight) + {req} && globalInflight == old(globalInflight) + 1
    {
      hide Linked, IdsOk, Counts, Assigned, ServersOk, LoadsCount;
      EnterBucket(req);
      LoadOne(known, old(inflight), req, req.ns);
    }

    method EnterBucket(req: Request)
      requires Rest() && req !in inflight && req !in waiting && req.ns != null && req.ns in known
      requires req.transId < 0xffff
      modifies heads, `buckets, `inflight, `globalInflight, req`next, req`prev, inflight`next, inflight`prev
      ensures Rest() && inflight == old(inflight) + {req} && globalInflight == old(globalInflight) + 1
    {
      hide Linked, IdsOk, Assigned, ServersOk;
      globalInflight := globalInflight + 1;
      EnterTable(req);
    }

    method EnterTable(req: Request)
      requires
        && Linked()
        && IdsOk()
        && Assigned()
        && req !in inflight
        && req !in waiting
        && req.ns != null
        && req.ns in known
      requires req.transId < 0xffff
      modifies heads, `buckets, `inflight, req`next, req`prev, inflight`next, inflight`prev
      ensures Linked() && IdsOk() && Assigned() && inflight == old(inflight) + {req}
    {
      hide Linked, OwnIds, Held;
      BucketInsert(req);
      OwnIdsMore(old(inflight), req);
      HeldMore(old(inflight), waiting, known, req);
    }

    /** A request is no longer in flight. */
    method Leave(req: Request)
      requires Valid() && req in inflight
      modifies heads, `buckets, `inflight, `globalInflight, inflight`next, inflight`prev, known`inflight
      ensures Valid() && inflight == old(inflight) - {req} && globalInflight == old(globalInflight) - 1
    {
      hide Linked, IdsOk, Counts, Assigned, ServersOk, LoadsCount;
      HasServer(req);
      LeaveBucket(req);
      assert old(inflight) == inflight + {req};
      UnloadOne(known, inflight, req, req.ns);
    }

    method LeaveBucket(req: Request)
      requires Rest() && req in inflight
      modifies heads, `buckets, `inflight, `globalInflight, inflight`next, inflight`prev
      ensures Rest() && inflight == old(inflight) - {req} && globalInflight == old(globalInflight) - 1
    {
      hide Linked, ServersOk, OwnIds;
      BucketRemove(req);
      OwnIdsLess(old(inflight), req);
      globalInflight := globalInflight - 1;
    }

    /** request_swap_ns. */
    method Swap(req: Request, ns: Server?)
      requires Valid() && req in inflight && (ns != null ==> ns in known)
      modifies req`ns, known`inflight
      ensures Valid() && (if ns != null then req.ns == ns else req.ns == old(req.ns))
    {
      hide Linked, IdsOk, Counts, Assigned, ServersOk, LoadsCount;
      if ns != null && req.ns != ns {
        ghost var was := inflight - {req};
        assert inflight == was + {req};
        HasServer(req);
        UnloadOne(known, was, req, req.ns);
        SetServer(req, ns, was);
        LoadOne(known, was, req, ns);
      }
    }

    lemma HasServer(req: Request)
      requires Rest() && req in inflight
      ensures req.ns != null && req.ns in known
    {
      hide Linked, IdsOk, Counts, ServersOk;
    }

    method SetServer(req: Request, ns: Server, ghost was: set<Request>)
      requires ValidBut(was) && was == inflight - {req} && req in inflight && ns in known
      modifies req`ns
      ensures ValidBut(was) && req.ns == ns
    {
      hide LoadsCount, Entries, Links, CircleLinks, UpSet, OwnIds;
      InFlightOnly(req);
      req.ns := ns;
      assert LoadsAre(known, was) by {
        assert forall r: Request :: r in was ==> r.ns == old(r.ns);
      }
    }

    lemma InFlightOnly(req: Request)
      requires Linked() && req in inflight
      ensures req !in waiting
    {
    }

    /** nameserver_pick in a base that is in order. */
    method PickServer() returns (ns: Server?)
      requires Valid()
      modifies `serverHead, `servers
      ensures Valid() && forall s :: s in servers <==> s in old(servers)
      ensures ns == null <==> servers == []
      ensures ns != null ==> ns in known && (good > 0 ==> ns.up)
      ensures good > 0 ==> ns != null
      ensures good > 0 ==> old(UpIn(servers)) != [] && ns == old(UpIn(servers))[0]
      ensures ns == old(NextServer()) && (ns == null <==> old(servers) == [])
      ensures old(servers) != [] ==> PickedFrom(old(servers), ns)
    {
      hide Linked, IdsOk, Counts, CircleLinks, UpSet, Of, UpIn, Turned, NextServer, PickedFrom;
      ns := Pick();
      SameNone(old(servers), servers);
    }

    /** The first waiting request leaves the list. */
    method TakeWaiting() returns (req: Request)
      requires Rest() && waiting != []
      modifies `waitingHead, `waiting, `globalWaiting, waiting`next, waiting`prev
      ensures Rest() && req == old(waiting)[0] && waiting == old(waiting)[1..] && req !in waiting && req !in inflight
    {
      hide Entries, Links, CircleLinks, UpSet, OwnIds, NoDup, Without;
      FirstWaiting();
      req := waitingHead;
      NotBoth(req);
      DropWaiting(req, 0);
    }

    lemma FirstWaiting()
      requires Linked() && waiting != []
      ensures waitingHead == waiting[0] && Without(waiting, 0) == waiting[1..]
    {
    }

    /** Ids that transaction_id_pick may return one after the other. */
    ghost predicate Unused(ids: seq<nat>)
      reads `inflight, inflight`transId
    {
      UnusedBy(inflight, ids)
    }

    /** The same, once `req` is no longer in flight. */
    ghost predicate UnusedBut(ids: seq<nat>, req: Request)
      reads `inflight, inflight`transId
    {
      UnusedBy(inflight - {req}, ids)
    }

    /** One turn of evdns_requests_pump_waiting_queue; `ids[0]` is what transaction_id_pick returns. */
    method Promote(ids: seq<nat>) returns (ok: bool)
      requires Valid() && waiting != [] && ids != [] && Unused(ids)
      modifies heads, `buckets, `inflight, `globalInflight, `waitingHead, `waiting, `globalWaiting, `serverHead
      modifies `servers
      modifies inflight`next, inflight`prev, waiting`next, waiting`prev, waiting`ns, waiting`transId, known`inflight
      ensures Valid() && (ok <==> servers != []) && forall s :: s in servers <==> s in old(servers)
      ensures if ok then
          var req := old(waiting)[0];
          && waiting == old(waiting)[1..]
          && inflight == old(inflight) + {req}
          && req.transId == ids[0]
          && Unused(ids[1..])
          && globalInflight == old(globalInflight) + 1
          && (good > 0 ==> req.ns != null && req.ns in known && req.ns.up)
          && PickedFrom(old(servers), req.ns)
        else waiting == old(waiting) && inflight == old(inflight) && globalInflight == old(globalInflight)
      ensures forall r :: r in old(inflight) ==> r.transId == old(r.transId) && r.ns == old(r.ns)
      ensures old(Distinct()) ==> Distinct()
    {
      hide Linked, IdsOk, Counts, Assigned, ServersOk, LoadsCount, NoDup, Different, NextServer, PickedFrom,
        UpIn;
      var ns := PickServer();
      NextUnused(ids);
      if ns == null {
        return false;
      }
      var req := TakeWaiting();
      assert req in old(waiting);
      Issue(req, ns, ids[0]);
      return true;
    }

    /** A request that waited no longer goes in flight. */
    method Issue(req: Request, ns: Server, id: nat)
      requires
        && Valid()
        && req !in inflight
        && req !in waiting
        && ns in known
        && id < 0xffff
        && forall r :: r in inflight ==> r.transId != id
      modifies heads, `buckets, `inflight, `globalInflight, inflight`next, inflight`prev, known`inflight
      modifies req`next, req`prev, req`ns, req`transId
      ensures
        && Valid()
        && inflight == old(inflight) + {req}
        && globalInflight == old(globalInflight) + 1
        && req.ns == ns
        && req.transId == id
      ensures forall r :: r in old(inflight) ==> r.transId == old(r.transId) && r.ns == old(r.ns)
      ensures old(Distinct()) ==> Distinct()
    {
      hide Linked, IdsOk, Counts, Assigned, ServersOk, LoadsCount, NoDup, Different;
      req.ns := ns;
      req.transId := id;
      assert Rest() && LoadsAre(known, inflight) by {
        assert forall r: Request :: r in inflight ==> r.ns == old(r.ns) && r.transId == old(r.transId);
      }
      DifferentMore(inflight, req);
      Enter(req);
    }

    lemma NextUnused(ids: seq<nat>)
      requires Unused(ids) && ids != []
      ensures Unused(ids[1..]) && NoDup(ids[1..]) && ids[0] < 0xffff
      ensures forall i :: 0 <= i < |ids[1..]| ==> ids[1..][i] != ids[0]
    {
    }

    /** The loop has sent the first `n` requests of `w`, with the first ids, besides those of `was`. */
    ghost predicate Pumped(w: seq<Request>, was: set<Request>, ids: seq<nat>, n: nat)
      reads `waiting, `inflight, inflight`transId, w`transId
    {
      Drawn(w, n, ids) && waiting == w[n..] && inflight == was + Members(w[..n]) && Unused(ids[n..])
    }

    /** The same, seen from the start of the loop, at which `w` waited and `was` were in flight. */
    method PumpOne(left: seq<nat>, ghost ids: seq<nat>, ghost w: seq<Request>, ghost was: set<Request>, ghost n: nat)
      returns (ok: bool)
      requires Valid() && Pumped(w, was, ids, n) && n < |w| <= |ids| && left == ids[n..]
      modifies heads, `buckets, `inflight, `globalInflight, `waitingHead, `waiting, `globalWaiting, `serverHead
      modifies `servers
      modifies inflight`next, inflight`prev, waiting`next, waiting`prev, waiting`ns, waiting`transId, known`inflight
      ensures Valid() && (ok <==> servers != []) && globalWaiting == |waiting|
      ensures if ok then Pumped(w, was, ids, n + 1) && globalInflight == old(globalInflight) + 1
        else Pumped(w, was, ids, n) && globalInflight == old(globalInflight)
      ensures ok ==> PickedFrom(old(servers), w[n].ns)
      ensures !ok ==> old(servers) == []
      ensures forall r :: r in old(inflight) ==> r.ns == old(r.ns)
      ensures good > 0 && old(Served(was)) ==> Served(was)
      ensures forall r :: r in old(inflight) ==> r.transId == old(r.transId)
      ensures old(Distinct()) ==> Distinct()
    {
      hide Valid, ValidBut, Members, Unused, Distinct, PickedFrom;
      TakenOne(w, was, n);
      WithinBoth(w, was, n);
      assert left[1..] == ids[n + 1..];
      ok := Promote(left);
      SameNone(old(servers), servers);
      CountsKnown();
    }

    /** One turn of the loop: the request goes to the next server. */
    method PumpTurn(left: seq<nat>, ghost ids: seq<nat>, ghost w: seq<Request>, ghost was: set<Request>, ghost n: nat,
        ghost q: seq<Server>)
      returns (ok: bool)
      requires Valid() && Pumped(w, was, ids, n) && n < |w| <= |ids| && left == ids[n..] && Given(w, n, q)
      modifies heads, `buckets, `inflight, `globalInflight, `waitingHead, `waiting, `globalWaiting, `serverHead
      modifies `servers
      modifies inflight`next, inflight`prev, waiting`next, waiting`prev, waiting`ns, waiting`transId, known`inflight
      ensures Valid() && (ok <==> servers != []) && globalWaiting == |waiting|
      ensures if ok then Pumped(w, was, ids, n + 1) && globalInflight == old(globalInflight) + 1
        else Pumped(w, was, ids, n) && globalInflight == old(globalInflight)
      ensures Given(w, if ok then n + 1 else n, q)
      ensures good > 0 && old(Served(was)) ==> Served(was)
      ensures forall r :: r in old(inflight) ==> r.transId == old(r.transId)
      ensures old(Distinct()) ==> Distinct()
    {
      hide Valid, ValidBut, Members, Unused, Distinct, PickedFrom, Served, Nth, Follows;
      WithinBoth(w, was, n);
      ghost var now := servers;
      ok := PumpOne(left, ids, w, was, n);
      if ok {
        PickedNext(now, w[n].ns);
        InTurnMore(w, n, q, now);
        FollowsMore(q, now, servers, n, 1);
      }
    }

    lemma PickedNext(q: seq<Server>, ns: Server?)
      requires PickedFrom(q, ns)
      ensures q != [] && ns == Nth(q, 0) && Follows(q, servers, 1)
    {
      hide Nth, Follows;
    }

    /** The requests in flight that are not in `was` have a server that is up. */
    ghost predicate Served(was: set<Request>)
      reads `inflight, inflight`ns, `known, known`up
    {
      forall r :: r in inflight && r !in was ==> r.ns != null && r.ns in known && r.ns.up
    }

    /** evdns_requests_pump_waiting_queue: the requests that waited longest go in flight, as far as there is room. */
    method Pump(ids: seq<nat>) returns (ghost n: nat)
      requires Valid() && Unused(ids) && |waiting| <= |ids|
      modifies heads, `buckets, `inflight, `globalInflight, `waitingHead, `waiting, `globalWaiting, `serverHead
      modifies `servers
      modifies inflight`next, inflight`prev, waiting`next, waiting`prev, waiting`ns, waiting`transId, known`inflight
      ensures Valid() && n <= |old(waiting)| && waiting == old(waiting)[n..]
      ensures inflight == old(inflight) + Members(old(waiting)[..n])
      ensures globalInflight >= maxInflight || waiting == [] || servers == []
      ensures old(globalInflight) <= maxInflight ==> globalInflight <= maxInflight
      ensures globalInflight <= maxInflight || n == 0
      ensures
        && n == Fits(old(globalInflight), maxInflight, |old(waiting)|, known != {})
        && globalInflight == old(globalInflight) + n
      ensures good > 0 ==> Served(old(inflight))
      ensures Given(old(waiting), n, old(servers))
      ensures Drawn(old(waiting), n, ids)
      ensures forall r :: r in old(inflight) ==> r.transId == old(r.transId)
      ensures old(Distinct()) ==> Distinct()
    {
      hide Valid, ValidBut, Members, Unused, Served, Distinct, Given, UnusedBy, Pumped, Drawn, Fits;
      NoneServed();
      NoServers();
      var left := ids;
      n := 0;
      ghost var w, was, q := waiting, inflight, servers;
      CountsKnown();
      PumpedNone(ids);
      PumpedFacts(w, was, ids, 0);
      NoneGiven(w);
      while globalInflight < maxInflight && globalWaiting != 0
        invariant Valid() && Pumped(w, was, ids, n) && n <= |w| && left == ids[n..]
        invariant forall r :: r in was ==> r.transId == old(r.transId)
        invariant old(Distinct()) ==> Distinct()
        invariant good > 0 ==> Served(was)
        invariant globalWaiting == |waiting| && (globalInflight <= maxInflight || n == 0)
        invariant globalInflight == old(globalInflight) + n && (n > 0 ==> known != {})
        invariant Given(w, n, q)
        invariant waiting == w[n..] && was <= inflight && forall r :: r in inflight ==> r in was || r in w
        decreases |waiting|
      {
        var ok := PumpTurn(left, ids, w, was, n, q);
        NoServers();
        if !ok {
          PumpedFacts(w, was, ids, n);
          FitsIs(old(globalInflight), maxInflight, |w|, known != {}, n);
          return;
        }
        left, n := left[1..], n + 1;
        PumpedFacts(w, was, ids, n);
      }
      PumpedFacts(w, was, ids, n);
      FitsIs(old(globalInflight), maxInflight, |w|, known != {}, n);
      NoServers();
    }

    lemma PumpedNone(ids: seq<nat>)
      requires Unused(ids)
      ensures Pumped(waiting, inflight, ids, 0) && ids[0..] == ids
    {
      TakenNone(waiting, inflight);
    }

    lemma PumpedFacts(w: seq<Request>, was: set<Request>, ids: seq<nat>, n: nat)
      requires Pumped(w, was, ids, n)
      ensures n <= |w| && n <= |ids| && Drawn(w, n, ids) && waiting == w[n..] && inflight == was + Members(w[..n])
      ensures forall x :: x in inflight ==> x in was || x in w
      ensures forall x :: x in waiting ==> x in w
      ensures forall x :: x in was ==> x in inflight
    {
      hide Unused;
      WithinBoth(w, was, n);
    }

    lemma NoneServed()
      ensures Served(inflight)
    {
    }

    lemma CountsKnown()
      requires Valid()
      ensures globalInflight == |inflight| && globalWaiting == |waiting|
    {
    }

    /** request_finished for a request that `waits` or is in flight; then evdns_requests_pump_waiting_queue. */
    method Finish(req: Request, waits: bool, ids: seq<nat>) returns (ghost n: nat)
      requires Valid() && UnusedBut(ids, req) && |waiting| <= |ids| && if waits then req in waiting else req in inflight
      modifies heads, `buckets, `inflight, `globalInflight, `waitingHead, `waiting, `globalWaiting, `serverHead
      modifies `servers
      modifies inflight`next, inflight`prev, waiting`next, waiting`prev, waiting`ns, waiting`transId, known`inflight
      ensures Valid() && req !in inflight && req !in waiting
      ensures n <= |Dropped(old(waiting), req)| && waiting == Dropped(old(waiting), req)[n..]
      ensures inflight == old(inflight) - {req} + Members(Dropped(old(waiting), req)[..n])
      ensures globalInflight >= maxInflight || waiting == [] || servers == []
      ensures old(globalInflight) <= maxInflight ==> globalInflight <= maxInflight
      ensures n == if waits
        then Fits(old(globalInflight), maxInflight, |old(waiting)| - 1, known != {})
        else Fits(old(globalInflight) - 1, maxInflight, |old(waiting)|, known != {})
      ensures globalInflight == old(globalInflight) + n - if waits then 0 else 1
      ensures Drawn(Dropped(old(waiting), req), n, ids)
      ensures Given(Dropped(old(waiting), req), n, old(servers))
      ensures forall r :: r in old(inflight) ==> r.transId == old(r.transId)
      ensures old(Distinct()) ==> Distinct()
    {
      hide Valid, ValidBut, Distinct, Unused, UnusedBut, Dropped, Members, Fits, Given, Drawn;
      TakeOut(req, waits, ids);
      ghost var left := waiting;
      assert forall i :: 0 <= i < |waiting| ==> waiting[i] in old(waiting);
      n := Pump(ids);
      StillOut(left, n, req);
    }

    /** The first part of request_finished: the request leaves its list. */
    method TakeOut(req: Request, waits: bool, ghost ids: seq<nat>)
      requires Valid() && UnusedBut(ids, req) && if waits then req in waiting else req in inflight
      modifies heads, `buckets, `inflight, `globalInflight, `waitingHead, `waiting, `globalWaiting
      modifies inflight`next, inflight`prev, waiting`next, waiting`prev, known`inflight
      ensures Valid() && Unused(ids) && req !in inflight && req !in waiting
      ensures waiting == Dropped(old(waiting), req) && |waiting| == |old(waiting)| - if waits then 1 else 0
      ensures inflight == old(inflight) - {req} && globalInflight == old(globalInflight) - if waits then 0 else 1
      ensures forall x :: x in waiting ==> x in old(waiting)
      ensures old(Distinct()) ==> Distinct()
    {
      hide Linked, IdsOk, Counts, Assigned, ServersOk, LoadsCount, Dropped, NoDup;
      NotBoth(req);
      DroppedFacts(waiting, req);
      if waits {
        Withdraw(req);
      } else {
        Leave(req);
      }
      assert inflight <= old(inflight);
    }

    lemma NotBoth(req: Request)
      requires Rest()
      ensures NoDup(waiting) && (req in inflight ==> req !in waiting)
    {
      RingDistinct(waitingHead, waiting);
    }

    /** A waiting request leaves the list. */
    method Withdraw(req: Request)
      requires Valid() && req in waiting
      modifies `waitingHead, `waiting, `globalWaiting, waiting`next, waiting`prev
      ensures Valid() && waiting == Dropped(old(waiting), req) && req !in waiting && req !in inflight
      ensures forall x :: x in waiting ==> x in old(waiting)
      ensures |waiting| == |old(waiting)| - 1
    {
      hide Linked, IdsOk, Assigned, CircleLinks, UpSet, NoDup, Without, Dropped, LoadsCount;
      NotBoth(req);
      ghost var k := DroppedAt(waiting, req);
      DropWaiting(req, k);
    }

    method DropWaiting(req: Request, ghost k: nat)
      requires Rest() && k < |waiting| && req == waiting[k]
      modifies `waitingHead, `waiting, `globalWaiting, waiting`next, waiting`prev
      ensures Rest() && waiting == Without(old(waiting), k) && req !in waiting
      ensures forall x :: x in waiting ==> x in old(waiting)
    {
      hide Linked, IdsOk, ServersOk, NoDup, Without;
      NotBoth(req);
      WithoutFacts(waiting, k);
      WaitingRemove(req, k);
      globalWaiting := globalWaiting - 1;
    }

    /** evdns_cancel_request, apart from the callback. */
    method Cancel(req: Request, ids: seq<nat>) returns (ghost n: nat)
      requires Valid() && UnusedBut(ids, req) && |waiting| <= |ids| && (req in waiting || req in inflight)
      modifies heads, `buckets, `inflight, `globalInflight, `waitingHead, `waiting, `globalWaiting, `serverHead
      modifies `servers
      modifies inflight`next, inflight`prev, waiting`next, waiting`prev, waiting`ns, waiting`transId, known`inflight
      ensures Valid() && req !in inflight && req !in waiting
      ensures n <= |Dropped(old(waiting), req)| && waiting == Dropped(old(waiting), req)[n..]
      ensures inflight == old(inflight) - {req} + Members(Dropped(old(waiting), req)[..n])
      ensures globalInflight >= maxInflight || waiting == [] || servers == []
      ensures old(globalInflight) <= maxInflight ==> globalInflight <= maxInflight
      ensures n == if old(req in waiting)
        then Fits(old(globalInflight), maxInflight, |old(waiting)| - 1, known != {})
        else Fits(old(globalInflight) - 1, maxInflight, |old(waiting)|, known != {})
      ensures globalInflight == old(globalInflight) + n - if old(req in waiting) then 0 else 1
      ensures Given(Dropped(old(waiting), req), n, old(servers))
      ensures old(Distinct()) ==> Distinct()
    {
      hide Linked, Counts, IdsOk, ServersOk, LoadsCount, Dropped, Members, Given;
      n := Finish(req, req.ns == null, ids);
    }

    /** request_new and request_submit: goes in flight when there is room and a server, and waits otherwise. */
    method Ask(id: nat) returns (req: Request)
      requires Valid() && Unused([id])
      modifies heads, `buckets, `inflight, `globalInflight, `waitingHead, `waiting, `globalWaiting, `serverHead
      modifies `servers
      modifies inflight`next, inflight`prev, waiting`next, waiting`prev, known`inflight
      ensures Valid() && fresh(req) && req.txCount == 0
      ensures if old(globalInflight) < maxInflight && old(servers) != []
        then
          && inflight == old(inflight) + {req}
          && waiting == old(waiting)
          && req.transId == id
          && req.ns != null
          && (good > 0 ==> req.ns.up)
        else inflight == old(inflight) && waiting == old(waiting) + [req]
      ensures if old(globalInflight) < maxInflight && old(servers) != []
        then
          && req.ns == old(NextServer()) && PickedFrom(old(servers), req.ns)
        else servers == old(servers)
      ensures globalInflight == old(globalInflight) + if req in inflight then 1 else 0
      ensures forall s :: s in known ==>
        s.inflight == old(s.inflight) + if req in inflight && req.ns == s then 1 else 0
      ensures old(globalInflight) <= maxInflight ==> globalInflight <= maxInflight
      ensures old(Distinct()) ==> Distinct()
    {
      hide Valid, ValidBut, Distinct, Unused, PickedFrom, NextServer, UpIn;
      OwnFresh(id);
      var issuingNow := globalInflight < maxInflight;
      var ns := null;
      if issuingNow {
        ns := PickServer();
        SameNone(old(servers), servers);
      }
      req := new Request(if issuingNow then id else 0xffff, ns);
      SubmitCounted(req);
    }

    /** request_submit, and what it does to the loads of the servers. */
    method SubmitCounted(req: Request)
      requires Valid() && req !in inflight && req !in waiting
      requires req.ns != null ==> req.ns in known && req.transId < 0xffff
      modifies heads, `buckets, `inflight, `globalInflight, `waitingHead, `waiting, `globalWaiting
      modifies req`next, req`prev, inflight`next, inflight`prev, waiting`next, waiting`prev, known`inflight
      ensures Valid() && globalInflight == old(globalInflight) + if req.ns != null then 1 else 0
      ensures if req.ns != null then inflight == old(inflight) + {req} && waiting == old(waiting)
              else inflight == old(inflight) && waiting == old(waiting) + [req]
      ensures Distinct() <==>
        old(Distinct()) && (req.ns != null ==> forall r :: r in old(inflight) ==> r.transId != req.transId)
      ensures forall s :: s in known ==> s.inflight == old(s.inflight) + if req.ns == s then 1 else 0
    {
      hide Valid, ValidBut, Distinct, Of;
      LoadsKnown();
      ghost var was := inflight;
      Submit(req);
      LoadsKnown();
      forall s | s in known ensures s.inflight == old(s.inflight) + if req.ns == s then 1 else 0 {
        OfAdded(was, req, s);
      }
    }

    lemma LoadsKnown()
      requires Valid()
      ensures forall s :: s in known ==> s.inflight == |Of(inflight, s)|
      ensures forall r :: r in waiting ==> r !in inflight
    {
      hide IdsOk, Counts, Assigned, ServersOk, Entries, Links;
    }

    lemma OwnFresh(id: nat)
      requires Unused([id])
      ensures id < 0xffff && forall r :: r in inflight ==> r.transId != id
    {
      assert [id][0] == id;
    }

    /**
     * The end of search_try_next: a request for the next name takes the place of `req`. Its id is picked first, then
     * `req` is finished, which lets waiting requests pick ids, and only then is it in flight. So it may share the id of
     * one of those.
     */
    method SearchNext(req: Request, id: nat, ids: seq<nat>) returns (newReq: Request, ghost n: nat)
      requires Valid() && req in inflight && Unused([id]) && UnusedBut(ids, req) && |waiting| <= |ids|
      modifies heads, `buckets, `inflight, `globalInflight, `waitingHead, `waiting, `globalWaiting, `serverHead
      modifies `servers
      modifies inflight`next, inflight`prev, waiting`next, waiting`prev, waiting`ns, waiting`transId, known`inflight
      ensures Valid() && fresh(newReq) && n <= |old(waiting)|
      ensures newReq.ns != null <==> old(globalInflight) < maxInflight && old(servers) != []
      ensures inflight ==
        old(inflight) - {req} + Members(old(waiting)[..n]) + if newReq.ns != null then {newReq} else {}
      ensures waiting == old(waiting)[n..] + if newReq.ns != null then [] else [newReq]
      ensures n == Fits(old(globalInflight) - 1, maxInflight, |old(waiting)|, known != {})
      ensures old(Distinct()) ==> (
        Distinct() <==>
          !(old(globalInflight) < maxInflight && old(servers) != []
            && id in ids[..Fits(old(globalInflight) - 1, maxInflight, |old(waiting)|, true)]))
    {
      hide Valid, ValidBut, Members, NoDup, Distinct, Unused, UnusedBut, Fits, NextServer, PickedFrom, UpIn, Turned;
      OwnFresh(id);
      NoServers();
      var issuingNow := globalInflight < maxInflight;
      var ns := null;
      if issuingNow {
        ns := PickServer();
        SameNone(old(servers), servers);
      }
      newReq := new Request(if issuingNow then id else 0xffff, ns);
      n := Replace(req, newReq, ids);
    }

    /** A request that waits for want of a server still waits when a server comes. */
    static method OneWaits() returns (base: Base)
      ensures
        && base.Valid()
        && base.inflight == {}
        && |base.waiting| == 1
        && base.known != {}
        && base.globalInflight == 0
        && base.maxInflight == 64
      ensures fresh(base) && fresh(base.heads) && fresh(base.waiting) && fresh(base.known)
    {
      hide Base.Valid, Base.ValidBut, Base.Unused;
      base := new Base();
      base.NobodysId(5);
      base.CountsKnown();
      var first := base.Ask(5);
      base.NoServers();
      var ns := base.AddServer();
      base.CountsKnown();
    }

    lemma NoServers()
      requires Valid()
      ensures known == {} <==> servers == []
    {
      hide Linked, IdsOk, Counts, Assigned, LoadsCount;
      assert servers != [] ==> servers[0] in known;
    }

    /** Then another request is sent and replaced: the new one and the one that waited may have the same id. */
    static method SharedId() returns (base: Base)
      ensures base.Valid() && !base.Distinct()
    {
      hide Base.Valid, Base.ValidBut, Members, Base.Unused, Base.UnusedBut, Base.Distinct;
      base := OneWaits();
      base.NobodysId(7);
      base.NoServers();
      var second := base.Ask(7);
      base.IdsLeft(second, 9);
      base.CountsKnown();
      base.ReplaceSecond(second);
    }

    method ReplaceSecond(second: Request)
      requires
        && Valid()
        && Distinct()
        && Unused([9])
        && UnusedBut([9], second)
        && inflight == {second}
        && |waiting| == 1
        && known != {}
      requires globalInflight == 1 < maxInflight
      modifies heads, `buckets, `inflight, `globalInflight, `waitingHead, `waiting, `globalWaiting, `serverHead
      modifies `servers
      modifies inflight`next, inflight`prev, waiting`next, waiting`prev, waiting`ns, waiting`transId, known`inflight
      ensures Valid() && !Distinct()
    {
      hide Valid, ValidBut, Unused, UnusedBut, Distinct;
      NoServers();
      var third, n := SearchNext(second, 9, [9]);
      assert [9][0] in [9][..1];
    }

    lemma NobodysId(id: nat)
      requires inflight == {} && id < 0xffff
      ensures Unused([id]) && Distinct()
    {
    }

    lemma IdsLeft(req: Request, id: nat)
      requires inflight == {req} && req.transId != id < 0xffff
      ensures Unused([id]) && UnusedBut([id], req) && Distinct()
    {
    }

    /** The order of the label submit_next: first `req` is finished, then the new request is submitted. */
    method Replace(req: Request, newReq: Request, ids: seq<nat>) returns (ghost n: nat)
      requires
        && Valid()
        && req in inflight
        && UnusedBut(ids, req)
        && |waiting| <= |ids|
        && newReq !in inflight
        && newReq !in waiting
      requires newReq.ns != null ==>
        newReq.ns in known && newReq.transId < 0xffff && forall r :: r in inflight ==> r.transId != newReq.transId
      modifies heads, `buckets, `inflight, `globalInflight, `waitingHead, `waiting, `globalWaiting, `serverHead
      modifies `servers
      modifies inflight`next, inflight`prev, waiting`next, waiting`prev, waiting`ns, waiting`transId, known`inflight
      modifies newReq`next, newReq`prev
      ensures Valid() && n <= |old(waiting)|
      ensures inflight ==
        old(inflight) - {req} + Members(old(waiting)[..n]) + if newReq.ns != null then {newReq} else {}
      ensures waiting == old(waiting)[n..] + if newReq.ns != null then [] else [newReq]
      ensures n == Fits(old(globalInflight) - 1, maxInflight, |old(waiting)|, known != {})
      ensures old(Distinct()) ==> (Distinct() <==> newReq.ns == null || newReq.transId !in ids[..n])
    {
      hide Valid, ValidBut, Members, Distinct;
      n := FinishOne(req, newReq.transId, ids);
      NotAmong(old(inflight) - {req}, old(waiting), newReq);
      WithinBoth(old(waiting), old(inflight) - {req}, n);
      Submit(newReq);
    }

    /** A request in flight is finished; the ids that waiting requests draw are those that others could not use. */
    method FinishOne(req: Request, id: nat, ids: seq<nat>) returns (ghost n: nat)
      requires Valid() && req in inflight && UnusedBut(ids, req) && |waiting| <= |ids|
      modifies heads, `buckets, `inflight, `globalInflight, `waitingHead, `waiting, `globalWaiting, `serverHead
      modifies `servers
      modifies inflight`next, inflight`prev, waiting`next, waiting`prev, waiting`ns, waiting`transId, known`inflight
      ensures
        && Valid()
        && n <= |old(waiting)|
        && waiting == old(waiting)[n..]
        && inflight == old(inflight) - {req} + Members(old(waiting)[..n])
      ensures n == Fits(old(globalInflight) - 1, maxInflight, |old(waiting)|, known != {})
      ensures (forall r :: r in old(inflight) - {req} ==> old(r.transId) != id) ==>
        ((forall r :: r in inflight ==> r.transId != id) <==> id !in ids[..n])
      ensures old(Distinct()) ==> Distinct()
    {
      hide Linked, IdsOk, Assigned, ServersOk, LoadsCount, Dropped, Members, NoDup, Different, Drawn;
      NotBoth(req);
      DroppedFacts(waiting, req);
      ghost var was, w := inflight - {req}, waiting;
      n := Finish(req, false, ids);
      if forall r :: r in was ==> r.transId != id {
        SharesId(was, w, n, ids, id);
      }
      ServersKnown();
    }

    lemma NotAmong(was: set<Request>, w: seq<Request>, req: Request)
      requires req !in was && req !in w
      ensures forall n :: 0 <= n <= |w| ==> req !in was + Members(w[..n]) && req !in w[n..]
    {
    }

    lemma ServersKnown()
      requires Valid()
      ensures servers == [] ==> known == {}
    {
      hide Linked, IdsOk, Assigned, LoadsCount;
    }

    lemma SharesId(was: set<Request>, w: seq<Request>, n: nat, ids: seq<nat>, id: nat)
      requires Drawn(w, n, ids) && forall r :: r in was ==> r.transId != id
      ensures (forall r :: r in was + Members(w[..n]) ==> r.transId != id) <==> id !in ids[..n]
    {
      if i :| 0 <= i < n && ids[i] == id {
        assert w[..n][i] in was + Members(w[..n]) && ids[..n][i] == id;
      }
    }

    /**
     * request_reissue: it fails exactly when the pick leads to the same server. A server that is down is picked again
     * only when no server is up.
     */
    method Reissue(req: Request) returns (failed: bool)
      requires Valid() && req in inflight
      modifies `serverHead, `servers, req`ns, req`txCount, known`inflight
      ensures Valid() && (failed <==> req.ns == old(req.ns)) && req.txCount == if failed then old(req.txCount) else 0
      ensures good > 0 ==> req.ns != null && req.ns.up
      ensures req.ns != null && req.ns == old(NextServer()) && (failed <==> old(NextServer()) == old(req.ns))
      ensures failed && old(req.ns) != null && !old(req.ns).up ==> good == 0
    {
      hide Linked, IdsOk, Counts, Assigned, ServersOk, LoadsCount, NextServer, PickedFrom, UpIn;
      HasServer(req);
      KnownServer(req.ns);
      var lastNs := req.ns;
      var ns := PickServer();
      Swap(req, ns);
      if req.ns == lastNs {
        return true;
      }
      req.txCount := 0;
      return false;
    }

    lemma KnownServer(ns: Server)
      requires ServersOk() && ns in known
      ensures servers != [] && good >= 0
    {
    }

    /** nameserver_up, apart from ending the probe. */
    method Up(ns: Server)
      requires Valid() && ns in known
      modifies `good, ns`up, ns`failedTimes
      ensures Valid() && ns.up && UpSet(servers) == old(UpSet(servers)) + {ns}
      ensures old(ns.up) ==> ns.failedTimes == old(ns.failedTimes)
      ensures !old(ns.up) ==> ns.failedTimes == 0
    {
      hide Linked, IdsOk, Counts, Assigned, CircleLinks, LoadsCount;
      if ns.up {
        return;
      }
      ns.up := true;
      ns.failedTimes := 0;
      good := good + 1;
      assert UpSet(servers) == old(UpSet(servers)) + {ns};
    }

    /** nameserver_failed up to the walk over the requests. */
    method Down(ns: Server)
      requires Valid() && ns in known && ns.up
      modifies `good, ns`up, ns`failedTimes
      ensures Valid() && !ns.up && ns.failedTimes == 1 && good == old(good) - 1 >= 0
      ensures UpSet(servers) == old(UpSet(servers)) - {ns}
    {
      hide Linked, IdsOk, Counts, Assigned, CircleLinks, LoadsCount;
      good := good - 1;
      ns.up := false;
      ns.failedTimes := 1;
      assert UpSet(servers) == old(UpSet(servers)) - {ns};
      assert old(UpSet(servers)) == UpSet(servers) + {ns};
    }

    /**
     * nameserver_failed: a server is down; what it has not sent yet goes to the servers that are up, to each one in
     * turn, in the order of the table.
     */
    method Failed(ns: Server)
      requires Valid() && ns in known
      modifies `good, ns`up, ns`failedTimes, `serverHead, `servers, inflight`ns, known`inflight
      ensures Valid() && (old(ns.up) ==> ns.failedTimes == 1)
      ensures !old(ns.up) ==> serverHead == old(serverHead) && ns.failedTimes == old(ns.failedTimes)
      ensures forall s :: s in known ==> s.up == (old(s.up) && s != ns)
      ensures forall r :: r in inflight ==>
        if old(ns.up) && good > 0 && r.txCount == 0 && old(r.ns) == ns then r.ns != null && r.ns.up
          else r.ns == old(r.ns)
      ensures old(ns.up) && good > 0 ==>
        var moved := Chosen(Joined(buckets), old(UnsentBy(ns)));
        Given(moved, |moved|, old(servers))
    {
      hide Valid, ValidBut, Given, Chosen, Joined, UnsentBy;
      if !ns.up {
        return;
      }
      Down(ns);
      if good == 0 {
        return;
      }
      UnsentIs(ns);
      Reassign(ns, UnsentBy(ns));
    }

    /** The requests that a server was given and has not sent. */
    ghost function UnsentBy(ns: Server): set<Request>
      reads `inflight, inflight`txCount, inflight`ns
    {
      set r | r in inflight && r.txCount == 0 && r.ns == ns
    }

    lemma UnsentIs(ns: Server)
      ensures forall r :: r in UnsentBy(ns) <==> r in inflight && r.txCount == 0 && r.ns == ns
    {
    }

    /** The walk over all requests in nameserver_failed. */
    method Reassign(ns: Server, ghost unsent: set<Request>)
      requires Valid() && ns in known && !ns.up && good > 0 && unsent == UnsentBy(ns)
      modifies `serverHead, `servers, inflight`ns, known`inflight
      ensures Valid()
      ensures forall r :: r in inflight ==> if r in unsent then r.ns != null && r.ns.up else r.ns == old(r.ns)
      ensures var moved := Chosen(Joined(buckets), unsent); Given(moved, |moved|, old(servers))
    {
      hide Valid, ValidBut, Collected, Members, Given, Chosen, Joined;
      var i := 0;
      ghost var q := servers;
      AllCollected();
      CollectedNone(buckets);
      NoneChosen(buckets, unsent);
      NoneGiven([]);
      while i < heads.Length
        invariant Valid() && 0 <= i <= heads.Length == |buckets| && Collected(buckets) == inflight
        invariant forall r :: r in inflight ==>
          if r in Collected(buckets[..i]) && r in unsent then r.ns != null && r.ns.up else r.ns == old(r.ns)
        invariant var moved := Chosen(Joined(buckets[..i]), unsent); Given(moved, |moved|, q)
      {
        CollectedStep(buckets, i);
        CollectedPart(buckets, i);
        BucketLeft(i);
        MovedSoFar(buckets[..i], unsent);
        ReassignBucket(ns, i, unsent, Chosen(Joined(buckets[..i]), unsent), q);
        ChosenStep(buckets, i, unsent);
        i := i + 1;
      }
      assert buckets[..i] == buckets;
    }

    /** No request of list `i` is in the lists in front of it. */
    lemma BucketLeft(i: nat)
      requires Valid() && i < |buckets|
      ensures forall r :: r in Members(buckets[i]) ==> r in inflight && r !in Collected(buckets[..i])
    {
      assert InBuckets(buckets, inflight);
      CollectedIs(buckets[..i]);
      BucketsApart(buckets, inflight, i);
      assert forall j :: 0 <= j < i ==> buckets[..i][j] == buckets[j];
    }

    /** The walk around one list, when the requests `before` have been given away. */
    method ReassignBucket(ns: Server, i: nat, ghost unsent: set<Request>, ghost before: seq<Request>,
        ghost q: seq<Server>)
      requires Valid() && ns in known && !ns.up && good > 0 && i < heads.Length == |buckets|
      requires forall r :: r in Members(buckets[i]) ==> (r in unsent <==> r.txCount == 0 && r.ns == ns)
      requires Given(before, |before|, q)
      requires forall r :: r in before ==> r in inflight && r !in Members(buckets[i])
      modifies `serverHead, `servers, inflight`ns, known`inflight
      ensures Valid()
      ensures forall r :: r in inflight ==>
        if r in Members(buckets[i]) && r in unsent then r.ns != null && r.ns.up else r.ns == old(r.ns)
      ensures var moved := before + Chosen(buckets[i], unsent); Given(moved, |moved|, q)
    {
      hide Valid, ValidBut, NextServer, Given, Chosen, PickedFrom;
      var req := heads[i];
      var startedAt := req;
      ghost var k: nat, b := 0, buckets[i];
      RingAt(i, 0);
      ChosenNone(b, before, unsent);
      if req != null {
        while true
          invariant Valid() && k < |b| && req == b[k] && startedAt == b[0]
          invariant forall r :: r in inflight ==>
            if r in Members(b[..k]) && r in unsent then r.ns != null && r.ns.up else r.ns == old(r.ns)
          invariant var moved := before + Chosen(b[..k], unsent); Given(moved, |moved|, q)
          decreases |b| - k
        {
          RingAt(i, k);
          ReassignAt(ns, i, k, req, unsent, before, q);
          req := req.next;
          k := k + 1;
          if req == startedAt {
            assert b[..k] == b;
            break;
          }
        }
      }
    }

    method ReassignAt(ns: Server, ghost i: nat, ghost k: nat, req: Request, ghost unsent: set<Request>,
        ghost before: seq<Request>, ghost q: seq<Server>)
      requires Valid() && ns in known && !ns.up && good > 0 && i < heads.Length == |buckets| && k < |buckets[i]|
      requires req == buckets[i][k] && (req in unsent <==> req.txCount == 0 && req.ns == ns)
      requires var moved := before + Chosen(buckets[i][..k], unsent); Given(moved, |moved|, q)
      requires forall r :: r in before ==> r in inflight && r !in Members(buckets[i])
      modifies `serverHead, `servers, req`ns, known`inflight
      ensures Valid() && req !in buckets[i][..k]
      ensures if req in unsent then req.ns != null && req.ns.up else req.ns == old(req.ns)
      ensures var moved := before + Chosen(buckets[i][..k + 1], unsent); Given(moved, |moved|, q)
    {
      hide Valid, ValidBut, Given, Chosen, UpIn;
      ghost var b := buckets[i];
      RingAt(i, k);
      ChosenIn(b, k, unsent);
      ReassignOne(req, ns, unsent, before + Chosen(b[..k], unsent), q);
      ChosenMore(b, k, before, unsent);
    }

    /** The body of the loop of nameserver_failed. */
    method ReassignOne(req: Request, ns: Server, ghost unsent: set<Request>, ghost moved: seq<Request>,
        ghost q: seq<Server>)
      requires Valid() && ns in known && !ns.up && good > 0 && req in inflight && req !in moved
      requires req in unsent <==> req.txCount == 0 && req.ns == ns
      requires Given(moved, |moved|, q) && forall r :: r in moved ==> r in inflight
      modifies `serverHead, `servers, req`ns, known`inflight
      ensures Valid()
      ensures if req in unsent then req.ns != null && req.ns.up else req.ns == old(req.ns)
      ensures if req in unsent then Given(moved + [req], |moved| + 1, q) else Given(moved, |moved|, q)
    {
      hide Valid, ValidBut, NextServer, Given, PickedFrom, UpIn, Nth, Follows, InTurn;
      if req.txCount == 0 && req.ns == ns {
        ghost var now := servers;
        GivenParts(moved, |moved|, q);
        var picked := PickServer();
        Swap(req, picked);
        OneGiven(req, moved, q, now);
      }
    }

    lemma GivenParts(w: seq<Request>, n: nat, q: seq<Server>)
      requires Given(w, n, q)
      ensures InTurn(w, n, q) && if q == [] then servers == [] else Follows(q, servers, n)
    {
    }

    lemma OneGiven(req: Request, moved: seq<Request>, q: seq<Server>, now: seq<Server>)
      requires InTurn(moved, |moved|, q) && (if q == [] then now == [] else Follows(q, now, |moved|))
      requires PickedFrom(now, req.ns)
      ensures Given(moved + [req], |moved| + 1, q)
    {
      hide Nth, Follows;
      PickedNext(now, req.ns);
      InTurnMore(moved + [req], |moved|, q, now);
      FollowsMore(q, now, servers, |moved|, 1);
    }

    /** What a walk around the list at `i` meets at its place `k`. */
    lemma RingAt(i: nat, k: nat)
      requires Valid() && i < heads.Length
      ensures |buckets| == heads.Length
      ensures heads[i] == null <==> buckets[i] == []
      ensures heads[i] != null ==> heads[i] == buckets[i][0]
      ensures k < |buckets[i]| ==> buckets[i][k] in inflight && buckets[i][k] !in buckets[i][..k]
      ensures forall r :: r in buckets[i] ==> r in inflight
      ensures k + 1 < |buckets[i]| ==> buckets[i][k].next == buckets[i][k + 1] != buckets[i][0]
      ensures k + 1 == |buckets[i]| ==> buckets[i][k].next == buckets[i][0]
    {
      var q := buckets[i];
      assert Ring(heads[i], q);
      assert k < |q| ==> q[k].next == q[After(k, |q|)];
    }

    lemma AllCollected()
      requires Valid()
      ensures |buckets| == heads.Length && Collected(buckets) == inflight
    {
      CollectedIs(buckets);
      assert InBuckets(buckets, inflight);
      forall r | r in inflight ensures r in Collected(buckets) {
        assert r in buckets[r.transId % |buckets|];
      }
    }

    /** The lists of the table together are as long as the counter says. */
    lemma CounterIsTotal()
      requires Valid()
      ensures Total(buckets) == globalInflight == |inflight|
    {
      AllCollected();
      forall i | 0 <= i < |buckets| ensures NoDup(buckets[i]) {
        assert Ring(heads[i], buckets[i]);
      }
      assert InBuckets(buckets, inflight);
      TotalIs(buckets);
    }

    /** request_find_from_trans_id. */
    method Find(id: nat) returns (found: Request?)
      requires Valid()
      ensures found == null ==> forall r :: r in inflight ==> r.transId != id
      ensures found != null ==> found in inflight && found.transId == id
    {
      hide Valid, ValidBut;
      BucketOf(id);
      var i := id % heads.Length;
      var req := heads[i];
      var startedAt := req;
      ghost var k: nat, q := 0, buckets[i];
      RingAt(i, 0);
      if req != null {
        while true
          invariant k < |q| && req == q[k] && startedAt == q[0]
          invariant forall j :: 0 <= j < k ==> q[j].transId != id
          decreases |q| - k
        {
          RingAt(i, k);
          if req.transId == id {
            return req;
          }
          req := req.next;
          k := k + 1;
          if req == startedAt {
            break;
          }
        }
      }
      return null;
    }

    lemma BucketOf(id: nat)
      requires Valid()
      ensures |buckets| == heads.Length > 0
      ensures forall r :: r in inflight && r.transId == id ==> r in buckets[id % heads.Length]
    {
      assert InBuckets(buckets, inflight);
    }

    /** transaction_id_pick: the first of the random numbers `draws` that can be used; `k` is its place. */
    method PickId(draws: seq<nat>) returns (k: nat)
      requires Valid() && forall i :: 0 <= i < |draws| ==> draws[i] <= 0xffff
      ensures k <= |draws| && forall i :: 0 <= i < k ==> !Unused([draws[i]])
      ensures k < |draws| ==> Unused([draws[k]])
    {
      hide Valid, ValidBut;
      k := 0;
      while k < |draws|
        invariant k <= |draws| && forall i :: 0 <= i < k ==> !Unused([draws[i]])
      {
        if draws[k] != 0xffff {
          var r := Find(draws[k]);
          if r == null {
            return;
          }
          assert r.transId == [draws[k]][0];
        }
        assert !([draws[k]][0] < 0xffff) || !Unused([draws[k]]);
        k := k + 1;
      }
    }
  }

  /** All requests of the lists. */
  ghost function Collected(bs: seq<seq<Request>>): set<Request> {
    if bs == [] then {} else Collected(bs[..|bs| - 1]) + Members(bs[|bs| - 1])
  }

  ghost function Total(bs: seq<seq<Request>>): nat {
    if bs == [] then 0 else Total(bs[..|bs| - 1]) + |bs[|bs| - 1]|
  }

  /** The requests of the lists, one list behind the other. */
  ghost function Joined(bs: seq<seq<Request>>): seq<Request> {
    if bs == [] then [] else Joined(bs[..|bs| - 1]) + bs[|bs| - 1]
  }

  /** Those of the requests that are in `s`, in their order. */
  ghost function Chosen(q: seq<Request>, s: set<Request>): seq<Request> {
    if q == [] then []
    else Chosen(q[..|q| - 1], s) + if q[|q| - 1] in s then [q[|q| - 1]] else []
  }

  lemma {:induction false} ChosenConcat(a: seq<Request>, b: seq<Request>, s: set<Request>)
    ensures Chosen(a + b, s) == Chosen(a, s) + Chosen(b, s)
  {
    if b == [] {
      assert a + b == a;
    } else {
      ChosenConcat(a, b[..|b| - 1], s);
      assert (a + b)[..|a + b| - 1] == a + b[..|b| - 1];
    }
  }

  lemma {:induction false} ChosenIs(q: seq<Request>, s: set<Request>, r: Request)
    ensures r in Chosen(q, s) <==> r in q && r in s
  {
    if q != [] {
      ChosenIs(q[..|q| - 1], s, r);
      assert q == q[..|q| - 1] + [q[|q| - 1]];
    }
  }

  lemma NoneChosen(bs: seq<seq<Request>>, s: set<Request>)
    ensures Chosen(Joined(bs[..0]), s) == []
  {
  }

  lemma ChosenStep(bs: seq<seq<Request>>, i: nat, s: set<Request>)
    requires i < |bs|
    ensures Chosen(Joined(bs[..i + 1]), s) == Chosen(Joined(bs[..i]), s) + Chosen(bs[i], s)
  {
    hide Chosen;
    assert bs[..i + 1][..i] == bs[..i];
    ChosenConcat(Joined(bs[..i]), bs[i], s);
  }

  lemma MovedSoFar(bs: seq<seq<Request>>, s: set<Request>)
    ensures forall r :: r in Chosen(Joined(bs), s) ==> r in Collected(bs) && r in s
  {
    hide Chosen, Joined, Collected;
    forall r | r in Chosen(Joined(bs), s) ensures r in Collected(bs) && r in s {
      ChosenIs(Joined(bs), s, r);
      JoinedIs(bs, r);
    }
  }

  lemma {:induction false} JoinedIs(bs: seq<seq<Request>>, r: Request)
    ensures r in Joined(bs) <==> r in Collected(bs)
  {
    if bs != [] { JoinedIs(bs[..|bs| - 1], r); }
  }

  lemma CollectedPart(bs: seq<seq<Request>>, i: nat)
    requires i <= |bs|
    ensures Collected(bs[..i]) <= Collected(bs)
  {
    CollectedIs(bs);
    CollectedIs(bs[..i]);
    forall r | r in Collected(bs[..i]) ensures r in Collected(bs) {
      var j :| 0 <= j < i && r in bs[..i][j];
      assert r in bs[j];
    }
  }

  lemma ChosenNone(b: seq<Request>, before: seq<Request>, s: set<Request>)
    ensures before + Chosen(b[..0], s) == before
  {
  }

  lemma ChosenMore(b: seq<Request>, k: nat, before: seq<Request>, s: set<Request>)
    requires k < |b|
    ensures var moved := before + Chosen(b[..k], s);
      before + Chosen(b[..k + 1], s) == if b[k] in s then moved + [b[k]] else moved
    ensures b[..k + 1] == b[..k] + [b[k]]
  {
    assert b[..k + 1][..k] == b[..k];
  }

  lemma ChosenIn(b: seq<Request>, k: nat, s: set<Request>)
    requires k <= |b|
    ensures forall r :: r in Chosen(b[..k], s) ==> r in b[..k]
  {
    hide Chosen;
    forall r | r in Chosen(b[..k], s) ensures r in b[..k] {
      ChosenIs(b[..k], s, r);
    }
  }

  lemma CollectedNone(bs: seq<seq<Request>>)
    ensures Collected(bs[..0]) == {}
  {
  }

  lemma CollectedStep(bs: seq<seq<Request>>, i: nat)
    requires i < |bs|
    ensures Collected(bs[..i + 1]) == Collected(bs[..i]) + Members(bs[i])
  {
    assert bs[..i + 1][..i] == bs[..i];
  }

  lemma {:induction false} CollectedIs(bs: seq<seq<Request>>)
    ensures forall i, r :: 0 <= i < |bs| && r in bs[i] ==> r in Collected(bs)
    ensures forall r :: r in Collected(bs) ==> exists i :: 0 <= i < |bs| && r in bs[i]
  {
    if bs != [] {
      var rest := bs[..|bs| - 1];
      CollectedIs(rest);
      assert forall i :: 0 <= i < |rest| ==> rest[i] == bs[i];
      forall r | r in Collected(bs) ensures exists i :: 0 <= i < |bs| && r in bs[i] {
        if r in Members(bs[|bs| - 1]) {
          assert r in bs[|bs| - 1];
        } else {
          assert r in Collected(rest);
          var i :| 0 <= i < |rest| && r in rest[i];
          assert bs[i] == rest[i];
        }
      }
    }
  }

  /** Lists without repetitions or common members have as many places as members. */
  lemma {:induction false} TotalIs(bs: seq<seq<Request>>)
    requires forall i :: 0 <= i < |bs| ==> NoDup(bs[i])
    requires forall i, j, r :: 0 <= i < j < |bs| && r in bs[i] ==> r !in bs[j]
    ensures Total(bs) == |Collected(bs)|
  {
    if bs != [] {
      var rest, last := bs[..|bs| - 1], bs[|bs| - 1];
      assert forall i :: 0 <= i < |rest| ==> rest[i] == bs[i];
      TotalIs(rest);
      CollectedIs(rest);
      DistinctCount(last, Members(last));
      assert Collected(rest) !! Members(last);
    }
  }

  /** The list without `x`. */
  ghost function Dropped<T>(q: seq<T>, x: T): seq<T> {
    if q == [] then [] else if q[0] == x then q[1..] else [q[0]] + Dropped(q[1..], x)
  }

  lemma {:induction false} DroppedFacts<T>(q: seq<T>, x: T)
    requires NoDup(q)
    ensures x !in q ==> Dropped(q, x) == q
    ensures forall y :: y in Dropped(q, x) <==> y in q && y != x
  {
    if q != [] {
      assert NoDup(q[1..]);
      assert q == [q[0]] + q[1..];
      DroppedFacts(q[1..], x);
    }
  }

  lemma {:induction false} DroppedAt<T>(q: seq<T>, x: T) returns (k: nat)
    requires NoDup(q) && x in q
    ensures k < |q| && q[k] == x && Dropped(q, x) == Without(q, k) && |Without(q, k)| == |q| - 1
  {
    if q[0] == x {
      k := 0;
    } else {
      assert NoDup(q[1..]);
      k := DroppedAt(q[1..], x);
      k := k + 1;
      assert Without(q, k) == [q[0]] + Without(q[1..], k - 1);
    }
  }

  lemma StillOut<T>(q: seq<T>, n: nat, x: T)
    requires n <= |q| && x !in q
    ensures x !in q[n..] && x !in Members(q[..n])
  {
  }

  ghost function Members<T>(q: seq<T>): set<T> {
    set x | x in q
  }

  lemma TakenNone<T>(w: seq<T>, was: set<T>)
    ensures w[0..] == w && was + Members(w[..0]) == was
  {
  }

  lemma WithinBoth<T>(w: seq<T>, was: set<T>, n: nat)
    requires n <= |w|
    ensures forall i :: 0 <= i < n ==> w[i] in was + Members(w[..n])
    ensures forall x :: x in was + Members(w[..n]) ==> x in was || x in w
    ensures forall x :: x in w[n..] ==> x in w
  {
    assert forall i :: 0 <= i < n ==> w[..n][i] == w[i];
  }

  lemma TakenOne<T>(w: seq<T>, was: set<T>, n: nat)
    requires n < |w|
    ensures w[n..][0] == w[n] && w[n..][1..] == w[n + 1..]
    ensures was + Members(w[..n]) + {w[n]} == was + Members(w[..n + 1])
    ensures forall x :: x in was + Members(w[..n]) ==> x in was || x in w
    ensures forall x :: x in w[n..] ==> x in w
  {
    assert w[..n + 1] == w[..n] + [w[n]];
  }

  lemma SameNone<T>(a: seq<T>, b: seq<T>)
    requires forall x :: x in a <==> x in b
    ensures a == [] <==> b == []
  {
    assert a != [] ==> a[0] in b;
    assert b != [] ==> b[0] in a;
  }

  /** `ns->requests_inflight++` for a request that was added. */
  method LoadOne(ghost servers: set<Server>, ghost was: set<Request>, ghost req: Request, ns: Server?)
    requires req !in was && req.ns == ns && ns != null && ns in servers && LoadsAre(servers, was)
    modifies ns`inflight
    ensures LoadsAre(servers, was + {req})
  {
    hide Of;
    forall s ensures |Of(was + {req}, s)| == |Of(was, s)| + if s == ns then 1 else 0 {
      OfAdded(was, req, s);
    }
    ns.inflight := ns.inflight + 1;
    assert forall s :: s in servers ==> |Of(was + {req}, s)| == old(|Of(was + {req}, s)|);
  }

  /** `ns->requests_inflight--` for a request that was removed. */
  method UnloadOne(ghost servers: set<Server>, ghost now: set<Request>, ghost req: Request, ns: Server?)
    requires req !in now && req.ns == ns && ns != null && ns in servers && LoadsAre(servers, now + {req})
    modifies ns`inflight
    ensures LoadsAre(servers, now)
  {
    forall s ensures |Of(now + {req}, s)| == |Of(now, s)| + if s == ns then 1 else 0 {
      OfAdded(now, req, s);
    }
    ns.inflight := ns.inflight - 1;
  }

  /** A table of circular lists holds the requests `all`, each in the list of its transaction id. */
  ghost predicate Table(heads: array<Request?>, bs: seq<seq<Request>>, all: set<Request>)
    reads heads, all`next, all`prev, all`transId
  {
    Entries(heads, bs, all)
  }

  ghost predicate Entries(heads: array<Request?>, bs: seq<seq<Request>>, all: set<Request>)
    reads heads, all`next, all`prev, all`transId
  {
    && heads.Length == |bs| && InBuckets(bs, all)
    && forall i :: 0 <= i < |bs| ==> Ring(heads[i], bs[i])
  }

  /** evdns_request_insert for the list of the request's id. */
  method TableInsert(heads: array<Request?>, ghost bs: seq<seq<Request>>, ghost all: set<Request>, req: Request)
    returns (ghost bs': seq<seq<Request>>)
    requires Table(heads, bs, all) && req !in all
    modifies heads, req`next, req`prev, all`next, all`prev
    ensures Table(heads, bs', all + {req}) && |bs'| == |bs|
  {
    hide Links, NoDup, InBuckets;
    ghost var n := |bs|;
    Sizes(bs, all);
    var b := req.transId % heads.Length;
    BucketsApart(bs, all, b);
    BucketAdded(bs, all, req);
    var head := RingInsert(req, heads[b], bs[b]);
    forall i | 0 <= i < n && i != b ensures Ring(heads[i], bs[i]) {
      assert old(Ring(heads[i], bs[i]));
      assert forall r: Request :: r in bs[i] ==> r != req && r !in bs[b];
      assert forall r: Request :: r in bs[i] ==> r.next == old(r.next) && r.prev == old(r.prev);
    }
    heads[b] := head;
    bs' := bs[b := bs[b] + [req]];
  }

  /** evdns_request_remove for the list of the request's id. */
  method TableRemove(heads: array<Request?>, ghost bs: seq<seq<Request>>, ghost all: set<Request>, req: Request)
    returns (ghost bs': seq<seq<Request>>)
    requires Table(heads, bs, all) && req in all
    modifies heads, all`next, all`prev
    ensures Table(heads, bs', all - {req}) && |bs'| == |bs|
    ensures forall j :: 0 <= j < |bs| && j != req.transId % |bs| ==> bs'[j] == bs[j]
    ensures |bs| > 0 && |bs'[req.transId % |bs|]| == |bs[req.transId % |bs|]| - 1
  {
    hide Links, NoDup, InBuckets, Without;
    ghost var n := |bs|;
    Sizes(bs, all);
    var b := req.transId % heads.Length;
    BucketsApart(bs, all, b);
    ghost var k := BucketRemoved(bs, all, heads[b], req);
    var head := RingRemove(req, heads[b], bs[b], k);
    forall i | 0 <= i < n && i != b ensures Ring(heads[i], bs[i]) {
      assert old(Ring(heads[i], bs[i]));
      assert forall r: Request :: r in bs[i] ==> r !in bs[b];
      assert forall r: Request :: r in bs[i] ==> r.next == old(r.next) && r.prev == old(r.prev);
    }
    heads[b] := head;
    bs' := bs[b := Without(bs[b], k)];
  }

  ghost function Empties(n: nat): seq<seq<Request>> {
    seq(n, _ => [])
  }

  lemma EmptyTable(heads: array<Request?>)
    requires heads.Length > 0 && forall i :: 0 <= i < heads.Length ==> heads[i] == null
    ensures Table(heads, Empties(heads.Length), {})
  {
  }

  lemma HeadAt(heads: array<Request?>, bs: seq<seq<Request>>, all: set<Request>, i: nat)
    requires Table(heads, bs, all) && i < heads.Length
    ensures |bs| == heads.Length && (heads[i] == null <==> bs[i] == [])
    ensures heads[i] != null ==> heads[i] in all && heads[i].transId % |bs| == i
  {
    assert Ring(heads[i], bs[i]);
  }

  lemma AllEmpty(heads: array<Request?>, bs: seq<seq<Request>>, all: set<Request>)
    requires Table(heads, bs, all) && forall i :: 0 <= i < |bs| ==> bs[i] == []
    ensures all == {}
  {
    InSome(bs, all);
  }

  lemma InSome(bs: seq<seq<Request>>, all: set<Request>)
    requires InBuckets(bs, all)
    ensures forall r :: r in all ==> exists i :: 0 <= i < |bs| && r in bs[i]
  {
    forall r | r in all ensures exists i :: 0 <= i < |bs| && r in bs[i] {
      assert r in bs[r.transId % |bs|];
    }
  }

  method MoveOne(heads: array<Request?>, ghost bs: seq<seq<Request>>, ghost left: set<Request>,
                 moved: array<Request?>, ghost ms: seq<seq<Request>>, ghost done: set<Request>, i: nat, req: Request)
    returns (ghost bs': seq<seq<Request>>, ghost ms': seq<seq<Request>>)
    requires Table(heads, bs, left) && Table(moved, ms, done) && moved != heads && left !! done
    requires i < heads.Length == |bs| && heads[i] == req && req in left && req.transId % |bs| == i
    modifies heads, moved, left`next, left`prev, done`next, done`prev
    ensures Table(heads, bs', left - {req}) && Table(moved, ms', done + {req})
    ensures |bs'| == |bs| && |ms'| == |ms| && forall j :: 0 <= j < |bs| && j != i ==> bs'[j] == bs[j]
  {
    hide Entries;
    bs' := TableRemove(heads, bs, left, req);
    ms' := TableInsert(moved, ms, done, req);
  }

  /** The loop of evdns_base_set_max_requests_inflight. */
  method MoveAll(heads: array<Request?>, ghost bs: seq<seq<Request>>, ghost all: set<Request>, moved: array<Request?>)
    returns (ghost bs': seq<seq<Request>>)
    requires Table(heads, bs, all) && moved != heads && moved.Length > 0 && Table(moved, Empties(moved.Length), {})
    modifies heads, moved, all`next, all`prev
    ensures Table(moved, bs', all) && |bs'| == moved.Length
  {
    hide Entries;
    ghost var left, done: set<Request>, was := all, {}, bs;
    bs' := Empties(moved.Length);
    var i := 0;
    while i < heads.Length
      invariant 0 <= i <= heads.Length && left !! done && left + done == all
      invariant Table(heads, was, left) && Table(moved, bs', done) && |bs'| == moved.Length && |was| == |bs|
      invariant forall j :: 0 <= j < i && j < |was| ==> was[j] == []
    {
      HeadAt(heads, was, left, i);
      while heads[i] != null
        invariant left !! done && left + done == all
        invariant Table(heads, was, left) && Table(moved, bs', done) && |bs'| == moved.Length && |was| == |bs|
        invariant forall j :: 0 <= j < i && j < |was| ==> was[j] == []
        decreases |left|
      {
        HeadAt(heads, was, left, i);
        var req := heads[i];
        was, bs' := MoveOne(heads, was, left, moved, bs', done, i, req);
        left, done := left - {req}, done + {req};
      }
      HeadAt(heads, was, left, i);
      i := i + 1;
    }
    TableSize(heads, was, left);
    AllEmpty(heads, was, left);
  }

  lemma TableSize(heads: array<Request?>, bs: seq<seq<Request>>, all: set<Request>)
    requires Table(heads, bs, all)
    ensures heads.Length == |bs|
  {
  }

  /** What holds of the requests in flight, for given buckets. */
  ghost predicate InBuckets(bs: seq<seq<Request>>, inflight: set<Request>)
    reads inflight`transId
  {
    && |bs| > 0
    && (forall i :: 0 <= i < |bs| ==> forall r :: r in bs[i] ==> r in inflight && r.transId % |bs| == i)
    && (forall r :: r in inflight ==> r in bs[r.transId % |bs|])
  }

  lemma Sizes(bs: seq<seq<Request>>, inflight: set<Request>)
    requires InBuckets(bs, inflight)
    ensures |bs| > 0
  {
  }

  lemma BucketsApart(bs: seq<seq<Request>>, inflight: set<Request>, b: nat)
    requires InBuckets(bs, inflight) && b < |bs|
    ensures forall i, r :: 0 <= i < |bs| && i != b && r in bs[i] ==> r !in bs[b]
    ensures forall i, r :: 0 <= i < |bs| && r in bs[i] ==> r in inflight
  {
  }

  lemma RingDistinct(head: Request?, q: seq<Request>)
    requires Ring(head, q)
    ensures NoDup(q)
  {
  }

  lemma WithoutIn<T>(q: seq<T>, k: nat)
    requires NoDup(q) && k < |q|
    ensures forall x :: x in Without(q, k) <==> x in q && x != q[k]
    ensures |Without(q, k)| == |q| - 1 && NoDup(Without(q, k))
  {
    assert q == q[..k] + [q[k]] + q[k + 1..];
  }

  lemma BucketRemoved(bs: seq<seq<Request>>, inflight: set<Request>, head: Request?, req: Request) returns (k: nat)
    requires InBuckets(bs, inflight) && req in inflight && Ring(head, bs[req.transId % |bs|])
    ensures
      var b := req.transId % |bs|;
      k < |bs[b]| && bs[b][k] == req && InBuckets(bs[b := Without(bs[b], k)], inflight - {req})
    ensures var b := req.transId % |bs|; |Without(bs[b], k)| == |bs[b]| - 1
  {
    var b := req.transId % |bs|;
    k :| 0 <= k < |bs[b]| && bs[b][k] == req;
    RingDistinct(head, bs[b]);
    WithoutIn(bs[b], k);
  }

  lemma BucketAdded(bs: seq<seq<Request>>, inflight: set<Request>, req: Request)
    requires InBuckets(bs, inflight) && req !in inflight
    ensures var b := req.transId % |bs|; InBuckets(bs[b := bs[b] + [req]], inflight + {req})
  {
  }

  lemma TurnedAll<T>(q: seq<T>)
    ensures Turned(q, |q|) == q
  {
  }

  lemma TurnedNone<T>(q: seq<T>)
    ensures Turned(q, 0) == q
  {
  }

  lemma CircleNext(head: Server, q: seq<Server>)
    requires q != [] && Circle(head, q)
    ensures Circle(q[0].next, Turned(q, 1))
    ensures forall s :: s in Turned(q, 1) <==> s in q
  {
    assert q[0].next == q[After(0, |q|)];
    if |q| == 1 {
      assert Turned(q, 1) == q;
    } else {
      CircleTurned(head, q, 1);
    }
  }

  lemma TurnedTwice<T>(q: seq<T>, k: nat)
    requires k < |q|
    ensures Turned(Turned(q, k), 1) == Turned(q, if k + 1 == |q| then 0 else k + 1)
    ensures Turned(q, k)[0] == q[k] && Turned(q, k) != []
  {
  }

  lemma OtherServer(q: seq<Server>, k: nat)
    requires NoDup(q) && 0 < k < |q|
    ensures q[k] != q[0]
  {
  }
}
