/** How evdns shares requests out among its name servers: runs of requests, and the load of each server. */
module EvdnsRounds {
  import opened Bytes
  import opened EvdnsRequests

  /** How many of the first `k` turns around `u` come to `s`. */
  ghost function Visits(u: seq<Server>, k: nat, s: Server): nat
    requires u != []
  {
    if k == 0 then 0 else Visits(u, k - 1, s) + if u[(k - 1) % |u|] == s then 1 else 0
  }

  /** The turns are shared out evenly: every `|u|` turns come to each one once, in order. */
  lemma {:induction false} VisitsAre(u: seq<Server>, k: nat, p: nat)
    requires NoDup(u) && p < |u|
    ensures Visits(u, k, u[p]) == k / |u| + if p < k % |u| then 1 else 0
  {
    var n := |u|;
    if k == 0 {
      DivOnce(0, n, 0, 0);
    } else {
      VisitsAre(u, k - 1, p);
      ModNext(k - 1, n);
      assert u[(k - 1) % n] == u[p] <==> (k - 1) % n == p;
    }
  }

  lemma {:induction false} NoVisits(u: seq<Server>, k: nat, s: Server)
    requires u != [] && s !in u
    ensures Visits(u, k, s) == 0
  {
    if k > 0 { NoVisits(u, k - 1, s); }
  }

  /** `s` gained its part of `k` requests that were shared out among `u`. */
  ghost predicate Gained(u: seq<Server>, k: nat, s: Server, gain: int) {
    && (s !in u ==> gain == 0)
    && (s in u ==> k / |u| <= gain <= k / |u| + 1 && (k % |u| == 0 ==> gain == k / |u|))
  }

  lemma GainedVisits(u: seq<Server>, k: nat, s: Server)
    requires u != [] && NoDup(u)
    ensures Gained(u, k, s, Visits(u, k, s))
  {
    if s in u {
      var p :| 0 <= p < |u| && u[p] == s;
      VisitsAre(u, k, p);
    } else {
      NoVisits(u, k, s);
    }
  }

  lemma Start(base: Base, ids: seq<nat>)
    requires base.Valid() && base.servers != []
    ensures var q := base.servers;
      Follows(q, q, 0) && InTurn([], 0, q) && NoDup(Order(q)) && forall s :: Visits(Order(q), 0, s) == 0
    ensures ids[0..] == ids && base.inflight + Members([]) == base.inflight
  {
    hide Base.Linked, Base.IdsOk, Base.Counts, Base.Assigned, LoadsAre, UpIn, Follows;
    base.UpKnown();
    FollowsSelf(base.servers);
  }

  lemma NextId(base: Base, ids: seq<nat>)
    requires base.Unused(ids) && ids != []
    ensures base.Unused([ids[0]]) && UnusedBy(base.inflight, ids)
  {
  }

  /** The ids behind the one that a request took are still unused. */
  lemma RestUnused(base: Base, was: set<Request>, req: Request, ids: seq<nat>)
    requires UnusedBy(was, ids) && ids != [] && base.inflight == was + {req} && req.transId == ids[0]
    ensures base.Unused(ids[1..])
  {
  }

  lemma TurnTaken(base: Base, q: seq<Server>, now: seq<Server>, reqs: seq<Request>, req: Request)
    requires base.PickedFrom(now, req.ns) && Follows(q, now, |reqs|) && InTurn(reqs, |reqs|, q)
    ensures base.servers != [] && Follows(q, base.servers, |reqs| + 1) && InTurn(reqs + [req], |reqs| + 1, q)
    ensures q != [] && req.ns == Order(q)[|reqs| % |Order(q)|]
  {
    hide Follows, Nth, Base.PickedFrom, Order;
    base.PickedNext(now, req.ns);
    FollowsMore(q, now, base.servers, |reqs|, 1);
    FollowsSome(q, base.servers, |reqs| + 1);
    TurnOf(q, now, |reqs|);
    InTurnMore(reqs + [req], |reqs|, q, now);
  }

  lemma FollowsSome(q: seq<Server>, r: seq<Server>, k: nat)
    requires Follows(q, r, k)
    ensures q != [] && r != []
  {
  }

  lemma TurnOf(q: seq<Server>, now: seq<Server>, k: nat)
    requires Follows(q, now, k)
    ensures q != [] && now != [] && Nth(now, 0) == Order(q)[k % |Order(q)|]
  {
    hide Order;
    assert Nth(now, 0) == Nth(q, 0 + k);
  }

  lemma MembersMore(reqs: seq<Request>, req: Request)
    ensures Members(reqs + [req]) == Members(reqs) + {req}
  {
  }

  /** When some server is up, the servers that are up are asked. */
  lemma UpOrder(base: Base)
    requires base.Valid() && base.good > 0
    ensures base.servers != [] && |Order(base.servers)| == base.good
    ensures forall s :: s in base.known ==> (s in Order(base.servers) <==> s.up)
  {
    hide Base.Linked, Base.IdsOk, Base.Counts, Base.Assigned, LoadsAre, NoDup;
    base.UpKnown();
  }

  /** One request of a run, behind the requests `reqs`. */
  method AskNext(base: Base, ids: seq<nat>, ghost q: seq<Server>, ghost reqs: seq<Request>) returns (req: Request)
    requires base.Valid() && base.Unused(ids) && ids != []
    requires base.servers != [] && base.globalInflight < base.maxInflight
    requires Follows(q, base.servers, |reqs|) && InTurn(reqs, |reqs|, q)
    modifies base`buckets, base`inflight, base`globalInflight, base`waitingHead, base`waiting, base`globalWaiting
    modifies base.heads, base`serverHead, base`servers
    modifies base.inflight`next, base.inflight`prev, base.waiting`next, base.waiting`prev, base.known`inflight
    ensures base.Valid() && fresh(req) && req.transId == ids[0] && base.Unused(ids[1..])
    ensures base.inflight == old(base.inflight) + {req} && base.globalInflight == old(base.globalInflight) + 1
    ensures base.waiting == old(base.waiting)
    ensures base.servers != [] && Follows(q, base.servers, |reqs| + 1) && InTurn(reqs + [req], |reqs| + 1, q)
    ensures q != [] && forall s :: s in base.known ==>
      s.inflight == old(s.inflight) + if Order(q)[|reqs| % |Order(q)|] == s then 1 else 0
  {
    hide Base.Valid, Base.Unused, Base.PickedFrom, Base.NextServer, Follows, Nth, InTurn, Order, UnusedBy;
    ghost var was, now := base.inflight, base.servers;
    NextId(base, ids);
    req := base.Ask(ids[0]);
    TurnTaken(base, q, now, reqs, req);
    RestUnused(base, was, req, ids);
  }

  /**
   * A run of requests for all of which there is room: they go to the servers in the order of the circle, to those that
   * are up if there are any, and so the servers that are asked share them evenly.
   */
  method AskAll(base: Base, ids: seq<nat>) returns (reqs: seq<Request>)
    requires base.Valid() && base.Unused(ids) && base.servers != [] && base.globalInflight + |ids| <= base.maxInflight
    modifies base`buckets, base`inflight, base`globalInflight, base`waitingHead, base`waiting, base`globalWaiting
    modifies base.heads, base`serverHead, base`servers
    modifies base.inflight`next, base.inflight`prev, base.waiting`next, base.waiting`prev, base.known`inflight
    ensures base.Valid() && |reqs| == |ids| && base.waiting == old(base.waiting)
    ensures base.inflight == old(base.inflight) + Members(reqs)
    ensures forall i :: 0 <= i < |reqs| ==> fresh(reqs[i]) && reqs[i].transId == ids[i]
    ensures InTurn(reqs, |reqs|, old(base.servers)) && Follows(old(base.servers), base.servers, |ids|)
    ensures forall s :: s in base.known ==>
      Gained(Order(old(base.servers)), |ids|, s, s.inflight - old(s.inflight))
  {
    hide Base.Valid, Base.Unused, Base.PickedFrom, Base.NextServer, Follows, Nth, InTurn, Order, Members;
    reqs := [];
    ghost var q := base.servers;
    ghost var u := Order(q);
    Start(base, ids);
    var k := 0;
    while k < |ids|
      invariant 0 <= k == |reqs| <= |ids| && base.Valid() && base.Unused(ids[k..])
      invariant base.servers != [] && Follows(q, base.servers, k) && InTurn(reqs, k, q)
      invariant base.waiting == old(base.waiting) && base.globalInflight == old(base.globalInflight) + k
      invariant base.inflight == old(base.inflight) + Members(reqs)
      invariant forall r :: r in base.inflight ==> r in old(base.inflight) || fresh(r)
      invariant forall i :: 0 <= i < k ==> fresh(reqs[i]) && reqs[i].transId == ids[i] && reqs[i] in base.inflight
      invariant forall s :: s in base.known ==> s.inflight == old(s.inflight) + Visits(u, k, s)
    {
      assert ids[k..][0] == ids[k] && ids[k..][1..] == ids[k + 1..];
      var req := AskNext(base, ids[k..], q, reqs);
      MembersMore(reqs, req);
      reqs, k := reqs + [req], k + 1;
    }
    forall s | s in base.known ensures Gained(u, |ids|, s, s.inflight - old(s.inflight)) {
      GainedVisits(u, |ids|, s);
    }
  }

  /** As many requests as there are servers that are up: each of these gets exactly one, and the others get none. */
  method AskRound(base: Base, ids: seq<nat>) returns (reqs: seq<Request>)
    requires base.Valid() && base.Unused(ids) && base.globalInflight + |ids| <= base.maxInflight
    requires base.good > 0 && |ids| == base.good
    modifies base`buckets, base`inflight, base`globalInflight, base`waitingHead, base`waiting, base`globalWaiting
    modifies base.heads, base`serverHead, base`servers
    modifies base.inflight`next, base.inflight`prev, base.waiting`next, base.waiting`prev, base.known`inflight
    ensures base.Valid() && base.inflight == old(base.inflight) + Members(reqs) && |reqs| == |ids|
    ensures forall s :: s in base.known ==> s.inflight == old(s.inflight) + if s.up then 1 else 0
  {
    hide Base.Valid, Base.Unused, Follows, Nth, InTurn, Members;
    UpOrder(base);
    ghost var u := Order(base.servers);
    reqs := AskAll(base, ids);
    forall s | s in base.known ensures s.inflight == old(s.inflight) + if s.up then 1 else 0 {
      assert Gained(u, |ids|, s, s.inflight - old(s.inflight));
      DivOnce(|ids|, |u|, 1, 0);
    }
  }
}
