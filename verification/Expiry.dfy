/** What is left of loop freedom once entries age out: with each broadcast received as it is sent,
    no two routers ever point at each other, but three may. */
module Expiry {
  import opened Common
  import opened RouteTables
  import opened Networks

  type Tables = map<Router, seq<Entry>>

  datatype Event =
    | Broadcast(a: Address, now: int)
    | Age(router: Router, maxAge: int, now: int)

  // At most one link joins two routers, and none joins a router to itself.
  ghost predicate SimpleGraph(net: Network)
    requires WellWired(net)
  {
    && (forall a :: a in net.peer ==> net.owner[a] != net.owner[net.peer[a]])
    && forall a, b :: a in net.peer && b in net.peer && a != b && net.owner[a] == net.owner[b] ==>
         net.owner[net.peer[a]] != net.owner[net.peer[b]]
  }

  ghost predicate Occurs(net: Network, t: Tables, event: Event, t': Tables)
    requires WellWired(net)
  {
    && Populated(net, State(t, multiset{}))
    && match event
       case Broadcast(a, now) =>
         a in net.peer &&
         var v := net.owner[net.peer[a]];
         t' == t[v := Merged(t[v], MessageFrom(net, State(t, multiset{}), a).entries, a, now)]
       case Age(r, maxAge, now) => r in t && t' == t[r := Aged(t[r], maxAge, now)]
  }

  ghost predicate IsRun(net: Network, trace: seq<Tables>, events: seq<Event>)
    requires WellWired(net)
  {
    && |trace| == |events| + 1
    && IsInitial(net, State(trace[0], multiset{}))
    && forall i {:trigger events[i]} :: 0 <= i < |events| ==> Occurs(net, trace[i], events[i], trace[i + 1])
  }

  // u forwards packages for d to another router v.
  ghost predicate Via(net: Network, t: Tables, u: Router, d: Address, v: Router) {
    && u in t && u != v
    && Lookup(t[u], d).Some?
    && Lookup(t[u], d).value.nextHop in net.owner
    && net.owner[Lookup(t[u], d).value.nextHop] == v
  }

  // An entry points at the router itself, or over one of its links.
  ghost predicate Local(net: Network, r: Router, e: Entry)
    requires WellWired(net)
  {
    || (e.nextHop in net.owner && net.owner[e.nextHop] == r)
    || (e.nextHop in net.peer && net.owner[net.peer[e.nextHop]] == r)
  }

  ghost predicate LocalTable(net: Network, t: Tables, r: Router)
    requires WellWired(net) && r in t
  {
    Distinct(t[r]) && forall d :: Lookup(t[r], d).Some? ==> Local(net, r, Lookup(t[r], d).value)
  }

  ghost predicate NoTwoRouterLoop(net: Network, t: Tables) {
    forall u, v, d :: Via(net, t, u, d, v) ==> !Via(net, t, v, d, u)
  }

  ghost predicate Inv(net: Network, t: Tables)
    requires WellWired(net)
  {
    && Populated(net, State(t, multiset{}))
    && (forall r {:trigger LocalTable(net, t, r)} :: r in t ==> LocalTable(net, t, r))
    && NoTwoRouterLoop(net, t)
  }

  lemma InitialIsLocal(net: Network, t: Tables, r: Router, addresses: seq<Address>, now: int)
    requires WellWired(net) && r in t && OwnsExactly(net, r, addresses) && t[r] == Initial(addresses, now)
    ensures LocalTable(net, t, r) && forall v, d :: !Via(net, t, r, d, v)
  {
    InitialLookup(addresses, now);
    forall d | Lookup(t[r], d).Some? ensures Lookup(t[r], d).value.nextHop == d && net.owner[d] == r {
      assert d in addresses;
    }
  }

  lemma InitialInv(net: Network, t: Tables)
    requires WellWired(net) && IsInitial(net, State(t, multiset{}))
    ensures Inv(net, t)
  {
    forall r | r in t ensures LocalTable(net, t, r) && forall v, d :: !Via(net, t, r, d, v) {
      assert FreshTable(net, r, t[r]);
      var addresses, now :| OwnsExactly(net, r, addresses) && t[r] == Initial(addresses, now);
      InitialIsLocal(net, t, r, addresses, now);
    }
  }

  // After the broadcast over a, what v sends to u is what it already sent there, and u does not send it back.
  lemma BroadcastKeeps(net: Network, t: Tables, a: Address, now: int, t': Tables)
    requires WellWired(net) && SimpleGraph(net) && Inv(net, t) && Occurs(net, t, Broadcast(a, now), t')
    ensures Inv(net, t')
  {
    var u, v := net.owner[a], net.owner[net.peer[a]];
    var ps := MessageFrom(net, State(t, multiset{}), a).entries;
    assert LocalTable(net, t, u) && LocalTable(net, t, v);
    forall d
      ensures DistinctPackage(ps)
      ensures Lookup(t'[v], d) == Lookup(t[v], d) ||
              (Lookup(t'[v], d).Some? && Lookup(t'[v], d).value.nextHop == a && !Via(net, t, u, d, v))
    {
      PoisonedLookup(t[u], net.peer[a], d);
      MergeIsPointwise(t[v], ps, a, now);
    }
    MergeIsPointwise(t[v], ps, a, now);
    forall r | r in t' ensures LocalTable(net, t', r) {
      assert LocalTable(net, t, r);
    }
    forall x, y, d | Via(net, t', x, d, y) ensures !Via(net, t', y, d, x) {
      assert Via(net, t, x, d, y) || (x == v && y == u && !Via(net, t, u, d, v));
      assert Via(net, t', y, d, x) ==> Via(net, t, y, d, x) || (y == v && x == u && !Via(net, t, u, d, v));
    }
  }

  lemma AgeKeeps(net: Network, t: Tables, r: Router, maxAge: int, now: int, t': Tables)
    requires WellWired(net) && Inv(net, t) && Occurs(net, t, Age(r, maxAge, now), t')
    ensures Inv(net, t')
  {
    assert LocalTable(net, t, r);
    AgedLookup(t[r], maxAge, now);
    forall q | q in t' ensures LocalTable(net, t', q) {
      assert LocalTable(net, t, q);
    }
    forall x, y, d | Via(net, t', x, d, y) ensures !Via(net, t', y, d, x) {
      assert Via(net, t, x, d, y);
      assert Via(net, t', y, d, x) ==> Via(net, t, y, d, x);
    }
  }

  lemma {:induction false} RunKeepsInv(net: Network, trace: seq<Tables>, events: seq<Event>, i: nat)
    requires WellWired(net) && SimpleGraph(net) && IsRun(net, trace, events) && i < |trace|
    ensures Inv(net, trace[i])
  {
    if i == 0 {
      InitialInv(net, trace[0]);
    } else {
      RunKeepsInv(net, trace, events, i - 1);
      assert Occurs(net, trace[i - 1], events[i - 1], trace[i]);
      match events[i - 1]
      case Broadcast(a, now) => BroadcastKeeps(net, trace[i - 1], a, now, trace[i]);
      case Age(r, maxAge, now) => AgeKeeps(net, trace[i - 1], r, maxAge, now, trace[i]);
    }
  }

  /** Poisoned reverse at work: whatever the interleaving of broadcasts and aging, no reachable state
      has u routing d by way of v while v routes d by way of u. */
  lemma NeverTwoRouterLoop(
      net: Network, trace: seq<Tables>, events: seq<Event>, i: nat, u: Router, v: Router, d: Address)
    requires WellWired(net) && SimpleGraph(net) && IsRun(net, trace, events) && i < |trace|
    ensures !(Via(net, trace[i], u, d, v) && Via(net, trace[i], v, d, u))
  {
    RunKeepsInv(net, trace, events, i);
  }

  // ---------------------------------------------------------------- longer loops do form

  // Interface 10 is at router 0, which is linked to router 1; routers 1, 2, 3 form a triangle.
  // The links join 10-11, 12-13, 14-15 and 16-17.
  function TriangleOwner(a: Address): Router {
    if a == 10 then 0 else if a == 13 || a == 14 then 2 else if a == 15 || a == 16 then 3 else 1
  }

  function TrianglePeer(a: Address): Address
    requires 10 <= a < 18
  {
    if a % 2 == 0 then a + 1 else a - 1
  }

  ghost predicate IsTriangle(net: Network) {
    && net.owner.Keys == net.peer.Keys
    && (forall a :: a in net.owner <==> 10 <= a < 18)
    && forall a :: a in net.owner ==> net.owner[a] == TriangleOwner(a) && net.peer[a] == TrianglePeer(a)
  }

  lemma {:induction false} FewAddresses(s: set<Address>, lo: nat, k: nat)
    requires forall a :: a in s ==> lo <= a < lo + k
    ensures |s| <= k
  {
    if s != {} {
      var last := lo + k - 1;
      if last < 256 {
        FewAddresses(s - {last}, lo, k - 1);
      } else {
        FewAddresses(s, lo, k - 1);
      }
    }
  }

  lemma OneLinkAPair(a: Address, b: Address)
    requires 10 <= a < 18 && 10 <= b < 18
    ensures TriangleOwner(a) != TriangleOwner(TrianglePeer(a))
    ensures TriangleOwner(a) == TriangleOwner(b) && TriangleOwner(TrianglePeer(a)) == TriangleOwner(TrianglePeer(b))
      ==> a == b
  {
  }

  lemma TriangleIsWired(net: Network)
    requires IsTriangle(net)
    ensures WellWired(net)
  {
    FewAddresses(net.owner.Keys, 10, 8);
    assert |net.owner| == |net.owner.Keys|;
    forall a | a in net.peer ensures a in net.owner && net.peer[a] in net.peer && net.peer[net.peer[a]] == a {
      assert net.peer[a] == TrianglePeer(a);
    }
  }

  lemma TriangleIsSimple(net: Network)
    requires IsTriangle(net) && WellWired(net)
    ensures SimpleGraph(net)
  {
    forall a, b | a in net.peer && b in net.peer
      ensures net.owner[a] != net.owner[net.peer[a]]
      ensures a != b && net.owner[a] == net.owner[b] ==> net.owner[net.peer[a]] != net.owner[net.peer[b]]
    {
      assert net.peer[a] == TrianglePeer(a) && net.peer[b] == TrianglePeer(b);
      OneLinkAPair(a, b);
    }
  }

  // Router r sends what is for interface 10 to the given hop, at cost at most c, as last heard by now.
  ghost predicate Holds(t: Tables, r: Router, hop: Option<Address>, c: nat, now: int) {
    r in t &&
    var e := Lookup(t[r], 10);
    && Distinct(t[r])
    && (e.Some? <==> hop.Some?)
    && (e.Some? ==> e.value.nextHop == hop.value && e.value.cost <= c && e.value.lastUpdated <= now
                    && (r != 0 ==> e.value.cost > 0))
  }

  function TriangleAddresses(r: Router): seq<Address>
    requires r < 4
  {
    if r == 0 then [10] else if r == 1 then [11, 12, 17] else if r == 2 then [13, 14] else [15, 16]
  }

  lemma TriangleOwned(net: Network, r: Router)
    requires IsTriangle(net) && r < 4
    ensures OwnsExactly(net, r, TriangleAddresses(r))
  {
    forall d ensures d in TriangleAddresses(r) <==> d in net.owner && net.owner[d] == r {
      assert d in net.owner ==> net.owner[d] == TriangleOwner(d);
    }
  }

  lemma Start(net: Network) returns (t: Tables)
    requires IsTriangle(net)
    ensures IsInitial(net, State(t, multiset{})) && t.Keys == {0, 1, 2, 3}
    ensures forall r :: r in t ==> Holds(t, r, if r == 0 then Some(10) else None, 0, 0)
  {
    t := map r: Router | 0 <= r < 4 :: Initial(TriangleAddresses(r), 0);
    forall r | r in t
      ensures FreshTable(net, r, t[r]) && Holds(t, r, if r == 0 then Some(10) else None, 0, 0)
    {
      InitialLookup(TriangleAddresses(r), 0);
      TriangleOwned(net, r);
    }
    TriangleRouters(net);
  }

  lemma TriangleRouters(net: Network)
    requires IsTriangle(net)
    ensures net.owner.Values == {0, 1, 2, 3}
  {
    forall r: Router | r in net.owner.Values ensures r in {0, 1, 2, 3} {
      var a :| a in net.owner && net.owner[a] == r;
    }
    assert net.owner[10] == 0 && net.owner[11] == 1 && net.owner[13] == 2 && net.owner[15] == 3;
  }

  ghost predicate Reached(net: Network, t: Tables)
    requires WellWired(net)
  {
    exists trace, events {:trigger IsRun(net, trace, events)} :: IsRun(net, trace, events) && trace[|events|] == t
  }

  lemma ReachedAtStart(net: Network, t: Tables)
    requires WellWired(net) && IsInitial(net, State(t, multiset{}))
    ensures Reached(net, t)
  {
    var events: seq<Event> := [];
    assert IsRun(net, [t], events) && [t][|events|] == t;
  }

  lemma ReachedNext(net: Network, t: Tables, event: Event, t': Tables)
    requires WellWired(net) && Reached(net, t) && Occurs(net, t, event, t')
    ensures Reached(net, t')
  {
    var trace, events :| IsRun(net, trace, events) && trace[|events|] == t;
    var more, later := trace + [t'], events + [event];
    forall i | 0 <= i < |later| ensures Occurs(net, more[i], later[i], more[i + 1]) {
      if i < |events| {
        assert Occurs(net, trace[i], events[i], trace[i + 1]);
      }
    }
    assert IsRun(net, more, later) && more[|later|] == t';
  }

  // A router that knew nothing learns from a neighbour that does not route by way of it.
  lemma Hear(net: Network, t: Tables, u: Router, v: Router, hop: Address, a: Address, c: nat, now: int)
    returns (t': Tables)
    requires WellWired(net) && a in net.peer && Populated(net, State(t, multiset{}))
    requires net.owner[a] == u && net.owner[net.peer[a]] == v && u != v && v != 0
    requires c < 100 && Holds(t, u, Some(hop), c, now) && Holds(t, v, None, c, now) && hop != net.peer[a]
    requires Reached(net, t)
    ensures Reached(net, t')
    ensures t'.Keys == t.Keys && (forall r :: r in t && r != v ==> t'[r] == t[r]) && Holds(t', v, Some(a), c + 1, now)
  {
    var ps := MessageFrom(net, State(t, multiset{}), a).entries;
    PoisonedLookup(t[u], net.peer[a], 10);
    MergeIsPointwise(t[v], ps, a, now);
    t' := t[v := Merged(t[v], ps, a, now)];
    ReachedNext(net, t, Broadcast(a, now), t');
  }

  lemma Forget(net: Network, t: Tables, r: Router, hop: Address, c: nat, now: int) returns (t': Tables)
    requires WellWired(net) && Populated(net, State(t, multiset{})) && r != 0
    requires Holds(t, r, Some(hop), c, 0) && now > ENTRY_MAX_AGE_MILLI
    requires Reached(net, t)
    ensures Reached(net, t')
    ensures t'.Keys == t.Keys && (forall q :: q in t && q != r ==> t'[q] == t[q]) && Holds(t', r, None, c, now)
  {
    AgedLookup(t[r], ENTRY_MAX_AGE_MILLI, now);
    t' := t[r := Aged(t[r], ENTRY_MAX_AGE_MILLI, now)];
    ReachedNext(net, t, Age(r, ENTRY_MAX_AGE_MILLI, now), t');
  }

  ghost predicate Joins(net: Network, a: Address, u: Router, v: Router, b: Address) {
    a in net.peer && a in net.owner && net.peer[a] == b && b in net.owner && net.owner[a] == u && net.owner[b] == v
  }

  // First the route spreads from router 0 by way of 1 and 2 to 3.
  lemma RouteSpreads(net: Network, t0: Tables) returns (t: Tables)
    requires WellWired(net) && Reached(net, t0) && Populated(net, State(t0, multiset{})) && t0.Keys == {0, 1, 2, 3}
    requires Joins(net, 10, 0, 1, 11) && Joins(net, 12, 1, 2, 13) && Joins(net, 14, 2, 3, 15)
    requires forall r :: r in t0 ==> Holds(t0, r, if r == 0 then Some(10) else None, 0, 0)
    ensures Reached(net, t) && t.Keys == t0.Keys
    ensures Holds(t, 1, Some(10), 1, 0) && Holds(t, 2, Some(12), 2, 0) && Holds(t, 3, Some(14), 3, 0)
  {
    var t1 := Hear(net, t0, 0, 1, 10, 10, 0, 0);
    var t2 := Hear(net, t1, 1, 2, 10, 12, 1, 0);
    t := Hear(net, t2, 2, 3, 12, 14, 2, 0);
  }

  // Then router 1 forgets it, and hears it again from router 3.
  lemma LoopCloses(net: Network, t: Tables) returns (t': Tables)
    requires WellWired(net) && Reached(net, t) && Populated(net, State(t, multiset{})) && Joins(net, 16, 3, 1, 17)
    requires Joins(net, 12, 1, 2, 13) && Joins(net, 14, 2, 3, 15)
    requires Holds(t, 1, Some(10), 1, 0) && Holds(t, 2, Some(12), 2, 0) && Holds(t, 3, Some(14), 3, 0)
    ensures Reached(net, t')
    ensures Via(net, t', 1, 10, 3) && Via(net, t', 3, 10, 2) && Via(net, t', 2, 10, 1)
  {
    var forgotten := Forget(net, t, 1, 10, 3, 6000);
    t' := Hear(net, forgotten, 3, 1, 14, 16, 3, 6000);
  }

  lemma Triangle() returns (net: Network)
    ensures IsTriangle(net)
  {
    net := Network(
      map a: Address | 10 <= a < 18 :: TriangleOwner(a),
      map a: Address | 10 <= a < 18 :: TrianglePeer(a));
  }

  lemma TriangleJoins(net: Network)
    requires IsTriangle(net)
    ensures Joins(net, 10, 0, 1, 11) && Joins(net, 12, 1, 2, 13)
    ensures Joins(net, 14, 2, 3, 15) && Joins(net, 16, 3, 1, 17)
  {
  }

  /** With aging the rank argument fails for longer loops. Here the entry of router 1 ages out, and
      router 1 then believes router 3, whose route leads back through it. */
  lemma AgingAllowsThreeRouterLoop() returns (net: Network, t: Tables)
    ensures WellWired(net) && SimpleGraph(net) && Reached(net, t)
    ensures Via(net, t, 1, 10, 3) && Via(net, t, 3, 10, 2) && Via(net, t, 2, 10, 1)
  {
    net := Triangle();
    TriangleIsWired(net);
    TriangleIsSimple(net);
    TriangleJoins(net);
    t := Start(net);
    ReachedAtStart(net, t);
    t := RouteSpreads(net, t);
    t := LoopCloses(net, t);
  }
}
