/** Why entries that are in use do not expire: the router an entry leads to goes on offering it at a cost that
    is good enough to be taken again, and so renews it. */
module Refresh {
  import opened Common
  import opened RouteTables
  import opened Networks

  // ---------------------------------------------------------------- being heard often enough

  // From step x up to step i everything that reaches r is less than maxAge old at the time now.
  ghost predicate RecentSince(net: Network, steps: seq<Step>, r: Router, x: nat, i: nat, maxAge: int, now: int)
    requires i <= |steps|
  {
    forall k {:trigger steps[k]} :: x <= k < i && DeliversTo(net, steps[k], r) ==> now - steps[k].now <= maxAge
  }

  ghost predicate DeliversTo(net: Network, step: Step, r: Router) {
    && step.Deliver? && step.message.from in net.peer
    && net.peer[step.message.from] in net.owner && net.owner[net.peer[step.message.from]] == r
  }

  // When r looks for old entries in step i, the interface a has sent since x, and been heard, and all r has heard
  // since x is recent; or all r has ever heard is.
  ghost predicate Fresh(
      net: Network, trace: seq<State>, steps: seq<Step>, a: Address, x: nat, i: nat, maxAge: int, now: int)
    requires WellWired(net) && IsRun(net, trace, steps) && a in net.peer && i < |steps|
  {
    && (x == 0 || exists y :: x < y < i && SentAndDelivered(net, trace, steps, a, x, y))
    && RecentSince(net, steps, net.owner[net.peer[a]], x, i, maxAge, now)
  }

  ghost predicate HeardInTime(net: Network, trace: seq<State>, steps: seq<Step>, a: Address, i: nat)
    requires WellWired(net) && IsRun(net, trace, steps) && a in net.peer && i < |steps| && steps[i].Expire?
  {
    exists x: nat :: x <= i && Fresh(net, trace, steps, a, x, i, steps[i].maxAge, steps[i].now)
  }

  // Whenever a router looks for old entries, it has heard every neighbour in time.
  ghost predicate Timely(net: Network, trace: seq<State>, steps: seq<Step>)
    requires WellWired(net) && IsRun(net, trace, steps)
  {
    forall a, i: nat {:trigger HeardInTime(net, trace, steps, a, i)} ::
      a in net.peer && i < |steps| && steps[i].Expire? && net.owner[net.peer[a]] == steps[i].router ==>
      HeardInTime(net, trace, steps, a, i)
  }

  // ---------------------------------------------------------------- the offer is renewed

  /** Whatever r holds by way of a, the router at a offers again at any time, unpoisoned, and at a cost at which r
      takes it: it holds the destination cheaper, and not by way of r, whose entry would have to be cheaper still. */
  lemma OfferStands(net: Network, s: State, a: Address, d: Address)
    requires WellWired(net) && LoopFree(net, s) && a in net.peer
    requires var e := Lookup(s.tables[net.owner[net.peer[a]]], d);
      e.Some? && e.value.cost > 0 && e.value.nextHop == a
    ensures var e := Lookup(s.tables[net.owner[net.peer[a]]], d).value;
      var offer := LookupPackage(MessageFrom(net, s, a).entries, d);
      offer.Some? && offer.value.cost < e.cost
  {
    var u, v := net.owner[a], net.owner[net.peer[a]];
    var e := Lookup(s.tables[v], d).value;
    assert TableInv(net, s, v) && TableInv(net, s, u);
    assert Grounded(net, s, v, e);
    var back := Lookup(s.tables[u], d).value;
    assert Grounded(net, s, u, back);
    PoisonedLookup(s.tables[u], net.peer[a], d);
    if back.nextHop == net.peer[a] && back.cost == 0 {
      assert false;
    }
  }

  lemma Renewed(entries: seq<Entry>, m: Message, now: int, d: Address)
    requires Distinct(entries) && DistinctPackage(m.entries)
    requires Lookup(entries, d).Some? && LookupPackage(m.entries, d).Some?
    requires LookupPackage(m.entries, d).value.cost < Lookup(entries, d).value.cost
    ensures var after := Lookup(Merged(entries, m.entries, m.from, now), d);
      after.Some? && after.value.lastUpdated == now
  {
    MergeIsPointwise(entries, m.entries, m.from, now);
  }

  // ---------------------------------------------------------------- what becomes of an entry

  // e is as old as some delivery to r in the steps from x up to i.
  ghost predicate CameWith(net: Network, steps: seq<Step>, r: Router, e: Entry, x: nat, i: nat)
    requires i <= |steps|
  {
    exists k :: x <= k < i && DeliversTo(net, steps[k], r) && e.lastUpdated == steps[k].now
  }

  lemma CameWithin(net: Network, steps: seq<Step>, r: Router, e: Entry, x: nat, x': nat, i': nat, i: nat)
    requires x <= x' && i' <= i <= |steps| && CameWith(net, steps, r, e, x', i')
    ensures CameWith(net, steps, r, e, x, i)
  {
  }

  // What r holds for d after step i - 1 is what it held before step x, or came with a delivery in between.
  ghost predicate SameOrRecent(
      net: Network, trace: seq<State>, steps: seq<Step>, r: Router, d: Address, x: nat, i: nat)
    requires WellWired(net) && IsRun(net, trace, steps) && x <= i < |trace|
    requires r in trace[x].tables && r in trace[i].tables
  {
    var e := Lookup(trace[i].tables[r], d);
    || e == Lookup(trace[x].tables[r], d)
    || (e.Some? && CameWith(net, steps, r, e.value, x, i))
  }

  lemma EntryStep(net: Network, s: State, step: Step, r: Router, d: Address)
    requires WellWired(net) && LoopFree(net, s) && Enabled(net, s, step) && r in s.tables
    requires step.Expire? ==> Apply(net, s, step) == s
    ensures var e := Lookup(Apply(net, s, step).tables[r], d);
      || e == Lookup(s.tables[r], d)
      || (DeliversTo(net, step, r) && e.Some? && e.value.lastUpdated == step.now)
  {
    if DeliversTo(net, step, r) {
      assert TableInv(net, s, r) && MessageInv(net, s, step.message);
      MergeIsPointwise(s.tables[r], step.message.entries, step.message.from, step.now);
    }
  }

  lemma OneStepHistory(net: Network, trace: seq<State>, steps: seq<Step>, r: Router, d: Address, i: nat)
    requires WellWired(net) && IsRun(net, trace, steps) && i < |steps| && NothingExpires(trace, steps, i + 1)
    requires r in trace[i].tables
    ensures r in trace[i + 1].tables && SameOrRecent(net, trace, steps, r, d, i, i + 1)
  {
    assert Taken(net, trace[i], steps[i], trace[i + 1]);
    RunIsLoopFree(net, trace, steps, i);
    hide LoopFree, WellWired, Lookup, IsRun;
    EntryStep(net, trace[i], steps[i], r, d);
    assert SameOrRecent(net, trace, steps, r, d, i, i + 1);
  }

  lemma TwoHistories(
      net: Network, trace: seq<State>, steps: seq<Step>, r: Router, d: Address, x: nat, y: nat, i: nat)
    requires WellWired(net) && IsRun(net, trace, steps) && x <= y <= i < |trace|
    requires r in trace[x].tables && r in trace[y].tables && r in trace[i].tables
    requires SameOrRecent(net, trace, steps, r, d, x, y) && SameOrRecent(net, trace, steps, r, d, y, i)
    ensures SameOrRecent(net, trace, steps, r, d, x, i)
  {
    hide WellWired, Lookup, CameWith;
    var before, after := Lookup(trace[y].tables[r], d), Lookup(trace[i].tables[r], d);
    if after != before {
      CameWithin(net, steps, r, after.value, x, y, i, i);
    } else if after != Lookup(trace[x].tables[r], d) {
      CameWithin(net, steps, r, after.value, x, x, y, i);
    }
  }

  lemma {:induction false} EntryHistory(
      net: Network, trace: seq<State>, steps: seq<Step>, r: Router, d: Address, x: nat, i: nat)
    requires WellWired(net) && IsRun(net, trace, steps) && x <= i < |trace| && NothingExpires(trace, steps, i)
    requires r in trace[x].tables
    ensures r in trace[i].tables && SameOrRecent(net, trace, steps, r, d, x, i)
    decreases i
  {
    hide WellWired, NothingExpires;
    if x < i {
      NothingExpiresBefore(trace, steps, i - 1);
      EntryHistory(net, trace, steps, r, d, x, i - 1);
      OneStepHistory(net, trace, steps, r, d, i - 1);
      TwoHistories(net, trace, steps, r, d, x, i - 1, i);
    }
  }

  lemma NothingLearnedYet(net: Network, s: State, r: Router, d: Address)
    requires WellWired(net) && IsInitial(net, s) && r in s.tables && Lookup(s.tables[r], d).Some?
    ensures Lookup(s.tables[r], d).value.cost == 0
  {
    assert FreshTable(net, r, s.tables[r]);
    var addresses, now :| OwnsExactly(net, r, addresses) && s.tables[r] == Initial(addresses, now);
    InitialLookup(addresses, now);
  }

  // What r keeps by way of a from before a's broadcast until after its delivery is renewed by it.
  lemma DeliveryRenews(
      net: Network, trace: seq<State>, steps: seq<Step>, a: Address, x: nat, y: nat, d: Address, e: Entry)
    requires WellWired(net) && IsRun(net, trace, steps) && a in net.peer && x < y < |steps|
    requires NothingExpires(trace, steps, y) && SentAndDelivered(net, trace, steps, a, x, y)
    requires e.cost > 0 && e.nextHop == a
    requires var r := net.owner[net.peer[a]];
      && r in trace[x].tables && r in trace[y].tables && r in trace[y + 1].tables
      && Lookup(trace[x].tables[r], d) == Lookup(trace[y].tables[r], d) == Lookup(trace[y + 1].tables[r], d) == Some(e)
    ensures CameWith(net, steps, net.owner[net.peer[a]], e, y, y + 1)
  {
    var r, m := net.owner[net.peer[a]], steps[y].message;
    RunIsLoopFree(net, trace, steps, x);
    RunIsLoopFree(net, trace, steps, y);
    assert Taken(net, trace[y], steps[y], trace[y + 1]);
    OfferStands(net, trace[x], a, d);
    assert TableInv(net, trace[y], r) && MessageInv(net, trace[y], m);
    Renewed(trace[y].tables[r], m, steps[y].now, d);
    assert DeliversTo(net, steps[y], r);
  }

  lemma DeliveryLeavesTrace(
      net: Network, trace: seq<State>, steps: seq<Step>, a: Address, x: nat, y: nat, i: nat, d: Address, e: Entry)
    requires WellWired(net) && IsRun(net, trace, steps) && a in net.peer && x < y < i <= |steps|
    requires NothingExpires(trace, steps, i) && SentAndDelivered(net, trace, steps, a, x, y)
    requires e.cost > 0 && e.nextHop == a
    requires var r := net.owner[net.peer[a]];
      && r in trace[x].tables && r in trace[i].tables
      && Lookup(trace[x].tables[r], d) == Lookup(trace[i].tables[r], d) == Some(e)
    ensures CameWith(net, steps, net.owner[net.peer[a]], e, x, i)
  {
    hide LoopFree, CameWith, SentAndDelivered, Lookup, NothingExpires;
    var r := net.owner[net.peer[a]];
    RunKeepsRouters(net, trace, steps, x, y);
    NothingExpiresUpTo(trace, steps, y + 1, i);
    NothingExpiresUpTo(trace, steps, y, i);
    EntryHistory(net, trace, steps, r, d, y, y + 1);
    EntryHistory(net, trace, steps, r, d, y + 1, i);
    if CameWith(net, steps, r, e, y + 1, i) {
      CameWithin(net, steps, r, e, x, y + 1, i, i);
    } else {
      if !CameWith(net, steps, r, e, y, y + 1) {
        DeliveryRenews(net, trace, steps, a, x, y, d, e);
      }
      CameWithin(net, steps, r, e, x, y, y + 1, i);
    }
  }

  lemma EntryIsRecent(
      net: Network, trace: seq<State>, steps: seq<Step>, a: Address, x: nat, i: nat, maxAge: int, now: int, d: Address)
    requires WellWired(net) && IsRun(net, trace, steps) && a in net.peer && x <= i < |steps|
    requires NothingExpires(trace, steps, i) && Fresh(net, trace, steps, a, x, i, maxAge, now)
    requires net.owner[net.peer[a]] in trace[i].tables
    requires var e := Lookup(trace[i].tables[net.owner[net.peer[a]]], d);
      e.Some? && e.value.cost > 0 && e.value.nextHop == a
    ensures now - Lookup(trace[i].tables[net.owner[net.peer[a]]], d).value.lastUpdated <= maxAge
  {
    hide LoopFree, CameWith, SentAndDelivered, Lookup, NothingExpires, RecentSince;
    var r := net.owner[net.peer[a]];
    var e := Lookup(trace[i].tables[r], d).value;
    RunKeepsRouters(net, trace, steps, x, i);
    EntryHistory(net, trace, steps, r, d, x, i);
    if Lookup(trace[x].tables[r], d) == Some(e) {
      if x == 0 {
        NothingLearnedYet(net, trace[0], r, d);
      } else {
        var y :| x < y < i && SentAndDelivered(net, trace, steps, a, x, y);
        DeliveryLeavesTrace(net, trace, steps, a, x, y, i, d, e);
      }
    }
    RecentEntry(net, steps, r, e, x, i, maxAge, now);
  }

  lemma RecentEntry(
      net: Network, steps: seq<Step>, r: Router, e: Entry, x: nat, i: nat, maxAge: int, now: int)
    requires i <= |steps| && RecentSince(net, steps, r, x, i, maxAge, now) && CameWith(net, steps, r, e, x, i)
    ensures now - e.lastUpdated <= maxAge
  {
  }

  lemma {:induction false} NoneTooOld(entries: seq<Entry>, maxAge: int, now: int)
    requires forall e :: e in entries ==> !TooOld(e, maxAge, now)
    ensures Aged(entries, maxAge, now) == entries
  {
    if entries != [] {
      var k := |entries| - 1;
      NoneTooOld(entries[..k], maxAge, now);
      assert entries == entries[..k] + [entries[k]];
    }
  }

  lemma AgingRemovesNothing(net: Network, trace: seq<State>, steps: seq<Step>, i: nat)
    requires WellWired(net) && IsRun(net, trace, steps) && Timely(net, trace, steps)
    requires i < |steps| && steps[i].Expire? && NothingExpires(trace, steps, i)
    ensures trace[i + 1] == trace[i]
  {
    assert Taken(net, trace[i], steps[i], trace[i + 1]);
    RunIsLoopFree(net, trace, steps, i);
    var r, maxAge, now := steps[i].router, steps[i].maxAge, steps[i].now;
    var t := trace[i].tables[r];
    assert TableInv(net, trace[i], r);
    forall e | e in t ensures !TooOld(e, maxAge, now) {
      var n :| 0 <= n < |t| && t[n] == e;
      LookupIs(t, n);
      assert Grounded(net, trace[i], r, e);
      if e.cost > 0 {
        assert HeardInTime(net, trace, steps, e.nextHop, i);
        var x: nat :| x <= i && Fresh(net, trace, steps, e.nextHop, x, i, maxAge, now);
        EntryIsRecent(net, trace, steps, e.nextHop, x, i, maxAge, now, e.destination);
      }
    }
    NoneTooOld(t, maxAge, now);
    assert trace[i].tables[r := t] == trace[i].tables;
  }

  /** In a run in which every router that looks for old entries has heard each of its neighbours in time, no entry is
      ever removed, however the broadcasts overtake each other. */
  lemma {:induction false} TimelyMeansNothingExpires(net: Network, trace: seq<State>, steps: seq<Step>, n: nat)
    requires WellWired(net) && IsRun(net, trace, steps) && Timely(net, trace, steps) && n <= |steps|
    ensures NothingExpires(trace, steps, n)
  {
    if n > 0 {
      TimelyMeansNothingExpires(net, trace, steps, n - 1);
      if steps[n - 1].Expire? {
        AgingRemovesNothing(net, trace, steps, n - 1);
      }
    }
  }

  /** So the network converges with ageing at work: after k rounds of a timely run every router at most k hops from a
      destination's owner holds it at exactly its hop distance, by way of a router that is one hop closer. */
  lemma TimelyConvergence(
      net: Network, trace: seq<State>, steps: seq<Step>, cuts: seq<nat>, k: nat, r: Router, d: Address, hops: nat)
    requires WellWired(net) && IsRun(net, trace, steps) && Timely(net, trace, steps)
    requires Rounds(net, trace, steps, cuts) && k < |cuts|
    requires r in trace[cuts[k]].tables && hops <= k && HopDistance(net, r, d, hops)
    ensures var e := Lookup(trace[cuts[k]].tables[r], d);
      && e.Some?
      && e.value.cost == hops
      && (hops == 0 ==> e.value.nextHop == d)
      && (hops > 0 ==> e.value.nextHop in net.peer && net.owner[net.peer[e.value.nextHop]] == r
                       && HopDistance(net, net.owner[e.value.nextHop], d, hops - 1))
  {
    TimelyMeansNothingExpires(net, trace, steps, cuts[k]);
    Convergence(net, trace, steps, cuts, k, r, d, hops);
  }
}
