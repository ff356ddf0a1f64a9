/** A network of routers running the table exchange: interfaces joined in pairs by links,
    broadcasts in flight between them, and the merge that a delivery performs. */
module Networks {
  import opened Common
  import opened RouteTables

  type Router = nat

  // owner: the router an interface address belongs to; peer: the interface at the other end of its link.
  datatype Network = Network(owner: map<Address, Router>, peer: map<Address, Address>)

  ghost predicate WellWired(net: Network) {
    && BROADCAST !in net.owner
    && |net.owner| < PACKAGE_ENTRIES_MAX
    && forall a :: a in net.peer ==> a in net.owner && net.peer[a] in net.peer && net.peer[net.peer[a]] == a
  }

  datatype State = State(tables: map<Router, seq<Entry>>, flight: multiset<Message>)

  // What a router may do, or the links may do to it. Deliveries come in any order, and may never come.
  datatype Step =
    | Send(a: Address)
    | Deliver(message: Message, now: int)
    | Lose(message: Message)
    | Expire(router: Router, maxAge: int, now: int)

  function MessageFrom(net: Network, s: State, a: Address): Message
    requires a in net.peer && a in net.owner && net.owner[a] in s.tables
  {
    OnInterface(Packed(s.tables[net.owner[a]]), Interface(a, Some(net.peer[a])))
  }

  ghost predicate Populated(net: Network, s: State) {
    forall a :: a in net.owner ==> net.owner[a] in s.tables
  }

  // A router whose table does not fit a package stops instead of sending.
  ghost predicate Enabled(net: Network, s: State, step: Step)
    requires WellWired(net) && Populated(net, s)
  {
    match step
    case Send(a) => a in net.peer && |s.tables[net.owner[a]]| < PACKAGE_ENTRIES_MAX
    case Deliver(m, _) => m in s.flight && m.from in net.peer
    case Lose(m) => m in s.flight
    case Expire(r, _, _) => r in s.tables
  }

  ghost function Apply(net: Network, s: State, step: Step): (s': State)
    requires WellWired(net) && Populated(net, s) && Enabled(net, s, step)
    ensures Populated(net, s') && s'.tables.Keys == s.tables.Keys
  {
    match step
    case Send(a) => s.(flight := s.flight + multiset{MessageFrom(net, s, a)})
    case Deliver(m, now) =>
      var v := net.owner[net.peer[m.from]];
      State(s.tables[v := Merged(s.tables[v], m.entries, m.from, now)], s.flight - multiset{m})
    case Lose(m) => s.(flight := s.flight - multiset{m})
    case Expire(r, maxAge, now) => s.(tables := s.tables[r := Aged(s.tables[r], maxAge, now)])
  }

  ghost predicate Taken(net: Network, s: State, step: Step, s': State)
    requires WellWired(net)
  {
    Populated(net, s) && Enabled(net, s, step) && s' == Apply(net, s, step)
  }

  // The states a network goes through, taking the steps one after another.
  ghost predicate IsRun(net: Network, trace: seq<State>, steps: seq<Step>)
    requires WellWired(net)
  {
    && |trace| == |steps| + 1
    && IsInitial(net, trace[0])
    && forall i {:trigger steps[i]} :: 0 <= i < |steps| ==> Taken(net, trace[i], steps[i], trace[i + 1])
  }

  // None of the first n steps takes an old entry out of a table.
  ghost predicate NothingExpires(trace: seq<State>, steps: seq<Step>, n: nat)
    requires n <= |steps| < |trace|
  {
    forall i :: 0 <= i < n && steps[i].Expire? ==> trace[i + 1] == trace[i]
  }

  lemma NothingExpiresUpTo(trace: seq<State>, steps: seq<Step>, i: nat, n: nat)
    requires i <= n <= |steps| < |trace| && NothingExpires(trace, steps, n)
    ensures NothingExpires(trace, steps, i)
  {
  }

  lemma NothingExpiresBefore(trace: seq<State>, steps: seq<Step>, i: nat)
    requires i < |steps| < |trace| && NothingExpires(trace, steps, i + 1)
    ensures NothingExpires(trace, steps, i)
    ensures steps[i].Expire? ==> trace[i + 1] == trace[i]
  {
  }

  // Every router has just been created with its own addresses, and nothing is in flight.
  ghost predicate IsInitial(net: Network, s: State) {
    && s.flight == multiset{}
    && s.tables.Keys == net.owner.Values
    && forall r {:trigger FreshTable(net, r, s.tables[r])} :: r in s.tables ==> FreshTable(net, r, s.tables[r])
  }

  ghost predicate FreshTable(net: Network, r: Router, t: seq<Entry>) {
    exists addresses, now :: OwnsExactly(net, r, addresses) && t == Initial(addresses, now)
  }

  ghost predicate OwnsExactly(net: Network, r: Router, addresses: seq<Address>) {
    forall d :: d in addresses <==> d in net.owner && net.owner[d] == r
  }

  // ---------------------------------------------------------------- distance

  // A walk of exactly k links leads from r to the owner of d.
  ghost predicate Walk(net: Network, r: Router, d: Address, k: nat)
    requires WellWired(net)
    decreases k
  {
    if k == 0 then d in net.owner && net.owner[d] == r
    else exists a :: a in net.peer && net.owner[net.peer[a]] == r && Walk(net, net.owner[a], d, k - 1)
  }

  ghost predicate HopDistance(net: Network, r: Router, d: Address, k: nat)
    requires WellWired(net)
  {
    Walk(net, r, d, k) && forall j: nat :: j < k ==> !Walk(net, r, d, j)
  }

  // ---------------------------------------------------------------- the invariant

  ghost predicate CostAtMost(entries: seq<Entry>, d: Address, c: int) {
    Lookup(entries, d).Some? && Lookup(entries, d).value.cost <= c
  }

  // A learned entry leads over a link to a router whose own entry is strictly cheaper,
  // and its cost is the length of a walk.
  ghost predicate Grounded(net: Network, s: State, r: Router, e: Entry)
    requires WellWired(net) && Populated(net, s)
  {
    && Walk(net, r, e.destination, e.cost)
    && (e.cost == 0 ==> e.nextHop == e.destination)
    && (e.cost > 0 ==>
         && e.nextHop in net.peer
         && net.owner[net.peer[e.nextHop]] == r
         && CostAtMost(s.tables[net.owner[e.nextHop]], e.destination, e.cost - 1))
  }

  ghost predicate TableInv(net: Network, s: State, r: Router)
    requires WellWired(net) && Populated(net, s) && r in s.tables
  {
    && Distinct(s.tables[r])
    && (forall d :: Lookup(s.tables[r], d).Some? ==> Grounded(net, s, r, Lookup(s.tables[r], d).value))
    && (forall d :: d in net.owner && net.owner[d] == r ==> CostAtMost(s.tables[r], d, 0))
  }

  // Whatever a message in flight still offers, its sender has at that cost or less.
  ghost predicate MessageInv(net: Network, s: State, m: Message)
    requires WellWired(net) && Populated(net, s)
  {
    && m.from in net.peer
    && DistinctPackage(m.entries)
    && forall d :: LookupPackage(m.entries, d).Some? && LookupPackage(m.entries, d).value.cost != POISONED ==>
         && Walk(net, net.owner[m.from], d, LookupPackage(m.entries, d).value.cost)
         && CostAtMost(s.tables[net.owner[m.from]], d, LookupPackage(m.entries, d).value.cost)
  }

  ghost predicate LoopFree(net: Network, s: State)
    requires WellWired(net)
  {
    && Populated(net, s)
    && (forall r {:trigger TableInv(net, s, r)} :: r in s.tables ==> TableInv(net, s, r))
    && (forall m {:trigger MessageInv(net, s, m)} :: m in s.flight ==> MessageInv(net, s, m))
  }

  lemma InitialTableInv(net: Network, s: State, r: Router, addresses: seq<Address>, now: int)
    requires WellWired(net) && Populated(net, s) && r in s.tables
    requires OwnsExactly(net, r, addresses) && s.tables[r] == Initial(addresses, now)
    ensures TableInv(net, s, r)
  {
    InitialLookup(addresses, now);
    forall d | Lookup(s.tables[r], d).Some? ensures Grounded(net, s, r, Lookup(s.tables[r], d).value) {
      assert Lookup(s.tables[r], d) == Some(Entry(d, d, 0, now));
      assert Walk(net, r, d, 0);
    }
  }

  lemma InitialIsLoopFree(net: Network, s: State)
    requires WellWired(net) && IsInitial(net, s)
    ensures LoopFree(net, s)
  {
    assert Populated(net, s);
    forall r | r in s.tables ensures TableInv(net, s, r) {
      assert FreshTable(net, r, s.tables[r]);
      var addresses, now :| OwnsExactly(net, r, addresses) && s.tables[r] == Initial(addresses, now);
      InitialTableInv(net, s, r, addresses, now);
    }
  }

  // No step but aging makes an entry dearer or takes it away.
  lemma StepImproves(net: Network, s: State, step: Step, r: Router, d: Address, c: int)
    requires WellWired(net) && LoopFree(net, s) && Enabled(net, s, step) && !step.Expire?
    requires r in s.tables && CostAtMost(s.tables[r], d, c)
    ensures CostAtMost(Apply(net, s, step).tables[r], d, c)
  {
    if step.Deliver? && r == net.owner[net.peer[step.message.from]] {
      assert MessageInv(net, s, step.message);
      assert TableInv(net, s, r);
      MergeImproves(s.tables[r], step.message.entries, step.message.from, step.now, d);
    }
  }

  lemma SendMessageInv(net: Network, s: State, a: Address)
    requires WellWired(net) && LoopFree(net, s) && a in net.peer
    ensures MessageInv(net, s, MessageFrom(net, s, a))
  {
    var u := net.owner[a];
    assert TableInv(net, s, u);
    forall d { PoisonedLookup(s.tables[u], net.peer[a], d); }
  }

  lemma MessageInvKept(net: Network, s: State, step: Step, m: Message)
    requires WellWired(net) && LoopFree(net, s) && Enabled(net, s, step) && !step.Expire?
    requires MessageInv(net, s, m)
    ensures MessageInv(net, Apply(net, s, step), m)
  {
    forall d | LookupPackage(m.entries, d).Some? && LookupPackage(m.entries, d).value.cost != POISONED
      ensures CostAtMost(Apply(net, s, step).tables[net.owner[m.from]], d, LookupPackage(m.entries, d).value.cost)
    {
      StepImproves(net, s, step, net.owner[m.from], d, LookupPackage(m.entries, d).value.cost);
    }
  }

  lemma GroundedKept(net: Network, s: State, step: Step, r: Router, e: Entry)
    requires WellWired(net) && LoopFree(net, s) && Enabled(net, s, step) && !step.Expire?
    requires Grounded(net, s, r, e)
    ensures Grounded(net, Apply(net, s, step), r, e)
  {
    if e.cost > 0 {
      StepImproves(net, s, step, net.owner[e.nextHop], e.destination, e.cost - 1);
    }
  }

  lemma TableInvKept(net: Network, s: State, step: Step, r: Router)
    requires WellWired(net) && LoopFree(net, s) && Enabled(net, s, step) && !step.Expire?
    requires r in s.tables
    ensures TableInv(net, Apply(net, s, step), r)
  {
    var s' := Apply(net, s, step);
    assert TableInv(net, s, r);
    if step.Deliver? && r == net.owner[net.peer[step.message.from]] {
      var m := step.message;
      assert MessageInv(net, s, m);
      MergeIsPointwise(s.tables[r], m.entries, m.from, step.now);
      forall d | Lookup(s'.tables[r], d).Some?
        ensures Grounded(net, s', r, Lookup(s'.tables[r], d).value)
      {
        var e := Lookup(s'.tables[r], d).value;
        if Lookup(s.tables[r], d) == Some(e) {
          GroundedKept(net, s, step, r, e);
        } else {
          var c := LookupPackage(m.entries, d).value.cost;
          StepImproves(net, s, step, net.owner[m.from], d, c);
          assert Walk(net, net.owner[m.from], d, c);
          assert e == Entry(d, m.from, c + 1, step.now);
        }
      }
      forall d | d in net.owner && net.owner[d] == r ensures CostAtMost(s'.tables[r], d, 0) {
        StepImproves(net, s, step, r, d, 0);
      }
    } else {
      forall d | Lookup(s'.tables[r], d).Some?
        ensures Grounded(net, s', r, Lookup(s'.tables[r], d).value)
      {
        GroundedKept(net, s, step, r, Lookup(s.tables[r], d).value);
      }
    }
  }

  lemma StepKeepsLoopFree(net: Network, s: State, step: Step)
    requires WellWired(net) && LoopFree(net, s) && Enabled(net, s, step) && !step.Expire?
    ensures LoopFree(net, Apply(net, s, step))
  {
    var s' := Apply(net, s, step);
    forall r | r in s'.tables ensures TableInv(net, s', r) {
      TableInvKept(net, s, step, r);
    }
    if step.Send? {
      SendMessageInv(net, s, step.a);
    }
    forall m | m in s'.flight ensures MessageInv(net, s', m) {
      assert MessageInv(net, s, m);
      MessageInvKept(net, s, step, m);
    }
  }

  lemma {:induction false} RunIsLoopFree(net: Network, trace: seq<State>, steps: seq<Step>, i: nat)
    requires WellWired(net) && IsRun(net, trace, steps) && i < |trace| && NothingExpires(trace, steps, i)
    ensures LoopFree(net, trace[i])
  {
    hide LoopFree, NothingExpires;
    if i == 0 {
      InitialIsLoopFree(net, trace[0]);
    } else {
      NothingExpiresBefore(trace, steps, i - 1);
      RunIsLoopFree(net, trace, steps, i - 1);
      assert Taken(net, trace[i - 1], steps[i - 1], trace[i]);
      if !steps[i - 1].Expire? {
        StepKeepsLoopFree(net, trace[i - 1], steps[i - 1]);
      }
    }
  }

  // ---------------------------------------------------------------- loop freedom

  // Following next hops from r, each over a real link, reaches the owner of d after n of them.
  ghost predicate Arrives(net: Network, s: State, r: Router, d: Address, n: nat)
    requires WellWired(net) && Populated(net, s)
    decreases n
  {
    if n == 0 then d in net.owner && net.owner[d] == r
    else
      r in s.tables &&
      var e := Lookup(s.tables[r], d);
      && e.Some?
      && e.value.nextHop in net.peer
      && net.owner[net.peer[e.value.nextHop]] == r
      && Arrives(net, s, net.owner[e.value.nextHop], d, n - 1)
  }

  lemma {:induction false} FollowToOwner(net: Network, s: State, r: Router, d: Address) returns (n: nat)
    requires WellWired(net) && LoopFree(net, s)
    requires r in s.tables && Lookup(s.tables[r], d).Some?
    ensures n <= Lookup(s.tables[r], d).value.cost && Arrives(net, s, r, d, n)
    decreases Lookup(s.tables[r], d).value.cost
  {
    var e := Lookup(s.tables[r], d).value;
    assert TableInv(net, s, r);
    if e.cost == 0 {
      n := 0;
    } else {
      n := FollowToOwner(net, s, net.owner[e.nextHop], d);
      n := n + 1;
    }
  }

  /** Loop freedom over whole runs: in any run, as long as nothing expires, with any broadcasts still in flight,
      a router that has an entry of cost c reaches the destination's owner by following at most c next
      hops, and c is the length of a walk, so never below the true distance. */
  lemma LoopFreedom(net: Network, trace: seq<State>, steps: seq<Step>, i: nat, r: Router, d: Address) returns (n: nat)
    requires WellWired(net) && IsRun(net, trace, steps) && i < |trace| && NothingExpires(trace, steps, i)
    requires r in trace[i].tables && Lookup(trace[i].tables[r], d).Some?
    ensures Populated(net, trace[i])
    ensures n <= Lookup(trace[i].tables[r], d).value.cost && Arrives(net, trace[i], r, d, n)
    ensures Walk(net, r, d, Lookup(trace[i].tables[r], d).value.cost)
  {
    RunIsLoopFree(net, trace, steps, i);
    assert TableInv(net, trace[i], r);
    n := FollowToOwner(net, trace[i], r, d);
  }

  // ---------------------------------------------------------------- tables fit their packages

  lemma {:induction false} DistinctFits(entries: seq<Entry>, within: set<Address>)
    requires Distinct(entries) && forall e :: e in entries ==> e.destination in within
    ensures |entries| <= |within|
  {
    if entries != [] {
      var k := |entries| - 1;
      forall e | e in entries[..k] ensures e.destination in within - {entries[k].destination} {
        var i :| 0 <= i < k && entries[i] == e;
      }
      DistinctFits(entries[..k], within - {entries[k].destination});
    }
  }

  lemma {:induction false} WalkEndsAtOwned(net: Network, r: Router, d: Address, k: nat)
    requires WellWired(net) && Walk(net, r, d, k)
    ensures d in net.owner
    decreases k
  {
    if k > 0 {
      var a :| a in net.peer && net.owner[net.peer[a]] == r && Walk(net, net.owner[a], d, k - 1);
      WalkEndsAtOwned(net, net.owner[a], d, k - 1);
    }
  }

  /** With fewer than 64 addresses in the network no router ever outgrows a package: every send is possible. */
  lemma SendAlwaysEnabled(net: Network, s: State, a: Address)
    requires WellWired(net) && LoopFree(net, s) && a in net.peer
    ensures Enabled(net, s, Send(a))
  {
    var t := s.tables[net.owner[a]];
    assert TableInv(net, s, net.owner[a]);
    forall e | e in t ensures e.destination in net.owner.Keys {
      var i :| 0 <= i < |t| && t[i] == e;
      LookupIs(t, i);
      WalkEndsAtOwned(net, net.owner[a], e.destination, e.cost);
    }
    DistinctFits(t, net.owner.Keys);
  }

  // ---------------------------------------------------------------- convergence

  // Between two moments of a run every interface sends, and what it sent is delivered;
  // anything else may happen as well.
  ghost predicate Round(net: Network, trace: seq<State>, steps: seq<Step>, lo: nat, hi: nat)
    requires WellWired(net) && IsRun(net, trace, steps) && lo <= hi < |trace|
  {
    forall a {:trigger Served(net, trace, steps, a, lo, hi)} :: a in net.peer ==> Served(net, trace, steps, a, lo, hi)
  }

  ghost predicate Served(net: Network, trace: seq<State>, steps: seq<Step>, a: Address, lo: nat, hi: nat)
    requires WellWired(net) && IsRun(net, trace, steps) && lo <= hi < |trace| && a in net.peer
  {
    exists i, j :: lo <= i < j < hi && SentAndDelivered(net, trace, steps, a, i, j)
  }

  ghost predicate SentAndDelivered(net: Network, trace: seq<State>, steps: seq<Step>, a: Address, i: nat, j: nat)
    requires WellWired(net) && IsRun(net, trace, steps) && a in net.peer && i < j < |steps|
  {
    assert Taken(net, trace[i], steps[i], trace[i + 1]);
    && steps[i] == Send(a)
    && steps[j].Deliver?
    && steps[j].message == MessageFrom(net, trace[i], a)
  }

  // If d is j links away from r, then r holds it at cost j or less.
  ghost predicate Settled(net: Network, s: State, r: Router, d: Address, j: nat)
    requires WellWired(net) && r in s.tables
  {
    Walk(net, r, d, j) ==> CostAtMost(s.tables[r], d, j)
  }

  ghost predicate ConvergedTo(net: Network, s: State, k: nat)
    requires WellWired(net)
  {
    forall r, d, j: nat {:trigger Settled(net, s, r, d, j)} :: r in s.tables && j <= k && j < PACKAGE_ENTRIES_MAX ==>
      Settled(net, s, r, d, j)
  }

  lemma {:induction false} RunImproves(
      net: Network, trace: seq<State>, steps: seq<Step>, i: nat, j: nat, r: Router, d: Address, c: int)
    requires WellWired(net) && IsRun(net, trace, steps) && i <= j < |trace| && NothingExpires(trace, steps, j)
    requires r in trace[i].tables && CostAtMost(trace[i].tables[r], d, c)
    ensures r in trace[j].tables && CostAtMost(trace[j].tables[r], d, c)
    decreases j
  {
    hide LoopFree, CostAtMost, WellWired, NothingExpires;
    if i < j {
      NothingExpiresBefore(trace, steps, j - 1);
      RunImproves(net, trace, steps, i, j - 1, r, d, c);
      RunIsLoopFree(net, trace, steps, j - 1);
      assert Taken(net, trace[j - 1], steps[j - 1], trace[j]);
      if !steps[j - 1].Expire? {
        StepImproves(net, trace[j - 1], steps[j - 1], r, d, c);
      }
    }
  }

  /** The key to convergence: poisoning never hides a useful route. What u keeps from v was learned
      from v, so v already has it cheaper than u; what it does not keep from v, v gets to hear. */
  lemma PoisonHidesNothing(net: Network, s: State, a: Address, d: Address, c: nat)
    requires WellWired(net) && LoopFree(net, s) && a in net.peer && c < POISONED
    requires CostAtMost(s.tables[net.owner[a]], d, c)
    ensures var offer := LookupPackage(MessageFrom(net, s, a).entries, d);
      || CostAtMost(s.tables[net.owner[net.peer[a]]], d, c)
      || (offer.Some? && offer.value.cost <= c)
  {
    var u := net.owner[a];
    var e := Lookup(s.tables[u], d).value;
    assert TableInv(net, s, u);
    PoisonedLookup(s.tables[u], net.peer[a], d);
    assert Grounded(net, s, u, e);
    if e.nextHop == net.peer[a] && e.cost == 0 {
      assert TableInv(net, s, net.owner[net.peer[a]]);
    }
  }

  lemma LinkTeaches(
      net: Network, trace: seq<State>, steps: seq<Step>, a: Address, i: nat, j: nat, hi: nat, d: Address, c: nat)
    requires WellWired(net) && IsRun(net, trace, steps) && hi < |trace| && NothingExpires(trace, steps, hi)
    requires a in net.peer && i < j < hi && SentAndDelivered(net, trace, steps, a, i, j)
    requires LoopFree(net, trace[i]) && c < POISONED && CostAtMost(trace[i].tables[net.owner[a]], d, c)
    ensures net.owner[net.peer[a]] in trace[hi].tables
    ensures CostAtMost(trace[hi].tables[net.owner[net.peer[a]]], d, c + 1)
  {
    var v := net.owner[net.peer[a]];
    hide LoopFree, CostAtMost, NothingExpires;
    PoisonHidesNothing(net, trace[i], a, d, c);
    if CostAtMost(trace[i].tables[v], d, c) {
      RunImproves(net, trace, steps, i, hi, v, d, c);
    } else {
      NothingExpiresUpTo(trace, steps, j, hi);
      RunIsLoopFree(net, trace, steps, j);
      assert Taken(net, trace[j], steps[j], trace[j + 1]);
      OfferTaken(net, trace[j], steps[j], d, c);
      RunImproves(net, trace, steps, j + 1, hi, v, d, c + 1);
    }
    Dearer(trace[hi].tables[v], d, c);
  }

  lemma OfferTaken(net: Network, s: State, step: Step, d: Address, c: nat)
    requires WellWired(net) && LoopFree(net, s) && step.Deliver? && Enabled(net, s, step) && c < POISONED
    requires var offer := LookupPackage(step.message.entries, d); offer.Some? && offer.value.cost <= c
    ensures CostAtMost(Apply(net, s, step).tables[net.owner[net.peer[step.message.from]]], d, c + 1)
  {
    var m, v := step.message, net.owner[net.peer[step.message.from]];
    assert TableInv(net, s, v) && MessageInv(net, s, m);
    MergeTeaches(s.tables[v], m.entries, m.from, step.now, d);
  }

  lemma Dearer(entries: seq<Entry>, d: Address, c: int)
    ensures CostAtMost(entries, d, c) ==> CostAtMost(entries, d, c + 1)
  {
  }

  // What r learns in a round about a destination one hop beyond those already settled.
  lemma RoundTeaches(
      net: Network, trace: seq<State>, steps: seq<Step>, lo: nat, hi: nat, a: Address, d: Address, j: nat)
    requires WellWired(net) && IsRun(net, trace, steps) && hi < |trace| && NothingExpires(trace, steps, hi)
    requires lo <= hi && Round(net, trace, steps, lo, hi)
    requires LoopFree(net, trace[lo]) && a in net.peer && j < POISONED
    requires CostAtMost(trace[lo].tables[net.owner[a]], d, j)
    ensures net.owner[net.peer[a]] in trace[hi].tables
    ensures CostAtMost(trace[hi].tables[net.owner[net.peer[a]]], d, j + 1)
  {
    assert net.owner[a] in trace[lo].tables;
    hide LoopFree, CostAtMost, NothingExpires, SentAndDelivered, WellWired;
    assert Served(net, trace, steps, a, lo, hi);
    var x, y :| lo <= x < y < hi && SentAndDelivered(net, trace, steps, a, x, y);
    NothingExpiresUpTo(trace, steps, x, hi);
    RunImproves(net, trace, steps, lo, x, net.owner[a], d, j);
    RunIsLoopFree(net, trace, steps, x);
    LinkTeaches(net, trace, steps, a, x, y, hi, d, j);
  }

  lemma RoundAdvances(net: Network, trace: seq<State>, steps: seq<Step>, lo: nat, hi: nat, k: nat)
    requires WellWired(net) && IsRun(net, trace, steps) && hi < |trace| && NothingExpires(trace, steps, hi)
    requires lo <= hi && Round(net, trace, steps, lo, hi) && k > 0 && ConvergedTo(net, trace[lo], k - 1)
    ensures ConvergedTo(net, trace[hi], k)
  {
    hide NothingExpires;
    NothingExpiresUpTo(trace, steps, lo, hi);
    RunIsLoopFree(net, trace, steps, lo);
    RunKeepsRouters(net, trace, steps, lo, hi);
    forall r, d, j: nat | r in trace[hi].tables && j <= k && j < PACKAGE_ENTRIES_MAX && Walk(net, r, d, j)
      ensures Settled(net, trace[hi], r, d, j)
    {
      if j < k {
        assert Settled(net, trace[lo], r, d, j);
        RunImproves(net, trace, steps, lo, hi, r, d, j);
      } else {
        var a := FirstLink(net, r, d, j);
        assert Settled(net, trace[lo], net.owner[a], d, j - 1);
        RoundTeaches(net, trace, steps, lo, hi, a, d, j - 1);
      }
    }
  }

  lemma FirstLink(net: Network, r: Router, d: Address, k: nat) returns (a: Address)
    requires WellWired(net) && k > 0 && Walk(net, r, d, k)
    ensures a in net.peer && net.owner[net.peer[a]] == r && Walk(net, net.owner[a], d, k - 1)
  {
    a :| a in net.peer && net.owner[net.peer[a]] == r && Walk(net, net.owner[a], d, k - 1);
  }

  lemma OneMoreLink(net: Network, a: Address, d: Address, k: nat)
    requires WellWired(net) && a in net.peer && Walk(net, net.owner[a], d, k)
    ensures Walk(net, net.owner[net.peer[a]], d, k + 1)
  {
  }

  lemma {:induction false} RunKeepsRouters(net: Network, trace: seq<State>, steps: seq<Step>, i: nat, j: nat)
    requires WellWired(net) && IsRun(net, trace, steps) && i <= j < |trace|
    ensures trace[j].tables.Keys == trace[i].tables.Keys
    decreases j
  {
    if i < j {
      RunKeepsRouters(net, trace, steps, i, j - 1);
      assert Taken(net, trace[j - 1], steps[j - 1], trace[j]);
    }
  }

  // The moments at which one round ends and the next begins.
  ghost predicate Rounds(net: Network, trace: seq<State>, steps: seq<Step>, cuts: seq<nat>)
    requires WellWired(net) && IsRun(net, trace, steps)
  {
    && (forall k :: 0 <= k < |cuts| ==> cuts[k] < |trace|)
    && forall k {:trigger RoundAt(net, trace, steps, cuts, k)} :: 0 < k < |cuts| ==> RoundAt(net, trace, steps, cuts, k)
  }

  ghost predicate RoundAt(net: Network, trace: seq<State>, steps: seq<Step>, cuts: seq<nat>, k: nat)
    requires WellWired(net) && IsRun(net, trace, steps) && 0 < k < |cuts| && cuts[k] < |trace|
  {
    cuts[k - 1] <= cuts[k] && Round(net, trace, steps, cuts[k - 1], cuts[k])
  }

  lemma OwnersKnowThemselves(net: Network, s: State)
    requires WellWired(net) && LoopFree(net, s)
    ensures ConvergedTo(net, s, 0)
  {
    forall r, d, j: nat | r in s.tables && j <= 0 && Walk(net, r, d, j) ensures Settled(net, s, r, d, j) {
      assert TableInv(net, s, r);
    }
  }

  lemma {:induction false} RoundsConverge(net: Network, trace: seq<State>, steps: seq<Step>, cuts: seq<nat>, k: nat)
    requires WellWired(net) && IsRun(net, trace, steps)
    requires Rounds(net, trace, steps, cuts) && k < |cuts| && NothingExpires(trace, steps, cuts[k])
    ensures ConvergedTo(net, trace[cuts[k]], k)
  {
    hide NothingExpires;
    if k == 0 {
      RunIsLoopFree(net, trace, steps, cuts[0]);
      OwnersKnowThemselves(net, trace[cuts[0]]);
    } else {
      var lo, hi := cuts[k - 1], cuts[k];
      assert RoundAt(net, trace, steps, cuts, k);
      NothingExpiresUpTo(trace, steps, lo, hi);
      RoundsConverge(net, trace, steps, cuts, k - 1);
      RoundAdvances(net, trace, steps, lo, hi, k);
    }
  }

  // ---------------------------------------------------------------- distances are short

  ghost function Ball(net: Network, d: Address, k: nat): set<Address>
    requires WellWired(net)
  {
    set a | a in net.owner && exists j: nat :: j <= k && Walk(net, net.owner[a], d, j)
  }

  lemma {:induction false} BallGrows(net: Network, r: Router, d: Address, k: nat, i: nat)
    requires WellWired(net) && HopDistance(net, r, d, k) && i <= k
    ensures |Ball(net, d, i)| > i
    decreases i
  {
    if i == 0 {
      WalkEndsAtOwned(net, r, d, k);
      assert Walk(net, net.owner[d], d, 0);
      assert d in Ball(net, d, 0);
    } else {
      BallGrows(net, r, d, k, i - 1);
      var a := AtDistance(net, r, d, k, i);
      assert a in Ball(net, d, i) && a !in Ball(net, d, i - 1);
      assert Ball(net, d, i - 1) < Ball(net, d, i);
      SmallerSet(Ball(net, d, i - 1), Ball(net, d, i));
    }
  }

  lemma SmallerSet(x: set<Address>, y: set<Address>)
    requires x < y
    ensures |x| < |y|
  {
    var z := y - x;
    assert y == x + z && z != {};
  }

  // Some interface sits at every distance up to that of r.
  lemma {:induction false} AtDistance(net: Network, r: Router, d: Address, k: nat, i: nat) returns (a: Address)
    requires WellWired(net) && HopDistance(net, r, d, k) && 0 < i <= k
    ensures a in net.owner && HopDistance(net, net.owner[a], d, i)
    decreases k
  {
    var b :| b in net.peer && net.owner[net.peer[b]] == r && Walk(net, net.owner[b], d, k - 1);
    if i == k {
      a := net.peer[b];
    } else {
      StepCloser(net, r, b, d, k);
      a := AtDistance(net, net.owner[b], d, k - 1, i);
    }
  }

  lemma StepCloser(net: Network, r: Router, b: Address, d: Address, k: nat)
    requires WellWired(net) && b in net.peer && net.owner[net.peer[b]] == r && k > 0
    requires HopDistance(net, r, d, k) && Walk(net, net.owner[b], d, k - 1)
    ensures HopDistance(net, net.owner[b], d, k - 1)
  {
    forall j: nat | j < k - 1 ensures !Walk(net, net.owner[b], d, j) {
      if Walk(net, net.owner[b], d, j) {
        OneMoreLink(net, b, d, j);
        assert false;
      }
    }
  }

  lemma DistancesAreShort(net: Network, r: Router, d: Address, k: nat)
    requires WellWired(net) && HopDistance(net, r, d, k)
    ensures k < |net.owner|
  {
    BallGrows(net, r, d, k, k);
    var b := Ball(net, d, k);
    if b != net.owner.Keys {
      SmallerSet(b, net.owner.Keys);
    }
  }

  lemma {:induction false} ShortestWalk(net: Network, r: Router, d: Address, k: nat) returns (j: nat)
    requires WellWired(net) && Walk(net, r, d, k)
    ensures j <= k && HopDistance(net, r, d, j)
  {
    if i: nat :| i < k && Walk(net, r, d, i) {
      j := ShortestWalk(net, r, d, i);
    } else {
      j := k;
    }
  }

  /** Convergence despite poisoning: however a run in which nothing expires began and whatever is in flight,
      after k rounds every router at most k hops from a destination's owner holds it with cost exactly
      its hop distance, by way of a router that is one hop closer. */
  lemma Convergence(
      net: Network, trace: seq<State>, steps: seq<Step>, cuts: seq<nat>, k: nat, r: Router, d: Address, hops: nat)
    requires WellWired(net) && IsRun(net, trace, steps)
    requires Rounds(net, trace, steps, cuts) && k < |cuts| && NothingExpires(trace, steps, cuts[k])
    requires r in trace[cuts[k]].tables && hops <= k && HopDistance(net, r, d, hops)
    ensures var e := Lookup(trace[cuts[k]].tables[r], d);
      && e.Some?
      && e.value.cost == hops
      && (hops == 0 ==> e.value.nextHop == d)
      && (hops > 0 ==> e.value.nextHop in net.peer && net.owner[net.peer[e.value.nextHop]] == r
                       && HopDistance(net, net.owner[e.value.nextHop], d, hops - 1))
  {
    RunIsLoopFree(net, trace, steps, cuts[k]);
    RoundsConverge(net, trace, steps, cuts, k);
    DistancesAreShort(net, r, d, hops);
    assert Settled(net, trace[cuts[k]], r, d, hops) && TableInv(net, trace[cuts[k]], r);
    CostIsDistance(net, trace[cuts[k]], r, d, hops);
    if hops > 0 {
      NextHopIsCloser(net, trace[cuts[k]], r, d, hops);
    }
  }

  lemma CostIsDistance(net: Network, s: State, r: Router, d: Address, hops: nat)
    requires WellWired(net) && LoopFree(net, s)
    requires r in s.tables && CostAtMost(s.tables[r], d, hops) && HopDistance(net, r, d, hops)
    ensures Lookup(s.tables[r], d).value.cost == hops
  {
    assert TableInv(net, s, r);
    assert Walk(net, r, d, Lookup(s.tables[r], d).value.cost);
  }

  lemma NextHopIsCloser(net: Network, s: State, r: Router, d: Address, hops: nat)
    requires WellWired(net) && LoopFree(net, s) && hops > 0
    requires r in s.tables && CostAtMost(s.tables[r], d, hops) && HopDistance(net, r, d, hops)
    ensures var h := Lookup(s.tables[r], d).value.nextHop;
      h in net.peer && net.owner[net.peer[h]] == r && HopDistance(net, net.owner[h], d, hops - 1)
  {
    CostIsDistance(net, s, r, d, hops);
    assert TableInv(net, s, r);
    var h := Lookup(s.tables[r], d).value.nextHop;
    var u := net.owner[h];
    assert TableInv(net, s, u);
    var c := Lookup(s.tables[u], d).value.cost;
    assert Walk(net, u, d, c);
    OneMoreLink(net, h, d, c);
    StepCloser(net, r, h, d, hops);
  }

  /** After as many rounds as there are addresses, a router has an entry exactly for the destinations
      some walk leads to. */
  lemma ConvergedTableIsComplete(
      net: Network, trace: seq<State>, steps: seq<Step>, cuts: seq<nat>, k: nat, r: Router, d: Address)
    requires WellWired(net) && IsRun(net, trace, steps)
    requires Rounds(net, trace, steps, cuts) && |net.owner| <= k < |cuts| && NothingExpires(trace, steps, cuts[k])
    requires r in trace[cuts[k]].tables
    ensures Lookup(trace[cuts[k]].tables[r], d).Some? <==> exists n: nat :: Walk(net, r, d, n)
  {
    RunIsLoopFree(net, trace, steps, cuts[k]);
    assert TableInv(net, trace[cuts[k]], r);
    var e := Lookup(trace[cuts[k]].tables[r], d);
    if e.Some? {
      assert Walk(net, r, d, e.value.cost);
    }
    if n: nat :| Walk(net, r, d, n) {
      var hops := ShortestWalk(net, r, d, n);
      DistancesAreShort(net, r, d, hops);
      Convergence(net, trace, steps, cuts, k, r, d, hops);
    }
  }
}
