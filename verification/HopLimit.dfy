/** How long a package can wander. Nothing is assumed of the routing tables here: they may point
    in circles, and change at any time. */
module HopLimit {
  import opened Common
  import opened RouteTables
  import opened Forwarding

  type Host = nat

  // Where a package is. Routes are looked up while it waits at a host.
  datatype Place = OnLink(to: Host) | Waiting(at: Host) | Gone

  // sends: how often it has been put on a link
  datatype Travel = Travel(package: Package, place: Place, sends: nat)

  datatype Event =
    | Inject(package: Package, place: Place)
    | Receive(i: nat, mine: bool)
    | Answer(i: nat, found: bool, to: Host, source: Address)

  const INITIAL_TTL: TimeToLive := 15

  // A new transport package leaves its host at once, or waits there for a route.
  predicate Fresh(t: Travel) {
    && t.package.ttl == INITIAL_TTL
    && (t.place.OnLink? || t.place.Waiting?)
    && t.sends == if t.place.OnLink? then 1 else 0
  }

  predicate Possible(s: seq<Travel>, event: Event) {
    match event
    case Inject(p, place) => Fresh(Travel(p, place, if place.OnLink? then 1 else 0))
    case Receive(i, _) => i < |s| && s[i].place.OnLink?
    case Answer(i, _, _, _) => i < |s| && s[i].place.Waiting?
  }

  // A host keeps what is addressed to it, drops what has no time left, and otherwise takes one off
  // the time to live and asks for a route; a package without a route is dropped.
  function After(s: seq<Travel>, event: Event): seq<Travel>
    requires Possible(s, event)
  {
    match event
    case Inject(p, place) => s + [Travel(p, place, if place.OnLink? then 1 else 0)]
    case Receive(i, mine) =>
      var t := s[i];
      if mine || t.package.ttl == 0 then s[i := t.(place := Gone)]
      else s[i := Travel(t.package.(ttl := t.package.ttl - 1), Waiting(t.place.to), t.sends)]
    case Answer(i, found, to, source) =>
      var t := s[i];
      if !found then s[i := t.(place := Gone)]
      else
        var p := if t.package.source == BROADCAST then t.package.(source := source) else t.package;
        s[i := Travel(p, OnLink(to), t.sends + 1)]
  }

  ghost predicate IsRun(trace: seq<seq<Travel>>, events: seq<Event>) {
    && |trace| == |events| + 1
    && trace[0] == []
    && forall i {:trigger events[i]} :: 0 <= i < |events| ==>
         Possible(trace[i], events[i]) && trace[i + 1] == After(trace[i], events[i])
  }

  // ---------------------------------------------------------------- one package

  predicate Spends(t: Travel) {
    match t.place
    case OnLink(_) => t.sends + t.package.ttl <= 16
    case Waiting(_) => t.sends + t.package.ttl <= 15
    case Gone => t.sends <= 16
  }

  lemma {:induction false} RunSpends(trace: seq<seq<Travel>>, events: seq<Event>, n: nat)
    requires IsRun(trace, events) && n < |trace|
    ensures forall i :: 0 <= i < |trace[n]| ==> Spends(trace[n][i])
  {
    if n > 0 {
      RunSpends(trace, events, n - 1);
      var event := events[n - 1];
      assert trace[n] == After(trace[n - 1], event);
    }
  }

  /** However the tables behave, a package is put on links at most 16 times in its life. */
  lemma HopBound(trace: seq<seq<Travel>>, events: seq<Event>, n: nat, i: nat)
    requires IsRun(trace, events) && n < |trace| && i < |trace[n]|
    ensures trace[n][i].sends <= 16
  {
    RunSpends(trace, events, n);
    assert Spends(trace[n][i]);
  }

  /** Nothing on the way changes where a package is going or what it carries, nor a source once set. */
  lemma {:induction false} CarriedUnchanged(trace: seq<seq<Travel>>, events: seq<Event>, m: nat, n: nat, i: nat)
    requires IsRun(trace, events) && m <= n < |trace| && i < |trace[m]|
    ensures i < |trace[n]|
    ensures trace[n][i].package.destination == trace[m][i].package.destination
    ensures trace[n][i].package.message == trace[m][i].package.message
    ensures trace[m][i].package.source != BROADCAST ==> trace[n][i].package.source == trace[m][i].package.source
    decreases n
  {
    if m < n {
      CarriedUnchanged(trace, events, m, n - 1, i);
      var event := events[n - 1];
      assert trace[n] == After(trace[n - 1], event);
    }
  }

  // ---------------------------------------------------------------- the whole network

  // How many more events a package can take part in.
  function Left(t: Travel): nat {
    match t.place
    case OnLink(_) => 2 * t.package.ttl + 1
    case Waiting(_) => 2 * t.package.ttl + 2
    case Gone => 0
  }

  function TotalLeft(s: seq<Travel>): nat {
    if s == [] then 0 else TotalLeft(s[..|s| - 1]) + Left(s[|s| - 1])
  }

  lemma {:induction false} TotalLeftUpdate(s: seq<Travel>, i: nat, t: Travel)
    requires i < |s|
    ensures TotalLeft(s[i := t]) == TotalLeft(s) - Left(s[i]) + Left(t)
    decreases |s|
  {
    var k := |s| - 1;
    if i == k {
      assert s[i := t][..k] == s[..k];
    } else {
      TotalLeftUpdate(s[..k], i, t);
      assert s[i := t][..k] == s[..k][i := t];
    }
  }

  lemma EventUsesUp(s: seq<Travel>, event: Event)
    requires Possible(s, event)
    ensures if event.Inject? then TotalLeft(After(s, event)) <= TotalLeft(s) + 32
            else TotalLeft(After(s, event)) < TotalLeft(s)
  {
    match event
    case Inject(p, place) =>
      var t := Travel(p, place, if place.OnLink? then 1 else 0);
      assert (s + [t])[..|s|] == s;
    case Receive(i, _) =>
      TotalLeftUpdate(s, i, After(s, event)[i]);
    case Answer(i, _, _, _) =>
      TotalLeftUpdate(s, i, After(s, event)[i]);
  }

  function Injections(events: seq<Event>): nat {
    if events == [] then 0 else Injections(events[..|events| - 1]) + if events[|events| - 1].Inject? then 1 else 0
  }

  /** The time to live is a decreasing measure: a run that injects k packages has at most 32 * k other
      events, so traffic always dies out, even with every table in a loop. */
  lemma {:induction false} TrafficDiesOut(trace: seq<seq<Travel>>, events: seq<Event>, n: nat)
    requires IsRun(trace, events) && n <= |events|
    ensures n - Injections(events[..n]) + TotalLeft(trace[n]) <= 32 * Injections(events[..n])
  {
    if n > 0 {
      hide Possible, After, TotalLeft;
      TrafficDiesOut(trace, events, n - 1);
      EventUsesUp(trace[n - 1], events[n - 1]);
      assert events[..n][..n - 1] == events[..n - 1];
    }
  }

  // ---------------------------------------------------------------- the code of one host

  // What mipd does with a transport package that comes off a link.
  datatype Verdict = Deliver | Drop | Forward(package: Package)

  // What a verdict makes of a package that came off a link.
  function AfterVerdict(t: Travel, v: Verdict): Travel
    requires t.place.OnLink?
  {
    match v
    case Deliver => t.(place := Gone)
    case Drop => t.(place := Gone)
    case Forward(package) => Travel(package, Waiting(t.place.to), t.sends)
  }

  // What an answer makes of a package that waits at a host.
  function AfterOutcome(t: Travel, outcome: Outcome, to: Host): Travel
    requires t.place.Waiting?
  {
    match outcome
    case Forwarded(package, _) => Travel(package, OnLink(to), t.sends + 1)
    case NotFound(_) => t.(place := Gone)
    case Failed => t.(place := Gone)
    case Crashed => t.(place := Gone)
  }

  /** The verdict is the Receive event of that package. A request that fails, with -1, gets no answer. */
  method HandleTransport(package: Package, mine: set<Address>, daemon: Daemon, now: int)
    returns (v: Verdict, rc: int)
    requires daemon.Valid()
    modifies daemon`requests, daemon.queue.Repr
    ensures daemon.Valid() && fresh(daemon.queue.Repr - old(daemon.queue.Repr))
    ensures v == if package.destination in mine then Deliver
                 else if package.ttl == 0 then Drop
                 else Forward(package.(ttl := package.ttl - 1))
    ensures forall t: Travel {:trigger AfterVerdict(t, v)} :: t.package == package && t.place.OnLink? ==>
      After([t], Receive(0, package.destination in mine)) == [AfterVerdict(t, v)]
    ensures rc == -1 <==> v.Forward? && !old(daemon.connected)
    ensures daemon.State() == if v.Forward? && rc != -1 then Forwarding.After(old(daemon.State()), Request(v.package))
                              else old(daemon.State())
    ensures v.Forward? && rc != -1 ==>
      && daemon.State().waiting == old(daemon.State()).waiting + [v.package]
      && daemon.State().requests == old(daemon.State()).requests + [package.destination]
      && daemon.State().answers == old(daemon.State()).answers
  {
    rc := 0;
    if package.destination in mine {
      v := Deliver;
    } else if package.ttl == 0 {
      v := Drop;
    } else {
      var shorter := package.(ttl := package.ttl - 1);
      v := Forward(shorter);
      rc := daemon.RequestForwarding(shorter, now);
    }
  }

  /** Reading an answer is the Answer event of the package that has waited longest. */
  method HandleAnswer(daemon: Daemon, ghost to: Host) returns (outcome: Outcome)
    requires daemon.Valid() && daemon.responses != [] && daemon.State().waiting != []
    modifies daemon`responses, daemon`lookups, daemon.queue.Repr
    ensures daemon.Valid() && daemon.State() == Forwarding.After(old(daemon.State()), Resolve)
    ensures fresh(daemon.queue.Repr - old(daemon.queue.Repr))
    ensures forall t: Travel {:trigger AfterOutcome(t, outcome, to)} ::
      t.package == old(daemon.State()).waiting[0] && t.place.Waiting? ==>
      var source := if outcome.Forwarded? then outcome.package.source else BROADCAST;
      After([t], Event.Answer(0, outcome.Forwarded?, to, source)) == [AfterOutcome(t, outcome, to)]
    ensures daemon.State().waiting == old(daemon.State()).waiting[1..]
    ensures daemon.responses == old(daemon.responses)[1..] && daemon.requests == old(daemon.requests)
    ensures
      var p, hop := old(daemon.State()).waiting[0], old(daemon.responses)[0];
      outcome == if hop == BROADCAST then NotFound(p)
                 else if hop !in daemon.cache then Failed
                 else Forwarded(if p.source == BROADCAST then p.(source := daemon.cache[hop]) else p, hop)
  {
    outcome := daemon.HandleResponse();
  }

  // routerd answers every lookup that is under way.
  method AnswerAll(daemon: Daemon, table: RouteTable)
    requires daemon.Valid()
    modifies daemon`requests, daemon`responses, daemon`lookups
    ensures daemon.Valid() && daemon.State().waiting == old(daemon.State()).waiting
    ensures daemon.requests == [] && |daemon.responses| == |old(daemon.responses)| + |old(daemon.requests)|
    ensures old(daemon.requests) != [] ==>
      var d := old(daemon.requests)[|old(daemon.requests)| - 1];
      daemon.responses[|daemon.responses| - 1] ==
        if d == BROADCAST || Lookup(table.entries, d).None? then BROADCAST else Lookup(table.entries, d).value.nextHop
  {
    ghost var n := |daemon.requests|;
    while daemon.requests != []
      invariant daemon.Valid() && daemon.State().waiting == old(daemon.State()).waiting
      invariant |daemon.requests| <= n && daemon.requests == old(daemon.requests)[n - |daemon.requests|..]
      invariant |daemon.responses| == |old(daemon.responses)| + n - |daemon.requests|
      invariant n > 0 && daemon.requests == [] ==>
        var d := old(daemon.requests)[n - 1];
        daemon.responses[|daemon.responses| - 1] ==
          if d == BROADCAST || Lookup(table.entries, d).None? then BROADCAST else Lookup(table.entries, d).value.nextHop
      decreases |daemon.requests|
    {
      daemon.AnswerLookup(table);
    }
  }

  // mipd reads every answer; the last one is for the package that has waited least.
  method ReadAll(daemon: Daemon) returns (outcome: Outcome)
    requires daemon.Valid() && |daemon.State().waiting| == |daemon.responses| > 0
    modifies daemon`responses, daemon`lookups, daemon.queue.Repr
    ensures daemon.Valid() && daemon.State().waiting == []
    ensures
      var n := |old(daemon.responses)| - 1;
      var p, hop := old(daemon.State()).waiting[n], old(daemon.responses)[n];
      outcome == if hop == BROADCAST then NotFound(p)
                 else if hop !in daemon.cache then Failed
                 else Forwarded(if p.source == BROADCAST then p.(source := daemon.cache[hop]) else p, hop)
  {
    ghost var waiting, answers := daemon.State().waiting, daemon.responses;
    ghost var k := 0;
    while |daemon.responses| > 1
      invariant daemon.Valid() && fresh(daemon.queue.Repr - old(daemon.queue.Repr))
      invariant 0 <= k < |answers| == |waiting|
      invariant daemon.responses == answers[k..] && daemon.State().waiting == waiting[k..]
      decreases |answers| - k
    {
      var _ := HandleAnswer(daemon, 0);
      k := k + 1;
    }
    outcome := HandleAnswer(daemon, 0);
  }

  /** The way of a package through one host, whatever packages wait there before it, once every lookup is answered and
      every answer read: it is sent to the next hop in routerd's table with one less to live, to the same destination
      and with the same content, from the source it came from unless that was not set. */
  method Transit(package: Package, mine: set<Address>, daemon: Daemon, table: RouteTable, now: int)
    returns (v: Verdict, outcome: Option<Outcome>)
    requires daemon.Valid() && daemon.connected && table as object !in daemon.queue.Repr
    requires |daemon.State().waiting| == |daemon.responses| + |daemon.requests|
    modifies daemon`requests, daemon`responses, daemon`lookups, daemon.queue.Repr
    ensures daemon.Valid()
    ensures outcome == None <==> package.destination in mine || package.ttl == 0
    ensures outcome != None ==>
      var d := package.destination;
      var hop := if d == BROADCAST || Lookup(table.entries, d).None? then BROADCAST
                 else Lookup(table.entries, d).value.nextHop;
      && daemon.State().waiting == []
      && outcome.value ==
           if hop == BROADCAST then NotFound(Package(d, package.source, package.ttl - 1, package.message))
           else if hop !in daemon.cache then Failed
           else
             var source := if package.source == BROADCAST then daemon.cache[hop] else package.source;
             Forwarded(Package(d, source, package.ttl - 1, package.message), hop)
  {
    var rc;
    v, rc := HandleTransport(package, mine, daemon, now);
    if !v.Forward? {
      return v, None;
    }
    AnswerAll(daemon, table);
    var last := ReadAll(daemon);
    outcome := Some(last);
  }
}
