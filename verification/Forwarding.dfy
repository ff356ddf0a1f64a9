/** How mipd forwards a package: it queues the package, asks routerd for the next hop, and matches
    the answer, which carries no identification, to the package at the front of the queue. */
module Forwarding {
  import opened RouteTables
  import opened Lists

  type TimeToLive = t: int | 0 <= t < 16   // a 4-bit field

  datatype Package = Package(destination: Address, source: Address, ttl: TimeToLive, message: seq<Address>)
  datatype QueueEntry = QueueEntry(age: int, destination: Address, package: Package)

  // One byte of the answering channel, with the lookup it answers.
  datatype Answer = Answer(destination: Address, nextHop: Address)

  // Packages waiting, oldest first; lookups routerd has not read; answers mipd has not read.
  datatype Path = Path(waiting: seq<Package>, requests: seq<Address>, answers: seq<Answer>, connected: bool)

  function Destinations(packages: seq<Package>): (r: seq<Address>)
    ensures |r| == |packages| && forall i :: 0 <= i < |r| ==> r[i] == packages[i].destination
  {
    seq(|packages|, i requires 0 <= i < |packages| => packages[i].destination)
  }

  function LookedUp(answers: seq<Answer>): (r: seq<Address>)
    ensures |r| == |answers| && forall i :: 0 <= i < |r| ==> r[i] == answers[i].destination
  {
    seq(|answers|, i requires 0 <= i < |answers| => answers[i].destination)
  }

  function NextHopIn(entries: seq<Entry>, destination: Address): Address {
    if destination == BROADCAST || Lookup(entries, destination).None? then BROADCAST
    else Lookup(entries, destination).value.nextHop
  }

  // The waiting packages are exactly those whose lookups are under way, in the same order.
  ghost predicate Aligned(path: Path) {
    Destinations(path.waiting) == LookedUp(path.answers) + path.requests
  }

  // ---------------------------------------------------------------- events

  datatype Event =
    | Request(package: Package)        // mipd needs a next hop
    | Answering(table: seq<Entry>)     // routerd reads a lookup and answers from its table
    | Resolve                          // mipd reads an answer
    | Disconnect                       // mipd, all answers read, finds that routerd has gone
    | Connect                          // a routerd connects

  predicate Possible(path: Path, event: Event) {
    match event
    case Request(_) => path.connected
    case Answering(_) => path.requests != []
    case Resolve => path.answers != [] && path.waiting != []
    case Disconnect => path.connected && path.answers == []
    case Connect => true
  }

  function After(path: Path, event: Event): Path
    requires Possible(path, event)
  {
    match event
    case Request(p) => path.(waiting := path.waiting + [p], requests := path.requests + [p.destination])
    case Answering(table) =>
      var d := path.requests[0];
      path.(requests := path.requests[1..], answers := path.answers + [Answer(d, NextHopIn(table, d))])
    case Resolve => path.(waiting := path.waiting[1..], answers := path.answers[1..])
    case Disconnect => path.(requests := [], answers := [], connected := false)
    case Connect => path.(requests := [], answers := [], connected := true)
  }

  ghost predicate IsRun(trace: seq<Path>, events: seq<Event>) {
    && |trace| == |events| + 1
    && forall i {:trigger events[i]} :: 0 <= i < |events| ==>
         Possible(trace[i], events[i]) && trace[i + 1] == After(trace[i], events[i])
  }

  lemma EventKeepsAligned(path: Path, event: Event)
    requires Aligned(path) && Possible(path, event) && !event.Disconnect? && !event.Connect?
    ensures Aligned(After(path, event))
  {
    match event
    case Request(p) =>
      assert Destinations(path.waiting + [p]) == Destinations(path.waiting) + [p.destination];
    case Answering(table) =>
      assert path.requests == [path.requests[0]] + path.requests[1..];
    case Resolve =>
      assert Destinations(path.waiting)[1..] == Destinations(path.waiting[1..]);
      assert LookedUp(path.answers)[1..] == LookedUp(path.answers[1..]);
  }

  /** Lookup/response pairing: in every state of a run in which routerd stays connected, the destinations
      of the waiting packages, oldest first, are those of the unread answers and then of the unread
      lookups; so whatever answer is read next was looked up for the package it is going to move. */
  lemma {:induction false} RunKeepsAligned(trace: seq<Path>, events: seq<Event>, i: nat)
    requires IsRun(trace, events) && i < |trace| && Aligned(trace[0])
    requires forall k :: 0 <= k < i ==> !events[k].Disconnect? && !events[k].Connect?
    ensures Aligned(trace[i])
    ensures trace[i].answers != [] ==>
      trace[i].waiting != [] && trace[i].waiting[0].destination == trace[i].answers[0].destination
  {
    if i > 0 {
      RunKeepsAligned(trace, events, i - 1);
      EventKeepsAligned(trace[i - 1], events[i - 1]);
    }
    if trace[i].answers != [] {
      assert Destinations(trace[i].waiting)[0] == (LookedUp(trace[i].answers) + trace[i].requests)[0];
    }
  }

  /** A disconnect forgets the lookups but not the packages: once a routerd connects again the pairing
      holds if and only if no package was waiting. */
  lemma ReconnectAligned(path: Path)
    requires Possible(path, Disconnect)
    ensures Aligned(After(After(path, Disconnect), Connect)) <==> path.waiting == []
  {
    var again := After(After(path, Disconnect), Connect);
    assert LookedUp(again.answers) + again.requests == [];
    assert |Destinations(path.waiting)| == |path.waiting|;
  }

  /** What goes wrong otherwise: the answer for a new package b moves the package left from before. */
  lemma StalePackageTakesAnswer(path: Path, b: Package, table: seq<Entry>)
    requires Possible(path, Disconnect) && path.waiting != []
    ensures
      var s := After(After(After(After(path, Disconnect), Connect), Request(b)), Answering(table));
      && s.answers == [Answer(b.destination, NextHopIn(table, b.destination))]
      && s.waiting[0] == path.waiting[0]
  {
  }

  // ---------------------------------------------------------------- the daemon

  // What becomes of a package when an answer is read.
  datatype Outcome =
    | Forwarded(package: Package, nextHop: Address)
    | NotFound(package: Package)
    | Failed
    | Crashed   // a package is loaded that is not there

  class Daemon {
    const queue: List<QueueEntry>
    var requests: seq<Address>
    var responses: seq<Address>
    var connected: bool
    // the lookups behind the unread responses
    ghost var lookups: seq<Address>
    // neighbours whose link is known, with the address of the local interface that leads there
    var cache: map<Address, Address>

    ghost predicate Valid()
      reads this, queue, queue.Repr
    {
      && this !in queue.Repr && queue.Valid()
      && |lookups| == |responses|
    }

    ghost function State(): Path
      requires |lookups| == |responses|
      reads this, queue
    {
      Path(Packages(OldestFirst(queue)), requests,
           seq(|responses|, i requires 0 <= i < |responses| && |lookups| == |responses| reads this =>
             Answer(lookups[i], responses[i])),
           connected)
    }

    constructor (cache: map<Address, Address>)
      ensures Valid() && fresh(queue) && fresh(queue.Repr)
      ensures State() == Path([], [], [], false) && this.cache == cache
    {
      queue := new List<QueueEntry>();
      requests, responses, connected := [], [], false;
      lookups := [];
      this.cache := cache;
    }

    /** Fails, and forgets the package, when no routerd is connected. */
    method RequestForwarding(package: Package, now: int) returns (rc: int)
      requires Valid()
      modifies this`requests, queue.Repr
      ensures Valid() && fresh(queue.Repr - old(queue.Repr))
      ensures rc == if connected then 1 else -1
      ensures State() == if connected then After(old(State()), Request(package)) else old(State())
      ensures connected ==>
        && State().waiting == old(State()).waiting + [package]
        && State().requests == old(State()).requests + [package.destination]
        && State().answers == old(State()).answers
    {
      if !connected {
        return -1;
      }
      requests := requests + [package.destination];
      PackagesAppend(OldestFirst(queue), QueueEntry(now, package.destination, package));
      QueueSend(queue, QueueEntry(now, package.destination, package));
      return 1;
    }

    /** routerd's side: exactly one answer, found or 255, for each lookup. */
    method AnswerLookup(table: RouteTable)
      requires Valid() && requests != []
      modifies this`requests, this`responses, this`lookups
      ensures Valid() && State() == After(old(State()), Answering(table.entries))
      ensures State().waiting == old(State()).waiting && requests == old(requests)[1..]
      ensures var d := old(requests)[0];
        var hop := if d == BROADCAST || Lookup(table.entries, d).None? then BROADCAST
                   else Lookup(table.entries, d).value.nextHop;
        responses == old(responses) + [hop] && State().answers == old(State()).answers + [Answer(d, hop)]
    {
      var destination := requests[0];
      requests := requests[1..];
      var nextHop := table.GetNextHop(destination);
      responses := responses + [nextHop];
      lookups := lookups + [destination];
    }

    // The end of the answering channel, read after the last answer; lookups not read are gone.
    method HandleDisconnect()
      requires Valid() && connected && responses == []
      modifies this`requests, this`responses, this`lookups, this`connected
      ensures Valid() && State() == After(old(State()), Disconnect)
      ensures State() == Path(old(State()).waiting, [], [], false)
    {
      requests, responses, lookups, connected := [], [], [], false;
    }

    method HandleConnect()
      requires Valid()
      modifies this`requests, this`responses, this`lookups, this`connected
      ensures Valid() && State() == After(old(State()), Connect)
      ensures State() == Path(old(State()).waiting, [], [], true)
    {
      requests, responses, lookups, connected := [], [], [], true;
    }

    /** Reads one answer. The package at the front of the queue leaves it in every case; its destination,
        time to live and contents stay as they were, and only an unset source address is filled in. With nothing in
        the queue it fails, by using a null pointer if the answer names a hop that is in the cache. */
    method HandleResponse() returns (outcome: Outcome)
      requires Valid() && responses != []
      modifies this`responses, this`lookups, queue.Repr
      ensures Valid() && fresh(queue.Repr - old(queue.Repr)) && responses == old(responses)[1..]
      ensures old(State()).waiting == [] ==>
        && State() == old(State()).(answers := old(State()).answers[1..])
        && outcome == if old(responses)[0] != BROADCAST && old(responses)[0] in cache then Crashed else Failed
      ensures old(State()).waiting != [] ==>
        var p := old(State()).waiting[0];
        var hop := old(responses)[0];
        && State() == After(old(State()), Resolve)
        && State().waiting == old(State()).waiting[1..] && State().answers == old(State()).answers[1..]
        && State().requests == old(State()).requests
        && outcome == if hop == BROADCAST then NotFound(p)
                      else if hop !in cache then Failed
                      else Forwarded(if p.source == BROADCAST then p.(source := cache[hop]) else p, hop)
    {
      var nextHop := responses[0];
      responses, lookups := responses[1..], lookups[1..];
      var entry := QueueRecv(queue);
      if entry.None? {
        return if nextHop != BROADCAST && nextHop in cache then Crashed else Failed;
      }
      var package := entry.value.package;
      if nextHop == BROADCAST {
        return NotFound(package);
      }
      if nextHop !in cache {
        return Failed;
      }
      if package.source == BROADCAST {
        package := package.(source := cache[nextHop]);
      }
      return Forwarded(package, nextHop);
    }
  }

  function Packages(entries: seq<QueueEntry>): (r: seq<Package>)
    ensures |r| == |entries| && forall i :: 0 <= i < |r| ==> r[i] == entries[i].package
  {
    seq(|entries|, i requires 0 <= i < |entries| => entries[i].package)
  }

  lemma PackagesAppend(entries: seq<QueueEntry>, e: QueueEntry)
    ensures Packages(entries + [e]) == Packages(entries) + [e.package]
  {
  }
}
