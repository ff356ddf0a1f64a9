/** routerd's route table: the list of entries it keeps, the package it is sent as,
    and the rewriting merge that folds a neighbour's table into its own. */
module Common {
  datatype Option<+T> = None | Some(value: T)
}

module RouteTables {
  import opened Common

  // uint8_t, unsigned int
  type Address = a: int | 0 <= a < 256
  type Cost = c: int | 0 <= c < 0x1_0000_0000
  // the uint8_t that counts the entries of a package
  type Count = n: int | 0 <= n < 256

  const BROADCAST: Address := 255
  // UINT_MAX, the cost that marks a poisoned entry
  const POISONED: Cost := 0xFFFF_FFFF
  const PACKAGE_ENTRIES_MAX := 64
  const ENTRY_MAX_AGE_MILLI := 5000

  datatype Entry = Entry(destination: Address, nextHop: Address, cost: Cost, lastUpdated: int)
  datatype PackageEntry = PackageEntry(destination: Address, nextHop: Address, cost: Cost)

  // A table package on its way between routers: the address of the interface it left by, and its entries.
  datatype Message = Message(from: Address, entries: seq<PackageEntry>)

  // challenger->cost + 1, in unsigned arithmetic
  function PlusOne(c: Cost): Cost {
    (c + 1) % 0x1_0000_0000
  }

  // ---------------------------------------------------------------- values of a table

  ghost predicate Distinct(entries: seq<Entry>) {
    forall i, j :: 0 <= i < j < |entries| ==> entries[i].destination != entries[j].destination
  }

  ghost predicate DistinctPackage(entries: seq<PackageEntry>) {
    forall i, j :: 0 <= i < j < |entries| ==> entries[i].destination != entries[j].destination
  }

  // The entry a front-to-back walk finds first.
  function Lookup(entries: seq<Entry>, d: Address): (r: Option<Entry>)
    ensures r.Some? ==> r.value.destination == d
  {
    if entries == [] then None
    else if entries[0].destination == d then Some(entries[0])
    else Lookup(entries[1..], d)
  }

  function LookupPackage(entries: seq<PackageEntry>, d: Address): (r: Option<PackageEntry>)
    ensures r.Some? ==> r.value.destination == d
  {
    if entries == [] then None
    else if entries[0].destination == d then Some(entries[0])
    else LookupPackage(entries[1..], d)
  }

  // The list with the first entry for d unlinked.
  function Without(entries: seq<Entry>, d: Address): seq<Entry> {
    if entries == [] then []
    else if entries[0].destination == d then entries[1..]
    else [entries[0]] + Without(entries[1..], d)
  }

  lemma {:induction false} WithoutFirst(entries: seq<Entry>, d: Address, i: nat)
    requires i < |entries| && entries[i].destination == d
    requires forall k :: 0 <= k < i ==> entries[k].destination != d
    ensures Without(entries, d) == entries[..i] + entries[i + 1..]
  {
    if i > 0 {
      WithoutFirst(entries[1..], d, i - 1);
      assert entries[1..][..i - 1] == entries[1..i];
    }
  }

  lemma {:induction false} WithoutNone(entries: seq<Entry>, d: Address)
    requires forall e :: e in entries ==> e.destination != d
    ensures Without(entries, d) == entries
  {
    if entries != [] {
      assert entries[0] in entries;
      WithoutNone(entries[1..], d);
    }
  }

  function Updated(entries: seq<Entry>, d: Address, nextHop: Address, cost: Cost, now: int): seq<Entry> {
    Without(entries, d) + [Entry(d, nextHop, cost, now)]
  }

  predicate Wins(entries: seq<Entry>, challenger: PackageEntry) {
    var champion := Lookup(entries, challenger.destination);
    (champion.None? || PlusOne(challenger.cost) <= champion.value.cost) && challenger.cost != POISONED
  }

  function MergedOne(entries: seq<Entry>, challenger: PackageEntry, from: Address, now: int): seq<Entry> {
    if Wins(entries, challenger)
    then Updated(entries, challenger.destination, from, PlusOne(challenger.cost), now)
    else entries
  }

  // The neighbour's entries folded in, front to back.
  function Merged(entries: seq<Entry>, challengers: seq<PackageEntry>, from: Address, now: int): seq<Entry> {
    if challengers == [] then entries
    else
      var k := |challengers| - 1;
      MergedOne(Merged(entries, challengers[..k], from, now), challengers[k], from, now)
  }

  predicate TooOld(e: Entry, maxAge: int, now: int) {
    now - e.lastUpdated > maxAge && e.cost != 0
  }

  function Aged(entries: seq<Entry>, maxAge: int, now: int): seq<Entry> {
    if entries == [] then []
    else
      var k := |entries| - 1;
      Aged(entries[..k], maxAge, now) + if TooOld(entries[k], maxAge, now) then [] else [entries[k]]
  }

  function Packed(entries: seq<Entry>): (p: seq<PackageEntry>)
    ensures |p| == |entries|
    ensures forall i :: 0 <= i < |p| ==>
      p[i] == PackageEntry(entries[i].destination, entries[i].nextHop, entries[i].cost)
  {
    seq(|entries|, i requires 0 <= i < |entries| =>
      PackageEntry(entries[i].destination, entries[i].nextHop, entries[i].cost))
  }

  function Poisoned(entries: seq<PackageEntry>, neighbour: Address): (p: seq<PackageEntry>)
    ensures |p| == |entries|
    ensures forall i :: 0 <= i < |p| ==> p[i].destination == entries[i].destination
    ensures forall i :: 0 <= i < |p| ==>
      p[i] == if entries[i].nextHop == neighbour then entries[i].(cost := POISONED) else entries[i]
  {
    seq(|entries|, i requires 0 <= i < |entries| =>
      if entries[i].nextHop == neighbour then entries[i].(cost := POISONED) else entries[i])
  }

  // The table routerd starts from: each local address, owned at cost 0.
  function Initial(addresses: seq<Address>, now: int): seq<Entry> {
    if addresses == [] then []
    else
      var k := |addresses| - 1;
      Updated(Initial(addresses[..k], now), addresses[k], addresses[k], 0, now)
  }

  // What a merge does to one destination, said without the list.
  function Best(champion: Option<Entry>, challenger: Option<PackageEntry>, from: Address, now: int): Option<Entry> {
    if challenger.None? || challenger.value.cost == POISONED then champion
    else if champion.None? || challenger.value.cost + 1 <= champion.value.cost
    then Some(Entry(challenger.value.destination, from, challenger.value.cost + 1, now))
    else champion
  }

  // ---------------------------------------------------------------- lemmas about the values

  lemma {:induction false} LookupFinds(entries: seq<Entry>, d: Address)
    ensures Lookup(entries, d).Some? ==> Lookup(entries, d).value in entries
    ensures Lookup(entries, d).None? <==> forall e :: e in entries ==> e.destination != d
  {
    if entries != [] {
      LookupFinds(entries[1..], d);
      assert forall e :: e in entries <==> e == entries[0] || e in entries[1..];
    }
  }

  lemma {:induction false} LookupPackageFinds(entries: seq<PackageEntry>, d: Address)
    ensures LookupPackage(entries, d).Some? ==> LookupPackage(entries, d).value in entries
    ensures LookupPackage(entries, d).None? <==> forall e :: e in entries ==> e.destination != d
  {
    if entries != [] {
      LookupPackageFinds(entries[1..], d);
      assert forall e :: e in entries <==> e == entries[0] || e in entries[1..];
    }
  }

  lemma LookupIs(entries: seq<Entry>, i: int)
    requires Distinct(entries) && 0 <= i < |entries|
    ensures Lookup(entries, entries[i].destination) == Some(entries[i])
  {
    var r := Lookup(entries, entries[i].destination);
    LookupFinds(entries, entries[i].destination);
    assert entries[i] in entries;
    var j :| 0 <= j < |entries| && entries[j] == r.value;
  }

  lemma {:induction false} LookupAppend(xs: seq<Entry>, ys: seq<Entry>, d: Address)
    ensures Lookup(xs + ys, d) == if Lookup(xs, d).Some? then Lookup(xs, d) else Lookup(ys, d)
  {
    if xs == [] {
      assert xs + ys == ys;
    } else {
      assert (xs + ys)[1..] == xs[1..] + ys;
      LookupAppend(xs[1..], ys, d);
    }
  }

  lemma {:induction false} WithoutLookup(entries: seq<Entry>, d: Address)
    requires Distinct(entries)
    ensures Distinct(Without(entries, d))
    ensures forall e :: e in Without(entries, d) <==> e in entries && e.destination != d
    ensures forall k :: Lookup(Without(entries, d), k) == if k == d then None else Lookup(entries, k)
  {
    if entries != [] {
      var tail := entries[1..];
      assert Distinct(tail);
      WithoutLookup(tail, d);
      assert forall e :: e in entries <==> e == entries[0] || e in tail;
      if entries[0].destination != d {
        var w := Without(tail, d);
        assert Without(entries, d) == [entries[0]] + w;
        assert ([entries[0]] + w)[1..] == w;
        forall i, j | 0 <= i < j < |w| + 1
          ensures ([entries[0]] + w)[i].destination != ([entries[0]] + w)[j].destination
        {
          assert ([entries[0]] + w)[j] == w[j - 1];
          if i == 0 {
            assert w[j - 1] in w;
            var n :| 0 <= n < |tail| && tail[n] == w[j - 1];
            assert entries[n + 1] == w[j - 1];
          }
        }
      } else {
        LookupFinds(tail, d);
      }
    }
  }

  /** Update replaces exactly the entry for its destination and keeps one entry a destination. */
  lemma UpdatedLookup(entries: seq<Entry>, d: Address, nextHop: Address, cost: Cost, now: int)
    requires Distinct(entries)
    ensures Distinct(Updated(entries, d, nextHop, cost, now))
    ensures forall k ::
      Lookup(Updated(entries, d, nextHop, cost, now), k) ==
      if k == d then Some(Entry(d, nextHop, cost, now)) else Lookup(entries, k)
  {
    WithoutLookup(entries, d);
    var e := Entry(d, nextHop, cost, now);
    forall k
      ensures Lookup(Updated(entries, d, nextHop, cost, now), k) == if k == d then Some(e) else Lookup(entries, k)
    {
      LookupAppend(Without(entries, d), [e], k);
    }
    var w := Without(entries, d);
    forall i, j | 0 <= i < j < |w| + 1
      ensures (w + [e])[i].destination != (w + [e])[j].destination
    {
      assert w[i] in w;
    }
  }

  lemma {:induction false} LookupPackageSplit(ps: seq<PackageEntry>, d: Address)
    requires DistinctPackage(ps) && ps != []
    ensures LookupPackage(ps, d) ==
      if ps[|ps| - 1].destination == d then Some(ps[|ps| - 1]) else LookupPackage(ps[..|ps| - 1], d)
  {
    if |ps| > 1 {
      LookupPackageSplit(ps[1..], d);
      assert ps[1..][..|ps| - 2] == ps[..|ps| - 1][1..];
    }
  }

  /** The list-rewriting merge is pointwise: over a duplicate-free neighbour table it takes, for each
      destination, the neighbour's cost plus one iff that is not poisoned and no worse, and else keeps
      what was there. */
  lemma {:induction false} MergeIsPointwise(entries: seq<Entry>, ps: seq<PackageEntry>, from: Address, now: int)
    requires Distinct(entries) && DistinctPackage(ps)
    ensures Distinct(Merged(entries, ps, from, now))
    ensures forall d ::
      Lookup(Merged(entries, ps, from, now), d) ==
      Best(Lookup(entries, d), LookupPackage(ps, d), from, now)
  {
    if ps != [] {
      var k := |ps| - 1;
      var before := Merged(entries, ps[..k], from, now);
      MergeIsPointwise(entries, ps[..k], from, now);
      var c := ps[k];
      LookupPackageFinds(ps[..k], c.destination);
      UpdatedLookup(before, c.destination, from, PlusOne(c.cost), now);
      forall d
        ensures Lookup(Merged(entries, ps, from, now), d) ==
          Best(Lookup(entries, d), LookupPackage(ps, d), from, now)
      {
        LookupPackageSplit(ps, d);
      }
    }
  }

  /** One more entry of a received package, whatever came before it and whether or not it repeats a destination:
      it is taken for its destination when it is not poisoned and, a hop further, no dearer than what is held. */
  lemma MergeStep(entries: seq<Entry>, ps: seq<PackageEntry>, p: PackageEntry, from: Address, now: int, d: Address)
    requires Distinct(entries)
    ensures Merged(entries, [], from, now) == entries
    ensures var before := Lookup(Merged(entries, ps, from, now), d);
      Lookup(Merged(entries, ps + [p], from, now), d) ==
      if p.destination == d && p.cost < 0xFFFF_FFFF && (before.Some? ==> p.cost + 1 <= before.value.cost)
      then Some(Entry(d, from, p.cost + 1, now)) else before
  {
    assert (ps + [p])[..|ps|] == ps;
    MergedDistinct(entries, ps, from, now);
    UpdatedLookup(Merged(entries, ps, from, now), p.destination, from, PlusOne(p.cost), now);
  }

  lemma {:induction false} MergedDistinct(entries: seq<Entry>, ps: seq<PackageEntry>, from: Address, now: int)
    requires Distinct(entries)
    ensures Distinct(Merged(entries, ps, from, now))
  {
    if ps != [] {
      var k := |ps| - 1;
      MergedDistinct(entries, ps[..k], from, now);
      UpdatedLookup(Merged(entries, ps[..k], from, now), ps[k].destination, from, PlusOne(ps[k].cost), now);
    }
  }

  /** Costs never rise in a merge, no destination is lost, and whatever was learned costs at least one. */
  lemma MergeImproves(entries: seq<Entry>, ps: seq<PackageEntry>, from: Address, now: int, d: Address)
    requires Distinct(entries) && DistinctPackage(ps)
    ensures
      var before := Lookup(entries, d);
      var after := Lookup(Merged(entries, ps, from, now), d);
      && (before.Some? ==> after.Some? && after.value.cost <= before.value.cost)
      && (after == before || (after.Some? && after.value.nextHop == from && after.value.cost >= 1))
  {
    MergeIsPointwise(entries, ps, from, now);
  }

  /** A merge leaves a destination no dearer than one more than what the neighbour offers. */
  lemma MergeTeaches(entries: seq<Entry>, ps: seq<PackageEntry>, from: Address, now: int, d: Address)
    requires Distinct(entries) && DistinctPackage(ps)
    ensures
      var offer := LookupPackage(ps, d);
      var after := Lookup(Merged(entries, ps, from, now), d);
      offer.Some? && offer.value.cost != POISONED ==> after.Some? && after.value.cost <= offer.value.cost + 1
  {
    MergeIsPointwise(entries, ps, from, now);
  }

  /** A table that was packed, poisoned for one neighbour and received keeps its destinations apart;
      it carries each entry's cost, except that what was learned from that neighbour is poisoned. */
  lemma {:induction false} PoisonedLookup(entries: seq<Entry>, neighbour: Address, d: Address)
    requires Distinct(entries)
    ensures DistinctPackage(Poisoned(Packed(entries), neighbour))
    ensures var e := Lookup(entries, d);
      LookupPackage(Poisoned(Packed(entries), neighbour), d) ==
      if e.None? then None
      else Some(PackageEntry(d, e.value.nextHop, if e.value.nextHop == neighbour then POISONED else e.value.cost))
  {
    if entries != [] {
      PoisonedLookup(entries[1..], neighbour, d);
      assert Poisoned(Packed(entries), neighbour)[1..] == Poisoned(Packed(entries[1..]), neighbour);
    }
  }

  // What is left of a lookup when old entries go.
  function Surviving(e: Option<Entry>, maxAge: int, now: int): Option<Entry> {
    if e.Some? && TooOld(e.value, maxAge, now) then None else e
  }

  // The last entry goes or stays, and hides nothing that a different destination finds.
  lemma AgeLast(front: seq<Entry>, kept: seq<Entry>, last: Entry, maxAge: int, now: int, d: Address)
    requires Lookup(kept, d) == Surviving(Lookup(front, d), maxAge, now)
    requires Lookup(front, last.destination).None?
    ensures Lookup(kept + if TooOld(last, maxAge, now) then [] else [last], d) ==
            Surviving(Lookup(front + [last], d), maxAge, now)
  {
    LookupAppend(front, [last], d);
    LookupAppend(kept, [last], d);
    assert kept + [] == kept;
  }

  /** One entry after the other is kept, in order, or goes. */
  lemma AgedStep(entries: seq<Entry>, e: Entry, maxAge: int, now: int)
    ensures Aged([], maxAge, now) == []
    ensures Aged(entries + [e], maxAge, now) ==
      if now - e.lastUpdated > maxAge && e.cost != 0 then Aged(entries, maxAge, now)
      else Aged(entries, maxAge, now) + [e]
  {
    assert (entries + [e])[..|entries|] == entries;
    assert Aged(entries, maxAge, now) + [] == Aged(entries, maxAge, now);
  }

  /** Aging removes exactly the learned entries that are too old; owned entries (cost 0) never age. */
  lemma {:induction false} AgedLookup(entries: seq<Entry>, maxAge: int, now: int)
    requires Distinct(entries)
    ensures Distinct(Aged(entries, maxAge, now))
    ensures forall e :: e in Aged(entries, maxAge, now) <==>
      e in entries && (now - e.lastUpdated <= maxAge || e.cost == 0)
    ensures forall d :: Lookup(Aged(entries, maxAge, now), d) == Surviving(Lookup(entries, d), maxAge, now)
  {
    if entries != [] {
      hide Lookup;
      var k := |entries| - 1;
      var before, last := entries[..k], entries[k];
      var kept := Aged(before, maxAge, now);
      AgedLookup(before, maxAge, now);
      assert entries == before + [last];
      LookupFinds(before, last.destination);
      forall d ensures Lookup(Aged(entries, maxAge, now), d) == Surviving(Lookup(entries, d), maxAge, now) {
        AgeLast(before, kept, last, maxAge, now, d);
      }
      forall j | 0 <= j < |kept| ensures kept[j].destination != last.destination {
        assert kept[j] in kept;
        var n :| 0 <= n < k && before[n] == kept[j];
      }
    } else {
      assert Aged(entries, maxAge, now) == entries;
    }
  }

  lemma {:induction false} InitialLookup(addresses: seq<Address>, now: int)
    ensures Distinct(Initial(addresses, now))
    ensures forall d ::
      Lookup(Initial(addresses, now), d) ==
      if d in addresses then Some(Entry(d, d, 0, now)) else None
  {
    if addresses != [] {
      var k := |addresses| - 1;
      InitialLookup(addresses[..k], now);
      UpdatedLookup(Initial(addresses[..k], now), addresses[k], addresses[k], 0, now);
      assert addresses == addresses[..k] + [addresses[k]];
    }
  }

  // ---------------------------------------------------------------- the table itself

  class RouteTablePackage {
    var tableAddress: Address
    var numEntries: Count
    const entries: array<PackageEntry>

    ghost predicate Valid() reads this {
      entries.Length == PACKAGE_ENTRIES_MAX && numEntries <= PACKAGE_ENTRIES_MAX
    }

    ghost function Contents(): seq<PackageEntry>
      requires Valid()
      reads this, entries
    {
      entries[..numEntries]
    }

    // calloc: every field is zero
    constructor ()
      ensures Valid() && fresh(entries)
      ensures tableAddress == 0 && Contents() == []
    {
      tableAddress := 0;
      numEntries := 0;
      entries := new PackageEntry[PACKAGE_ENTRIES_MAX](_ => PackageEntry(0, 0, 0));
    }
  }

  class RouteTable {
    var tableAddress: Address
    var maxAge: int
    var entries: seq<Entry>

    constructor ()
      ensures entries == [] && tableAddress == 0 && maxAge == ENTRY_MAX_AGE_MILLI
    {
      tableAddress, maxAge, entries := 0, ENTRY_MAX_AGE_MILLI, [];
    }

    method Get(destination: Address) returns (r: Option<Entry>)
      ensures r == Lookup(entries, destination)
    {
      var i := 0;
      while i < |entries|
        invariant 0 <= i <= |entries|
        invariant Lookup(entries, destination) == Lookup(entries[i..], destination)
      {
        if entries[i].destination == destination {
          return Some(entries[i]);
        }
        assert entries[i..][1..] == entries[i + 1..];
        i := i + 1;
      }
      return None;
    }

    /** 255 both for a destination that is not in the table and for a lookup of the broadcast address. */
    method GetNextHop(destination: Address) returns (hop: Address)
      ensures hop == if destination == BROADCAST || Lookup(entries, destination).None? then BROADCAST
                     else Lookup(entries, destination).value.nextHop
    {
      if destination == BROADCAST {
        return BROADCAST;
      }
      var entry := Get(destination);
      hop := if entry.Some? then entry.value.nextHop else BROADCAST;
    }

    /** 1 when an entry was removed, but also when the table is empty; 0 when no entry matches. */
    method Remove(destination: Address) returns (rc: int)
      modifies this`entries
      ensures entries == Without(old(entries), destination)
      ensures rc == if old(entries) == [] || Lookup(old(entries), destination).Some? then 1 else 0
    {
      if |entries| == 0 {
        return 1;
      }
      var i := 0;
      while i < |entries|
        invariant 0 <= i <= |entries|
        invariant entries == old(entries)
        invariant Without(entries, destination) == entries[..i] + Without(entries[i..], destination)
        invariant Lookup(entries, destination) == Lookup(entries[i..], destination)
      {
        if entries[i].destination == destination {
          assert entries[i..][1..] == entries[i + 1..];
          entries := entries[..i] + entries[i + 1..];
          return 1;
        }
        assert entries[i..][1..] == entries[i + 1..];
        assert entries[..i] + ([entries[i]] + Without(entries[i + 1..], destination)) ==
               entries[..i + 1] + Without(entries[i + 1..], destination);
        i := i + 1;
      }
      return 0;
    }

    method Update(destination: Address, nextHop: Address, cost: Cost, now: int) returns (rc: int)
      modifies this`entries
      ensures rc == 1 && entries == Updated(old(entries), destination, nextHop, cost, now)
      ensures entries == Without(old(entries), destination) + [Entry(destination, nextHop, cost, now)]
    {
      var entry := Entry(destination, nextHop, cost, now);
      var _ := Remove(destination);
      entries := entries + [entry];
      return 1;
    }

    /** Folds a neighbour's table into this one; MergeIsPointwise says what that means. */
    method UpdateRouting(neighbour: RouteTable, now: int)
      requires neighbour != this
      modifies this`entries
      ensures entries == Merged(old(entries), Packed(neighbour.entries), neighbour.tableAddress, now)
    {
      var i := 0;
      ghost var ps := Packed(neighbour.entries);
      while i < |neighbour.entries|
        invariant 0 <= i <= |neighbour.entries|
        invariant entries == Merged(old(entries), ps[..i], neighbour.tableAddress, now)
      {
        var challenger := neighbour.entries[i];
        var champion := Get(challenger.destination);
        if (champion.None? || PlusOne(challenger.cost) <= champion.value.cost) && challenger.cost != POISONED {
          var _ := Update(challenger.destination, neighbour.tableAddress, PlusOne(challenger.cost), now);
        }
        assert ps[..i + 1][..i] == ps[..i];
        i := i + 1;
      }
      assert ps[..i] == ps;
    }

    /** Fails when the table holds 64 entries or more; a package carries at most 63. */
    method CreatePackage() returns (r: Option<RouteTablePackage>)
      ensures r.Some? <==> |entries| < PACKAGE_ENTRIES_MAX
      ensures r.Some? ==> fresh(r.value) && fresh(r.value.entries) && r.value.Valid()
      ensures r.Some? ==> r.value.tableAddress == 0 && r.value.Contents() == Packed(entries)
    {
      if |entries| >= PACKAGE_ENTRIES_MAX {
        return None;
      }
      var package := new RouteTablePackage();
      var i := 0;
      while i < |entries|
        invariant 0 <= i <= |entries|
        invariant package.Valid() && package.tableAddress == 0
        invariant package.entries[..i] == Packed(entries)[..i]
      {
        var current := entries[i];
        package.entries[i] := PackageEntry(current.destination, current.nextHop, current.cost);
        i := i + 1;
      }
      package.numEntries := i;
      return Some(package);
    }

    method RemoveOldEntries(now: int) returns (removed: int)
      modifies this`entries
      ensures entries == Aged(old(entries), maxAge, now)
      ensures removed == |old(entries)| - |entries|
    {
      removed := 0;
      var i := 0;
      var kept: seq<Entry> := [];
      while i < |entries|
        invariant 0 <= i <= |entries|
        invariant entries == old(entries)
        invariant kept == Aged(entries[..i], maxAge, now)
        invariant removed == i - |kept|
      {
        var entry := entries[i];
        if now - entry.lastUpdated > maxAge && entry.cost != 0 {
          removed := removed + 1;
        } else {
          kept := kept + [entry];
        }
        assert entries[..i + 1][..i] == entries[..i];
        i := i + 1;
      }
      assert entries[..i] == entries;
      entries := kept;
    }
  }

  /** The package is as it came over the network: the count in it may be any byte. */
  method CreateTable(package: RouteTablePackage, now: int) returns (r: Option<RouteTable>)
    requires package.entries.Length == PACKAGE_ENTRIES_MAX
    ensures r.Some? <==> package.numEntries < PACKAGE_ENTRIES_MAX
    ensures r.Some? ==> fresh(r.value) && r.value.tableAddress == package.tableAddress
    ensures r.Some? ==> package.Valid() && Packed(r.value.entries) == package.Contents()
    ensures r.Some? ==> forall e :: e in r.value.entries ==> e.lastUpdated == now
  {
    if package.numEntries >= PACKAGE_ENTRIES_MAX {
      return None;
    }
    var table := new RouteTable();
    table.tableAddress := package.tableAddress;
    var i := 0;
    while i < package.numEntries
      invariant 0 <= i <= package.numEntries
      invariant table.tableAddress == package.tableAddress
      invariant |table.entries| == i
      invariant forall e :: e in table.entries ==> e.lastUpdated == now
      invariant Packed(table.entries) == package.entries[..i]
    {
      var current := package.entries[i];
      table.entries := table.entries + [Entry(current.destination, current.nextHop, current.cost, now)];
      i := i + 1;
    }
    return Some(table);
  }

  /** RouterServer_create's loop over the configured addresses. */
  method CreateServerTable(addresses: seq<Address>, now: int) returns (table: RouteTable)
    ensures fresh(table) && table.entries == Initial(addresses, now)
  {
    table := new RouteTable();
    var i := 0;
    while i < |addresses|
      invariant 0 <= i <= |addresses|
      invariant table.entries == Initial(addresses[..i], now)
    {
      var _ := table.Update(addresses[i], addresses[i], 0, now);
      assert addresses[..i + 1][..i] == addresses[..i];
      i := i + 1;
    }
    assert addresses[..i] == addresses;
  }

  // ---------------------------------------------------------------- poisoned reverse and broadcast

  datatype Interface = Interface(mipAddress: Address, neighbour: Option<Address>)

  method PoisonReverse(package: RouteTablePackage, destination: Address)
    requires package.Valid()
    modifies package.entries
    ensures package.Contents() == Poisoned(old(package.Contents()), destination)
  {
    ghost var was := package.Contents();
    var i := 0;
    while i < package.numEntries
      invariant 0 <= i <= package.numEntries
      invariant forall k :: 0 <= k < i ==> package.entries[k] == Poisoned(was, destination)[k]
      invariant forall k :: i <= k < |was| ==> package.entries[k] == was[k]
    {
      if package.entries[i].nextHop == destination {
        package.entries[i] := package.entries[i].(cost := POISONED);
      }
      i := i + 1;
    }
  }

  // What leaves by one interface: the table, stamped with that interface's address and poisoned
  // for the neighbour on it, or for the interface itself when the neighbour is not known.
  function OnInterface(entries: seq<PackageEntry>, i: Interface): Message {
    Message(i.mipAddress, Poisoned(entries, if i.neighbour.Some? then i.neighbour.value else i.mipAddress))
  }

  /** One message for every interface: the table with the cost UINT_MAX for exactly those entries that lead to the
      neighbour on it, or to the interface itself when the neighbour is not known. */
  method BroadcastRouteTable(package: RouteTablePackage, interfaces: seq<Interface>) returns (sent: seq<Message>)
    requires package.Valid()
    ensures |sent| == |interfaces|
    ensures forall k :: 0 <= k < |sent| ==> sent[k] == OnInterface(package.Contents(), interfaces[k])
    ensures forall k :: 0 <= k < |sent| ==>
      sent[k].from == interfaces[k].mipAddress && |sent[k].entries| == package.numEntries
    ensures forall k, e :: 0 <= k < |sent| && 0 <= e < |sent[k].entries| ==>
      var poisoned := if interfaces[k].neighbour.Some? then interfaces[k].neighbour.value
                      else interfaces[k].mipAddress;
      sent[k].entries[e] ==
        if package.entries[e].nextHop == poisoned then package.entries[e].(cost := 0xFFFF_FFFF) else package.entries[e]
  {
    var tmp := new RouteTablePackage();
    sent := [];
    var i := 0;
    while i < |interfaces|
      invariant 0 <= i <= |interfaces| && |sent| == i
      invariant tmp.Valid()
      invariant package.Contents() == old(package.Contents())
      invariant forall k :: 0 <= k < i ==> sent[k] == OnInterface(package.Contents(), interfaces[k])
    {
      // memcpy of the whole struct
      tmp.numEntries := package.numEntries;
      forall k | 0 <= k < PACKAGE_ENTRIES_MAX {
        tmp.entries[k] := package.entries[k];
      }
      assert tmp.Contents() == package.Contents();
      tmp.tableAddress := interfaces[i].mipAddress;
      var destination := if interfaces[i].neighbour.Some? then interfaces[i].neighbour.value else tmp.tableAddress;
      PoisonReverse(tmp, destination);
      sent := sent + [Message(tmp.tableAddress, tmp.entries[..tmp.numEntries])];
      i := i + 1;
    }
  }
}
