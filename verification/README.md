# Verification of the MIP network daemons and their library code

This Dafny project models the code of the MIP daemons (`mipd`, `routerd`, `miptpd`) and of the C library they
share, and proves what it promises. Imperative C code is modelled by classes over arrays and linked nodes and by
methods with loops, each proved against a function or a predicate; what those mean is proved in lemmas beside
them.

`dafny verify dfyconfig.toml` checks the whole project.

## What is modelled

- **Distance-vector routing.** `RouteTables` has routerd's table as the list it rewrites, the package it is sent
  as, and mipd's poisoned broadcast. `Networks` puts routers on links, with broadcasts in flight that arrive
  late, out of order or never, and proves loop freedom and convergence by rounds for as long as nothing expires;
  `Liveness` that there are such runs, and `Refresh` that nothing expires when neighbours are heard within the
  maximal age. `Expiry` lets old entries go
  at any time, with broadcasts received as they are sent: two routers never point at each other, three may.
- **Forwarding.** `Lists` is the doubly linked list and the queue made of it. `Forwarding` is the lookup path
  between mipd and routerd, whose answers carry no identification. `HopLimit` is the time to live, with routing
  tables that may say anything.
- **Strings.** `Capacity` and `BStrings` are the growing buffers and the edits made in place, `Search` is the
  substring search with its greedy embedding and its jump back into the loop, `Replace`, `ReplaceEngine` and
  `ReplaceGrowing` are find-and-replace with one meaning and three algorithms, `CharFields` the bit sets.
  `Cutting`, `Splitting` and `Joining` are the splitters and the join that undoes them, `Separators` says when
  splitting at a substring does what one would expect. `Streams` and
  `StreamSplitting` are the buffered readers: the virtual stream is the buffer followed by what the core stream
  has yet to give, and the core stream chooses its chunks freely.
- **Hash map.** `DArrays` and `Hashmaps`: a hundred buckets of growable arrays as one multiset of pairs.
- **Sending.** `SendJobs`: MIPTP segmentation with its 16-bit indices, and the sliding window.

Clocks, hash and compare functions, the ARP cache and the chunking of reads are parameters or free choices.
Integer widths are modelled where they matter: costs modulo 2^32, packet indices modulo 2^16, the `int` lengths and
sums of the string operations, the shift from `unsigned` back to `int` in `snapUpSize`. Where the C would go on with
an access outside a buffer, the model stops with the code `FAULT`.

## Where the code differs from what is said about it

- `MIPRouteTable_remove` is said to return 0 for an entry it does not find; on an empty table it returns 1.
- `bsplitstrcb` goes on one position too far after a match of two characters or more, so of two adjacent
  separators the second is not seen (`Separators.SplitsCleanlyIff`) and may stay in an entry
  (`Separators.NoSeparatorLeftIff`). Joining is not affected. With an empty separator it calls back for each
  character, though its comment has the whole string handed over once.
- `bsplit` and `bsplitstr` return NULL for lists of more than 2^30 entries. The splitters search on in front of a
  string of INT_MAX characters once they are through with it (`Splitting.BSplitCb`), a search for a substring only if
  the string ends with it (`Splitting.BSplitStrCb`).
- `bfindreplace` refuses to expand 2^27 matches or more, even if the result would fit
  (`ReplaceGrowing.FindReplaceEngine`).
- `bninchr` and `bninchrr` report an error for an empty set though every character is outside it
  (`CharFields.EmptySetMisses`).
- `bsreada` passes on what one read gives when the buffer is empty and the target has room, so it may return fewer
  characters than asked for before the end (`Streams.ShortReadIff`). When what is buffered and the target together
  pass INT_MAX it reports an error, though what is asked for is there and would fit (`Streams.OverfullRead`).
- `bsreadlna` and `bsreadlnsa` report no error for a line in the buffer that has no room in the target
  (`Streams.UnfitLine`); when a chunk has none they give up with the buffered characters read and still to be read
  (`Streams.LineReadTwice`).
- `bdelete` clamps the section by sums that may overflow; `BStrings.BString.BDelete` has the exact condition under
  which it does what it says.
- `balloc` leaves no room beyond a request of 2^30 or more unless it was there (`BStrings.BString.BAlloc`), so that
  `breplace` can put the terminator behind the buffer (`BStrings.BString.BReplace`), and so can `bsetstr` in a string
  that already fills its buffer (`BStrings.BString.BSetStr`).
- `bconcat` tests the new length but not the place of the terminator, which for INT_MAX characters no buffer has
  (`BStrings.BString.BConcat`).
- A hash map holds a map only while keys are not set twice (`Hashmaps.MapAllAlongIff`).
- A send job wraps its index at sequence 44 (`SendJobs.SegmentsIff`), and is complete one acknowledgement early.
- After routerd reconnects, answers go to the wrong packages unless none was waiting
  (`Forwarding.ReconnectAligned`).

## Model

| member | source | states |
|---|---|---|
| `RouteTables.LookupFinds` | IN4230_HE/MIP/routerd/src/lib/mip_route_table.h:63-71 | The walk finds an entry exactly when one has the destination, and what it finds is an element of the list. |
| `RouteTables.LookupIs` | IN4230_HE/MIP/routerd/src/lib/mip_route_table.h:63-71 | In a table with at most one entry per destination the walk finds every entry there is. |
| `RouteTables.RouteTable.Get` | IN4230_HE/MIP/routerd/src/lib/mip_route_table.h:63-71 | The list walk returns the first entry for the destination, or none. |
| `RouteTables.RouteTable.GetNextHop` | IN4230_HE/MIP/routerd/src/lib/mip_route_table.c:93-102 | The next hop of that entry; 255 without one and for the broadcast address. |
| `RouteTables.RouteTable.Remove` | IN4230_HE/MIP/routerd/src/lib/mip_route_table.c:70-90 | Unlinks the first entry for the destination. 1 if there was one and for an empty table too, 0 otherwise. |
| `RouteTables.WithoutFirst` | IN4230_HE/MIP/routerd/src/lib/mip_route_table.c:70-90 | What is unlinked is the first entry for the destination, and no other. |
| `RouteTables.WithoutLookup` | IN4230_HE/MIP/routerd/src/lib/mip_route_table.c:70-90 | Removing a destination keeps the table duplicate-free, hides that destination and leaves every other lookup as it was. |
| `RouteTables.RouteTable.Update` | IN4230_HE/MIP/routerd/src/lib/mip_route_table.c:52-66 | Leaves the table without the old entry for the destination and with the new one at the end. |
| `RouteTables.UpdatedLookup` | IN4230_HE/MIP/routerd/src/lib/mip_route_table.c:52-66 | After an update that destination has the new entry, all others have what they had, and there is still one entry per destination. |
| `RouteTables.RouteTable.UpdateRouting` | IN4230_HE/MIP/routerd/src/lib/mip_route_table.c:105-122 | The loop that removes and pushes while it looks up computes the left-to-right fold of the neighbour's entries. |
| `RouteTables.MergeIsPointwise` | IN4230_HE/MIP/routerd/src/lib/mip_route_table.c:105-122 | For a duplicate-free neighbour table the rewriting fold equals, destination by destination, one comparison: take cost + 1 via the sender iff not poisoned and absent or no worse, else keep. |
| `RouteTables.MergeStep` | IN4230_HE/MIP/routerd/src/lib/mip_route_table.c:109-117 | One more entry, in any package, even one that repeats destinations: taken iff not UINT_MAX and, plus one, no dearer than what is held, with the sender as next hop. |
| `RouteTables.MergeImproves` | IN4230_HE/MIP/routerd/src/lib/mip_route_table.c:105-122 | A merge never forgets a destination and never raises its cost, and what it changes leads to the sender. |
| `RouteTables.MergeTeaches` | IN4230_HE/MIP/routerd/src/lib/mip_route_table.c:105-122 | After the merge whatever the neighbour offered unpoisoned is held at no more than its cost plus one. |
| `RouteTables.RouteTablePackage.constructor` | IN4230_HE/MIP/routerd/src/lib/mip_route_table.c:143-163 | An empty package. |
| `RouteTables.RouteTable.CreatePackage` | IN4230_HE/MIP/routerd/src/lib/mip_route_table.c:143-163 | A package with the entries in order; none when the table holds 64 entries or more. |
| `RouteTables.CreateTable` | IN4230_HE/MIP/routerd/src/lib/mip_route_table.c:165-183 | The table a received package stands for; none exactly when its count, any byte, is 64 or more. |
| `RouteTables.CreateServerTable` | IN4230_HE/MIP/routerd/src/lib/router_server.c:30-36 | A server starts with its own addresses at cost 0, each its own next hop. |
| `RouteTables.InitialLookup` | IN4230_HE/MIP/routerd/src/lib/router_server.c:30-36 | That table holds exactly the listed addresses, once each, at cost 0. |
| `RouteTables.RouteTable.RemoveOldEntries` | IN4230_HE/MIP/routerd/src/lib/mip_route_table.c:194-220 | The list is replaced by one without the entries past their age; entries of cost 0 stay; the number removed is returned. |
| `RouteTables.AgedStep` | IN4230_HE/MIP/routerd/src/lib/mip_route_table.c:200-212 | An entry goes iff it is older than the maximal age and not of cost 0; the others keep their order. |
| `RouteTables.AgedLookup` | IN4230_HE/MIP/routerd/src/lib/mip_route_table.c:194-220 | Ageing forgets exactly the destinations whose entry is too old and not local, and leaves the others alone. |
| `RouteTables.PoisonReverse` | IN4230_HE/MIP/mipd/src/lib/router/routing.c:45-52 | In place: exactly the entries whose next hop is the receiver get the cost UINT_MAX. |
| `RouteTables.PoisonedLookup` | IN4230_HE/MIP/mipd/src/lib/router/routing.c:45-52 | What a receiver finds for a destination: unchanged, or UINT_MAX when the sender routes it via that receiver. |
| `RouteTables.BroadcastRouteTable` | IN4230_HE/MIP/mipd/src/lib/router/routing.c:57-91 | One message per interface, stamped with its address; in it the cost is UINT_MAX for exactly the entries that lead to the neighbour on it, or to the interface's own address when the neighbour is not known, and all else is as it was. |
| `Networks.StepKeepsLoopFree` | IN4230_HE/MIP/routerd/src/lib/mip_route_table.c:105-122 | Sending, losing or delivering a broadcast, in any order and however late, keeps the invariant: a learned entry leads to a router whose own entry is cheaper, its cost is the length of a walk, and what is in flight is still covered by its sender. |
| `Networks.RunIsLoopFree` | IN4230_HE/MIP/routerd/src/lib/mip_route_table.c:52-122 | The invariant holds in every state of every run up to which nothing has expired. |
| `Networks.FollowToOwner` | IN4230_HE/MIP/routerd/src/lib/mip_route_table.c:93-122 | From that invariant: following next hops, each over a real link, ends at the owner within as many steps as the cost. |
| `Networks.LoopFreedom` | IN4230_HE/MIP/routerd/src/lib/mip_route_table.c:52-122 | In every state of every run, as long as nothing has expired and even with old broadcasts in flight, an entry of cost c leads along next hops to the owner within c steps, and c is the length of a walk, so never below the distance. |
| `Networks.SendAlwaysEnabled` | IN4230_HE/MIP/routerd/src/lib/mip_route_table.c:143-163 | No table outgrows a package while there are fewer than 64 addresses, so a broadcast is always possible. |
| `Networks.PoisonHidesNothing` | IN4230_HE/MIP/mipd/src/lib/router/routing.c:45-52 | If a poisoned broadcast withholds a destination from its receiver, the receiver already has it at that cost or less. |
| `Networks.RoundAdvances` | IN4230_HE/MIP/mipd/src/lib/router/routing.c:57-91 | After one more round in which every interface sent and was heard, the routers one hop further know the destination at its distance. |
| `Networks.RoundsConverge` | IN4230_HE/MIP/mipd/src/lib/router/routing.c:57-91 | After k rounds every router within k hops of an owner holds that destination at no more than its distance. |
| `Networks.Convergence` | IN4230_HE/MIP/routerd/src/lib/mip_route_table.c:105-122 | After k rounds, poisoning notwithstanding, each router within k hops of a destination's owner holds it at exactly its hop distance, with a next hop one hop closer. |
| `Networks.DistancesAreShort` | IN4230_HE/MIP/routerd/src/lib/mip_route_table.c:105-122 | Every distance is less than the number of addresses, so that many rounds suffice. |
| `Networks.ConvergedTableIsComplete` | IN4230_HE/MIP/routerd/src/lib/mip_route_table.c:105-122 | After that many rounds a table knows a destination if and only if there is a way to it. |
| `Liveness.RoundsAlwaysPossible` | IN4230_HE/MIP/mipd/src/lib/router/routing.c:57-91 | From its start every network can go through any number of rounds. |
| `Refresh.OfferStands` | IN4230_HE/MIP/routerd/src/lib/mip_route_table.c:105-122 | What a router holds by way of a neighbour that neighbour goes on offering to it, unpoisoned and cheaper. |
| `Refresh.TimelyMeansNothingExpires` | IN4230_HE/MIP/routerd/src/lib/mip_route_table.c:185-220 | If every router that looks for old entries has heard each neighbour within the maximal age, no entry is ever removed, however the broadcasts overtake each other. |
| `Refresh.TimelyConvergence` | IN4230_HE/MIP/routerd/src/lib/mip_route_table.c:105-220 | Convergence with removal of old entries at work: after k timely rounds exact hop distances and closer next hops. |
| `Expiry.BroadcastKeeps` | IN4230_HE/MIP/mipd/src/lib/router/routing.c:45-87 | A broadcast received as it is sent never makes two routers point at each other. |
| `Expiry.AgeKeeps` | IN4230_HE/MIP/routerd/src/lib/mip_route_table.c:194-220 | Neither does removing old entries. |
| `Expiry.NeverTwoRouterLoop` | IN4230_HE/MIP/mipd/src/lib/router/routing.c:45-52 | On a simple graph no state of any run of broadcasts and removals has u routing d via v while v routes d via u. |
| `Expiry.AgingAllowsThreeRouterLoop` | IN4230_HE/MIP/routerd/src/lib/mip_route_table.c:194-220 | Longer loops do arise: a concrete run on four routers ends with three of them in a circle. |
| `Lists.List.Push` | IN4230_HE/MIP/commons/src/list.c:34-54 | Appends a fresh node; the links stay mutually inverse, the ends null, the count the length. |
| `Lists.List.Unshift` | IN4230_HE/MIP/commons/src/list.c:62-82 | The same at the front. |
| `Lists.List.Remove` | IN4230_HE/MIP/commons/src/list.c:90-123 | Removes a member node wherever it is and returns its value; an empty list or no node changes nothing. |
| `Lists.List.Pop` | IN4230_HE/MIP/commons/src/list.c:56-60 | Takes off the last value, or nothing. |
| `Lists.List.Shift` | IN4230_HE/MIP/commons/src/list.c:84-88 | Takes off the first value, or nothing. |
| `Lists.List.Destroy` | IN4230_HE/MIP/commons/src/list.c:9-19 | The walk frees every node exactly once, in order, and reads none it has freed. |
| `Lists.QueueSend` | IN4230_HE/MIP/commons/src/queue.h:14 | Of the values oldest first: one more at the end. |
| `Lists.QueueRecv` | IN4230_HE/MIP/commons/src/queue.h:15 | Of the values oldest first: the first one is taken, so the queue is first in, first out. |
| `Forwarding.EventKeepsAligned` | IN4230_HE/MIP/mipd/src/lib/router/forwarding.c:87-132 | No event but a routerd going or coming upsets the match between waiting packages and lookups under way. |
| `Forwarding.RunKeepsAligned` | IN4230_HE/MIP/mipd/src/lib/server.c:263-288 | In every state of a run without a disconnect the waiting destinations, oldest first, are those of the unanswered lookups in order, so each answer meets the package whose destination was looked up. |
| `Forwarding.ReconnectAligned` | IN4230_HE/MIP/mipd/src/lib/server.c:272-274 | After a disconnect, found when all answers are read, and a reconnect the match holds if and only if nothing was waiting. |
| `Forwarding.StalePackageTakesAnswer` | IN4230_HE/MIP/mipd/src/lib/server.c:272-274 | Otherwise the first answer after it goes to a package that was left waiting. |
| `Forwarding.Daemon.RequestForwarding` | IN4230_HE/MIP/mipd/src/lib/router/forwarding.c:119-132 | The package as it is goes to the end of the queue and its destination to the end of the lookups, or neither and -1 when routerd is not there. |
| `Forwarding.Daemon.AnswerLookup` | IN4230_HE/MIP/routerd/src/lib/forwarding_handler.c:29-60 | Exactly one answer for the oldest lookup: the next hop of the entry in the table, or 255. |
| `Forwarding.Daemon.HandleDisconnect` | IN4230_HE/MIP/mipd/src/lib/server.c:272-274 | With all answers read, the lookups are gone; the queue stays. |
| `Forwarding.Daemon.HandleConnect` | IN4230_HE/MIP/mipd/src/lib/server.c:236-243 | A new connection starts with nothing under way. |
| `Forwarding.Daemon.HandleResponse` | IN4230_HE/MIP/mipd/src/lib/server.c:263-288 | Found or not, one package leaves the queue per answer; it goes to the hop named, with a source filled in if it had none. With none waiting it fails, by a null pointer exactly when the hop is in the cache. |
| `HopLimit.HandleTransport` | IN4230_HE/MIP/mipd/src/lib/server.c:113-138 | Deliver, drop at time to live 0, or take one off it and ask for a route: the Receive event of that package. |
| `HopLimit.HandleAnswer` | IN4230_HE/MIP/mipd/src/lib/server.c:275-285 | Reading an answer is the Answer event of the package that has waited longest. |
| `HopLimit.Transit` | IN4230_HE/MIP/mipd/src/lib/server.c:113-138 | From link to link through one host, behind any packages waiting there: sent to the next hop in the table with one less to live, the same destination and content, and its source unless that was not set. |
| `HopLimit.HopBound` | IN4230_HE/MIP/mipd/src/lib/packaging/mip_header.c:10-20 | Whatever the tables say, a package is put on links at most 16 times. |
| `HopLimit.CarriedUnchanged` | IN4230_HE/MIP/mipd/src/lib/router/forwarding.c:49-84 | Its destination and content never change, nor its source once it has one. |
| `HopLimit.EventUsesUp` | IN4230_HE/MIP/mipd/src/lib/server.c:123-136 | Every event but an injection uses up some of what is left to do; an injection adds at most 32. |
| `HopLimit.TrafficDiesOut` | IN4230_HE/MIP/mipd/src/lib/server.c:123-136 | In any run the other events number at most 32 for each injection. |
| `Capacity.SnapUpSize` | IN4230_HE/MIP/commons/src/bstrlib.c:79-101 | Below 2^30 the larger of 8 and the least power of two above i; from there on i itself. |
| `Capacity.WrapIsCongruent` | IN4230_HE/MIP/commons/src/bstrlib.c:79-101 | A number forced into an int changes by a multiple of 2^32. |
| `Capacity.NextPower` | IN4230_HE/MIP/commons/src/bstrlib.c:79-101 | One more than a number smeared over all its n bits is the least power of two above it. |
| `Capacity.SmearDoubles` | IN4230_HE/MIP/commons/src/bstrlib.c:86-91 | Or-ing a number with itself shifted by s doubles the length of the run of ones at its top. |
| `BStrings.BString.BAlloc` | IN4230_HE/MIP/commons/src/bstrlib.c:107-170 | Keeps the text and makes room for what is asked for; for more than that if and only if the request is below 2^30 or there was more already. |
| `BStrings.BString.BConcat` | IN4230_HE/MIP/commons/src/bstrlib.c:355-382 | Appends the text, terminated; refused when the sum is past INT_MAX, and not safe at exactly INT_MAX. |
| `BStrings.BString.BConChar` | IN4230_HE/MIP/commons/src/bstrlib.c:388-399 | Appends one character, terminated; refused exactly without room for it in an int. |
| `BStrings.BString.BDelete` | IN4230_HE/MIP/commons/src/bstrlib.c:1039-1061 | For every position and length: cuts out what lies within the string if and only if the sums that clamp the section fit an int; otherwise code or length are wrong. |
| `BStrings.DeletingToTheEnd` | IN4230_HE/MIP/commons/src/bstrlib.c:1050-1056 | An input at which they do not: a length of INT_MAX from the second of five characters on. |
| `BStrings.BString.BInsertBlk` | IN4230_HE/MIP/commons/src/bstrlib.c:1540-1583 | Inserts, after filling up to the position when that is past the end; refused exactly when the new length is not below INT_MAX. |
| `BStrings.BString.BSetStr` | IN4230_HE/MIP/commons/src/bstrlib.c:1482-1530 | Overwrites from the position on, growing and filling as needed; states exactly when it is refused and when the terminator falls behind the buffer. |
| `BStrings.BString.BReplace` | IN4230_HE/MIP/commons/src/bstrlib.c:1603-1647 | Replaces the section by a text of any length; states exactly when it is refused and when the terminator falls behind the buffer. |
| `BStrings.ReplacingAtCapacity` | IN4230_HE/MIP/commons/src/bstrlib.c:1626-1643 | An input at which it does: 2^30 - 1 characters in a buffer of 2^30, and one more in front. |
| `BStrings.BString.BPattern` | IN4230_HE/MIP/commons/src/bstrlib.c:1872-1884 | Position i holds the character at i modulo the old length. |
| `BStrings.DeleteUndoesInsert` | IN4230_HE/MIP/commons/src/bstrlib.c:1540-1583 | Deleting what was inserted gives back the string, padded if the position was past its end. |
| `BStrings.ReplaceIsDeleteInsert` | IN4230_HE/MIP/commons/src/bstrlib.c:1603-1647 | Replacing a section is deleting it and inserting there. |
| `BStrings.InsertedAt` | IN4230_HE/MIP/commons/src/bstrlib.c:1540-1583 | Every position after an insertion: the text inserted, what was there, moved if behind it, and the fill character between. |
| `BStrings.DeletedIs` | IN4230_HE/MIP/commons/src/bstrlib.c:1039-1061 | What is left after a deletion: what is before the section and what is behind it. |
| `BStrings.ReplacedAt` | IN4230_HE/MIP/commons/src/bstrlib.c:1603-1647 | Every position after a replacement. |
| `BStrings.OverwrittenAt` | IN4230_HE/MIP/commons/src/bstrlib.c:1482-1530 | Every position after overwriting. |
| `Search.BInStr` | IN4230_HE/MIP/commons/src/bstrlib.c:1097-1173 | The least position from pos on at which the pattern occurs contiguously, an error if and only if there is none. |
| `Search.FirstMatchMeans` | IN4230_HE/MIP/commons/src/bstrlib.c:1097-1173 | At that position the text is the pattern character by character, and at none before it. |
| `Replace.CutIsUnique` | IN4230_HE/MIP/commons/src/bstrlib.c:1649-1660 | There is one way only to cut a text at leftmost, non-overlapping occurrences. |
| `Replace.ReplaceAllIsRejoin` | IN4230_HE/MIP/commons/src/bstrlib.c:1649-1660 | Replace-all from pos on is that cut of the rest of the text, joined with the replacement. |
| `Replace.NothingToReplace` | IN4230_HE/MIP/commons/src/bstrlib.c:1674 | Without room for the text searched for, and beyond the end, nothing is replaced. |
| `Replace.PiecesRejoin` | IN4230_HE/MIP/commons/src/bstrlib.c:1649-1660 | The cut joined with what was searched for is the text. |
| `ReplaceEngine.ReplaceEqual` | IN4230_HE/MIP/commons/src/bstrlib.c:1693-1703 | Equal lengths: overwriting in place is replace-all, and nothing behind the text changes. |
| `ReplaceEngine.ReplaceShrinking` | IN4230_HE/MIP/commons/src/bstrlib.c:1705-1729 | Shrinking: moving the gaps down in place is replace-all, terminated; nothing written touches text still to be searched or moved. |
| `ReplaceGrowing.FindMatches` | IN4230_HE/MIP/commons/src/bstrlib.c:1745-1779 | The growable array ends up with every match in order; an error exactly for 2^27 matches or more, or a growth that does not fit an int. |
| `ReplaceGrowing.OccurrencesBetweenPieces` | IN4230_HE/MIP/commons/src/bstrlib.c:1745-1779 | There is one match less than there are pieces in the cut. |
| `ReplaceGrowing.ResultLength` | IN4230_HE/MIP/commons/src/bstrlib.c:1771-1775 | The length the code adds up is that of replace-all. |
| `ReplaceGrowing.TooManyMeans` | IN4230_HE/MIP/commons/src/bstrlib.c:1749-1778 | The limits in numbers: 2^27 matches, or their number times the growth past INT_MAX. |
| `ReplaceGrowing.SpreadOut` | IN4230_HE/MIP/commons/src/bstrlib.c:1781-1797 | Expanding: moving the gaps up from the back, ended by the sentinel, is replace-all. |
| `ReplaceGrowing.ReplaceExpanding` | IN4230_HE/MIP/commons/src/bstrlib.c:1731-1804 | Matches found, room made and text spread out: replace-all, or an error exactly for 2^27 matches or more, or a result of INT_MAX characters or more. |
| `ReplaceGrowing.FindReplaceEngine` | IN4230_HE/MIP/commons/src/bstrlib.c:1660-1804 | All three branches leave the one replace-all of the text from pos on, terminated; an error, in exactly those cases of the third, leaves the text as it was. |
| `CharFields.BuildCharField` | IN4230_HE/MIP/commons/src/bstrlib.c:1376-1384 | The 256 bits are those of the characters in the string; an error for an empty one. |
| `CharFields.InvertCharField` | IN4230_HE/MIP/commons/src/bstrlib.c:1386-1389 | The bits become those of all other characters. |
| `CharFields.BStrChrP` | IN4230_HE/MIP/commons/src/bstrlib.c:1324-1333 | The first position of the character from pos on. |
| `CharFields.BStrRChrP` | IN4230_HE/MIP/commons/src/bstrlib.c:1340-1349 | The last position of the character up to pos. |
| `CharFields.BInChr` | IN4230_HE/MIP/commons/src/bstrlib.c:1408-1415 | The first position from pos on with a character of the set, an error iff there is none. |
| `CharFields.BInChrR` | IN4230_HE/MIP/commons/src/bstrlib.c:1434-1442 | The last position up to pos with a character of the set. |
| `CharFields.FirstOfMeans` | IN4230_HE/MIP/commons/src/bstrlib.c:1408-1415 | A position found holds one of the characters and is the least such from pos on; an error means there is none. |
| `CharFields.LastOfMeans` | IN4230_HE/MIP/commons/src/bstrlib.c:1434-1442 | The same for the greatest up to pos. |
| `CharFields.BNInChr` | IN4230_HE/MIP/commons/src/bstrlib.c:1450-1457 | The first position with a character outside a non-empty set; an error for an empty one. |
| `CharFields.BNInChrR` | IN4230_HE/MIP/commons/src/bstrlib.c:1465-1473 | The last position with a character outside a non-empty set; an error for an empty one. |
| `CharFields.EmptySetMisses` | IN4230_HE/MIP/commons/src/bstrlib.c:1444-1449 | For an empty set that error is right exactly when there is nothing to search. |
| `Cutting.CutsRejoin` | IN4230_HE/MIP/commons/src/bstrlib.c:2676-2692 | Splitting at a character and joining with it is the identity. |
| `Cutting.CutIs` | IN4230_HE/MIP/commons/src/bstrlib.c:2681-2691 | Call by call, for any set of characters: the entry is the text from its offset, without any of them, up to one of them or the end, behind which the next one starts. |
| `Cutting.CutsAreClean` | IN4230_HE/MIP/commons/src/bstrlib.c:2676-2692 | There is one entry more than the character occurs, and none contains it. |
| `Cutting.CountIsMultiplicity` | IN4230_HE/MIP/commons/src/bstrlib.c:2681-2691 | How often the character occurs. |
| `Cutting.CutsAreUnique` | IN4230_HE/MIP/commons/src/bstrlib.c:2676-2692 | Entries that do not contain the character, joined with it, are what splitting gives back. |
| `Cutting.MadeAll` | IN4230_HE/MIP/commons/src/bstrlib.c:2681-2691 | Calls each of which ends at the next separator and starts just behind the one before are all the calls. |
| `Cutting.StringCutsRejoin` | IN4230_HE/MIP/commons/src/bstrlib.c:2754-2781 | Splitting at a substring and joining with it is the identity, overlapping and adjacent occurrences included. |
| `Cutting.AllStringCutIs` | IN4230_HE/MIP/commons/src/bstrlib.c:2754-2781 | Call by call: the entry is the text from its offset up to the substring or the end, behind which the next one starts. |
| `Cutting.NothingMissed` | IN4230_HE/MIP/commons/src/bstrlib.c:2771-2776 | In no entry does the substring stand from where it was searched for: one position beyond the start of the entry, but for the first one. |
| `Cutting.SinglesRejoin` | IN4230_HE/MIP/commons/src/bstrlib.c:2761-2766 | With an empty separator: single characters, which joined with nothing are the string. |
| `Splitting.BSplitCb` | IN4230_HE/MIP/commons/src/bstrlib.c:2676-2692 | The calls are those of the cut at the character from pos on, and stated call by call; after them a fault exactly for a string of INT_MAX characters. |
| `Splitting.BSplitScb` | IN4230_HE/MIP/commons/src/bstrlib.c:2710-2736 | No entry holds a character of the set, behind every entry but the last stands one, and all of the string from pos on is there; one call with the whole string, and no fault, for an empty set, wherever it was to start. |
| `Splitting.BSplitStrCb` | IN4230_HE/MIP/commons/src/bstrlib.c:2754-2781 | The calls for a substring, with its special cases for lengths 0 and 1; a fault, before the last call, exactly when a string of INT_MAX characters ends with the substring found. |
| `Separators.SplitsCleanlyIff` | IN4230_HE/MIP/commons/src/bstrlib.c:2754-2781 | The entries are the stretches between leftmost occurrences if and only if the substring is a single character or no occurrence directly follows another. |
| `Separators.AdjacentMissed` | IN4230_HE/MIP/commons/src/bstrlib.c:2771-2776 | An input at which they are not: twice the same substring of two characters or more. |
| `Separators.NoSeparatorLeftIff` | IN4230_HE/MIP/commons/src/bstrlib.c:2771-2776 | No entry contains the substring if and only if it is a single character or every occurrence passed over is overlapped by a later one. |
| `Separators.NoneContainsMeans` | IN4230_HE/MIP/commons/src/bstrlib.c:2771-2776 | No entry contains the substring at any position. |
| `Separators.NoSeparatorLeftIffNoDouble` | IN4230_HE/MIP/commons/src/bstrlib.c:2771-2776 | For a substring whose occurrences cannot overlap: if and only if it is nowhere there twice in a row. |
| `Separators.OverlapHides` | IN4230_HE/MIP/commons/src/bstrlib.c:2771-2776 | Clean entries in spite of adjacent occurrences: five times a character, split at two of it. |
| `Splitting.BStrList.Add` | IN4230_HE/MIP/commons/src/bstrlib.c:2788-2810 | Appends an entry, in a table twice as large when it was full; an error exactly when it holds 2^30 entries, and else a fault exactly for an entry of INT_MAX characters. |
| `Splitting.BSplit` | IN4230_HE/MIP/commons/src/bstrlib.c:2817-2838 | The list joins to the string, has one entry more than the character occurs, and its entries are those of the cut; an error exactly for 2^30 occurrences or more, and else a fault exactly for a string of INT_MAX characters. |
| `Splitting.BSplitStr` | IN4230_HE/MIP/commons/src/bstrlib.c:2845-2866 | The list joins to the string with the substring, also with an empty one; when it is an error or a fault instead is stated exactly. |
| `Splitting.JoinedAtLeast` | IN4230_HE/MIP/commons/src/bstrlib.c:2845-2866 | A text is at least as long as one of its entries and the separators, so a single entry only can have INT_MAX characters. |
| `Splitting.AllStringCutsRejoin` | IN4230_HE/MIP/commons/src/bstrlib.c:2754-2781 | The round trip for every string and every separator. |
| `Joining.BJoinBlk` | IN4230_HE/MIP/commons/src/bstrlib.c:2369-2426 | The joined text, terminated; nothing exactly when it does not fit. |
| `Joining.ProductCheckIsExact` | IN4230_HE/MIP/commons/src/bstrlib.c:2399-2402 | The division test on the wrapped product holds exactly when the product overflows, and without the test it cannot. |
| `Joining.JoinedSnoc` | IN4230_HE/MIP/commons/src/bstrlib.c:2411-2420 | One entry more puts the separator and the entry behind what was joined before. |
| `Joining.JoinedLength` | IN4230_HE/MIP/commons/src/bstrlib.c:2380-2404 | The length the code adds up is that of the joined text. |
| `Joining.SplitThenJoin` | IN4230_HE/MIP/commons/src/bstrlib.c:2369-2426 | Both operations one after the other: the string again, for every string below INT_MAX characters that splits. |
| `Joining.SplitStrThenJoin` | IN4230_HE/MIP/commons/src/bstrlib.c:2369-2426 | The same at a substring. |
| `Streams.BStream.constructor` | IN4230_HE/MIP/commons/src/bstrlib.c:2041-2053 | A stream with an empty buffer, at its beginning. |
| `Streams.BStream.BSReadLnA` | IN4230_HE/MIP/commons/src/bstrlib.c:2098-2154 | For every stream and target: when the line fits, appends exactly the line up to the first terminator, or all there is, and leaves the rest, for any chunks and any buffer size; what else may happen, and when, is stated too. |
| `Streams.BStream.BSReadLnSA` | IN4230_HE/MIP/commons/src/bstrlib.c:2163-2225 | The same for a set of terminators. |
| `Streams.LineFitsIf` | IN4230_HE/MIP/commons/src/bstrlib.c:2130-2131 | A line fits when a chunk does behind it, by any terminator or by the whole stream. |
| `Streams.LineMovedMeans` | IN4230_HE/MIP/commons/src/bstrlib.c:2098-2154 | What the readers append is the front of the stream, without a terminator but for the last character. |
| `Streams.OutcomeMeans` | IN4230_HE/MIP/commons/src/bstrlib.c:2113-2134 | Case by case what becomes of a line that has no room. |
| `Streams.LineIsUnique` | IN4230_HE/MIP/commons/src/bstrlib.c:2098-2154 | A stream has one such line only. |
| `Streams.UnfitLine` | IN4230_HE/MIP/commons/src/bstrlib.c:2114-2120 | An input at which no error is reported though nothing is read: the line in the buffer has no room behind the text. |
| `Streams.LineReadTwice` | IN4230_HE/MIP/commons/src/bstrlib.c:2125-2134 | An input at which what was buffered goes to the target and stays in the buffer: no room for a chunk behind it. |
| `Streams.BStream.BSReadA` | IN4230_HE/MIP/commons/src/bstrlib.c:2235-2291 | What it appends and what it leaves are together the stream as it was; all n characters or all there are, except that a direct read passes on what one read gives; never more of the core stream than was missing. An error with nothing read exactly when it is stuck, a fault exactly when INT_MAX characters would be in the target. |
| `Streams.TookMeans` | IN4230_HE/MIP/commons/src/bstrlib.c:2235-2291 | What is taken is the front of the stream, and nothing only when nothing is there. |
| `Streams.OverfullRead` | IN4230_HE/MIP/commons/src/bstrlib.c:2266-2279 | An input at which it is stuck: 2^30 characters buffered, 2^30 in the target, one asked for. |
| `Streams.ShortReadIff` | IN4230_HE/MIP/commons/src/bstrlib.c:2251-2265 | A direct read can come up short if and only if two or more are asked for and there. |
| `Streams.BStream.BSUnRead` | IN4230_HE/MIP/commons/src/bstrlib.c:2347-2350 | The characters come before all that was pending. |
| `StreamSplitting.BSSplitScb` | IN4230_HE/MIP/commons/src/bstrlib.c:2459-2506 | The same for the whole content of a stream, for any chunks and anything buffered before; it ends, with nothing left. |
| `StreamSplitting.SplitStream` | IN4230_HE/MIP/commons/src/bstrlib.c:2475-2501 | The loop that reads ahead and pushes back at every separator. |
| `DArrays.DArray.constructor` | IN4230_HE/MIP/commons/src/darray.c:5-24 | Room for the asked number of items, none of them there. |
| `DArrays.DArray.Push` | IN4230_HE/MIP/commons/src/darray.c:103-112 | Appends, and leaves a free slot for the next push. |
| `DArrays.DArray.Pop` | IN4230_HE/MIP/commons/src/darray.c:114-128 | Takes off the last item; shrinks the space on some pops and not on others, never below what is needed. |
| `DArrays.DArray.Resize` | IN4230_HE/MIP/commons/src/darray.c:45-60 | Keeps what fits; further slots hold anything. |
| `DArrays.DArray.Expand` | IN4230_HE/MIP/commons/src/darray.c:62-73 | The same items with more room. |
| `DArrays.DArray.Contract` | IN4230_HE/MIP/commons/src/darray.c:75-84 | The same items with one slot more than they need, or 301. |
| `DArrays.DArray.Set` | IN4230_HE/MIP/commons/src/darray.h:40-47 | One slot changes; a slot beyond the end moves the end, a slot beyond the space is refused. |
| `DArrays.DArray.Remove` | IN4230_HE/MIP/commons/src/darray.h:57-62 | Empties one slot. |
| `Hashmaps.Hashmap.constructor` | IN4230_HE/MIP/commons/src/hashmap.c:36-56 | An empty map. |
| `Hashmaps.Hashmap.FindBucket` | IN4230_HE/MIP/commons/src/hashmap.c:97-121 | The bucket of the hash; creating one changes nothing that the map holds. |
| `Hashmaps.Hashmap.Set` | IN4230_HE/MIP/commons/src/hashmap.c:123-138 | Adds one pair to the multiset of pairs, whatever is there. |
| `Hashmaps.Hashmap.GetNode` | IN4230_HE/MIP/commons/src/hashmap.c:140-154 | The index of a node with that hash and an equal key, -1 if and only if there is none. |
| `Hashmaps.Hashmap.Get` | IN4230_HE/MIP/commons/src/hashmap.c:156-173 | Finds the data of a pair with a matching key exactly when there is one. |
| `Hashmaps.Hashmap.Delete` | IN4230_HE/MIP/commons/src/hashmap.c:196-219 | Takes out one pair with a matching key, and only it, exactly when there is one. |
| `Hashmaps.NodeDropped` | IN4230_HE/MIP/commons/src/hashmap.c:211-216 | Putting the last node in place of the removed one loses that one pair and no other. |
| `Hashmaps.RunRefinesMap` | IN4230_HE/MIP/commons/src/hashmap.c:123-219 | Setting only absent keys, a run holds the pairs of a map, each once, after every operation. |
| `Hashmaps.MapAllAlongIff` | IN4230_HE/MIP/commons/src/hashmap.c:123-138 | It does so all along if and only if only absent keys are ever set. |
| `SendJobs.SlidingWindow.constructor` | delivery/IN4230-HE2/miptpd/src/lib/sliding_window.c:3-10 | The window starts at the base and ends at its size plus one. |
| `SendJobs.SlidingWindow.Update` | delivery/IN4230-HE2/miptpd/src/lib/sliding_window.c:13-19 | The window after an acknowledgement. |
| `SendJobs.WindowFollowsLargest` | delivery/IN4230-HE2/miptpd/src/lib/sliding_window.c:13-19 | Whatever the acknowledgements and their order, the base is the largest so far and the width stays. |
| `SendJobs.SendJob.constructor` | delivery/IN4230-HE2/miptpd/src/lib/miptp_send_job.c:9-29 | A copy of the data, 14 bits of the port, and a window of eleven. |
| `SendJobs.SendJob.NextPackage` | delivery/IN4230-HE2/miptpd/src/lib/miptp_send_job.c:62-83 | The up to 1492 bytes from 1492 times the number modulo 2^16 on; none exactly when that is past the data. |
| `SendJobs.SendJob.NextPackages` | delivery/IN4230-HE2/miptpd/src/lib/miptp_send_job.c:43-56 | The packages of the window, numbered in order from the base, up to its end or the first number past the data. |
| `SendJobs.SendJob.ReceivePackage` | delivery/IN4230-HE2/miptpd/src/lib/miptp_send_job.c:88-91 | Moves the window. |
| `SendJobs.SendJob.IsComplete` | delivery/IN4230-HE2/miptpd/src/lib/miptp_send_job.c:107-113 | Complete when the batches up to the one acknowledged cover the data, one acknowledgement before all packages, and never without data. |
| `SendJobs.BatchesAreContiguous` | delivery/IN4230-HE2/miptpd/src/lib/miptp_send_job.c:62-83 | Below the bound the payloads are the stretch of data that the window covers. |
| `SendJobs.BatchesRunOver` | delivery/IN4230-HE2/miptpd/src/lib/miptp_send_job.c:62-83 | Beyond it sequence 44 wraps around and more is sent than is left. |
| `SendJobs.SegmentsIff` | delivery/IN4230-HE2/miptpd/src/lib/miptp_send_job.c:43-83 | The payloads are that stretch if and only if there are fewer than 43 * 1492 bytes or the window ends at 44 or before. |
| `SendJobs.JobSendsWindow` | delivery/IN4230-HE2/miptpd/src/lib/miptp_send_job.c:43-91 | The same over the whole life of a job: right for short data, or until 34 packages are acknowledged. |

## Left out

- BStrings.BString.BDelete: what memory holds after an access outside the buffer.
- BStrings.BString.BAlloc: the fallback after a failed allocation; allocation always succeeds here.
- Streams.BStream.ReadCore: a core stream that reports an error or an end before its end.
- StreamSplitting.BSSplitScb: callbacks that fail, or that move the stream themselves; and streams within 256 characters of INT_MAX or longer, whose offsets do not fit an int.
- Splitting.BSplitCb: callbacks that fail or change the string; the calls are returned as a list.
- Splitting.BStrList.Add: entries are kept as texts, not as pointers to strings of their own; the size in bytes of the table is not computed.
- Joining.BJoinBlk: the separate loop for an empty separator, which here copies nothing between two entries.
- DArrays.DArray.Expand: which of the new slots are zeroed, all of them may hold anything; and sizes beyond INT_MAX.
- RouteTables.RouteTable.Update: the table's list is a sequence here; that the pointer list refines one is proved in `Lists`.
- Hashmaps.RunRefinesMap: keys that match without being the same, which the multiset results do cover.
- Networks.Convergence: links or routers that come and go; entries that expire are in `Refresh` and `Expiry`.
- Expiry.NeverTwoRouterLoop: broadcasts that arrive later than they were sent, and more than one link between two routers.
- SendJobs.SendJob.NextPackage: the padding length in the package header.
- NULL arguments, and strings that share a buffer.
- Sockets, frames, event loops, ARP, interface tables, logging and command lines.
- Formatting (`bformat` and its kin) and comparison without case.
- `bssplitstrcb`, which hands over the last chunk unsplit.
- The MIPTP receiver and the wire format of its packages.
- mipd's path for packages of local applications, apart from their time to live.
- Backward and case-blind substring search, trimming, comparison and copying of strings.
- The default hash function; a hash is any function of the key.
