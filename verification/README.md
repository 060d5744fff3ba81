# A verified model of the Carrier DHT node

Carrier is a Kademlia node (Maymounkov and Mazières, "Kademlia"): it keeps a routing table of
k-buckets over 256-bit ids, looks nodes up iteratively, stores values and announces peers. This
project models the parts whose correctness needs an argument over all inputs or all runs, in
Dafny 4.11, and proves that argument. `dafny verify dfyconfig.toml` checks everything.

## How it is built

Code that changes state is modelled as classes and methods with the source's fields, loops and
branches (`KBucket`, `RoutingTable`, `KClosestNodes`, `ClosestCandidates`, `NodeLookup`, `Task`,
`RPCServer`, `Scheduler`, `TokenManager`, `SqliteStorage`, `ProxyConnection`, the in-place loops of
Base58 and of the id code). Each method is proved equal to a function on values, and what the system
promises is proved about those functions, for every input and every run. `Effects`, `LookupEffects`,
`Widening` and their like in the other modules say what each operation does in terms of its inputs
alone: which entry is exchanged for which, which event ends which call, when a bucket splits.

- **Routing table** (`Bits`, `Ids`, `Prefixes`, `Sorting`, `KBuckets`, `Tables`, `Merging`,
  `MergeLoss`, `Effects`, `RoutingTables`, `Dht`, `Nearness`, `Widening`, `KClosest`). The byte tricks
  of ids and prefixes are proved to mean what they should on 256-bit strings; a prefix is then an
  interval of numbers, and the central invariant is that the buckets' intervals tile 0 .. 2^256 - 1.
  Binary search, splitting while inserting, merging in maintenance, eviction, the address book and the
  closest-node collection rest on it. `Samples` holds the entries of the two counterexamples.
- **Lookup engine** (`Candidates`, `Lookups`, `LookupEffects`, `NodeLookups`, `Tasks`, `Rpc`,
  `Schedulers`): one step system each for the candidate list with its calls in flight, the re-entrant
  update loop, the pending-call table and the timer queue.
- **Base58** (`Numerals`, `Base58`): draft-msporny-base58, sections 3 and 4, down to the buffer sizes.
- **Relay framing** (`Relay`): reassembly of packets from arbitrarily cut chunks.
- **Tokens** and **value store** (`Tokens`, `ValueStore`): rotation and lifetime of write tokens;
  compare-and-set, visibility by age and expiry.

Clocks, random numbers, hashes, signature checks, address filters and what callbacks do are
parameters. Times that the source subtracts as unsigned 64-bit numbers wrap around in the model too.

## Where the code and its description differ

- The comment at src/core/routing_table.cc:166 says that merging loses no effective entries. The size
  test is necessary for that (`MergeLoss.SizeTestNecessary`) but not sufficient, because what is kept
  is decided by age: `MergeLoss.StaleCrowdOutEffective` is a pair that passes the test and loses every
  effective entry. `MergeLoss.LosesEffectiveIffDisplaced` gives the exact condition for all buckets,
  `MergeLoss.LosesEffectiveIff` a closed one where no entry is bad and no address shared, and
  `Merging.MergeLosesNothingIff` the one under which nothing at all is lost.
- A bucket is split only for a newcomer in its high half (src/core/routing_table.cc:92-93); the model
  does the same.
- `fill` widens to numerically neighbouring buckets, so its result is not always the exact set of
  k nearest nodes: `Nearness.NearerCanBeMissed` names a table and a target, and `Nearness.ExactIff`
  says exactly when it is.
- A relay length field below 3 makes delivery depend on how the stream was cut, and a field of zero
  keeps the read loop from ending; `Relay.ChunkIndependenceIff` shows that these are exactly the
  streams that do so. Frames longer than 65535 bytes carry a truncated length
  (`Relay.FrameIntactIff`).
- `previousTimestamp` of the token manager has no initial value; it is read unwritten exactly while
  the clock shows at most five minutes since its zero (`Tokens.PreviousWrittenIff`).

## Model

| member | source | states |
|---|---|---|
| `Bits.FirstDifferenceDecides` | src/core/id.cc:79-98 | numbers of equal width compare as their bits do at the first difference |
| `Bits.PrefixIsInterval` | include/carrier/prefix.h:44-56 | a bit string starts with p exactly when its number lies in the interval of p |
| `Bits.HalvesSplitInterval` | src/core/prefix.cc:45-54 | appending a bit to a prefix cuts its interval into two equal halves |
| `Bits.SharedPrefixDistance` | src/core/id.cc:67-98 | two ids share their first k bits exactly when their XOR distance is below 2^(256-k) |
| `Ids.MasksAreShifts` | src/core/id.cc:115-137 | the two mask tables are the shifts 0x80 >> k and 0xff80 >> k (low byte) of the byte code |
| `Ids.XorRefinesBits` | src/core/id.cc:67-73 | the byte-wise XOR is the bit-wise XOR of the 256-bit views |
| `Ids.NumInjective` | include/carrier/id.h:123-135 | an id is determined by the number below 2^256 that it denotes |
| `Ids.DistInjective` | src/core/id.cc:67-98 | no two ids are equally far from a third: the order by distance is strict and total |
| `Ids.ByteMismatchDecides` | src/core/id.cc:79-98 | the first differing byte decides the order of the two numbers |
| `Ids.LeadingBits` | src/core/id.cc:100-121 | bits 0..n agree exactly when all bytes before n/8 and the leading n%8+1 bits of that byte do |
| `Ids.FirstMismatch` | src/core/id.cc:80-87 | the scan finds the first differing byte, or reports that there is none |
| `Ids.Distance` | src/core/id.cc:67-73 | the loop computes the bit-wise XOR, whose number is the distance |
| `Ids.CompareTo` | include/carrier/id.h:123-125 | memcmp order is the order of the numbers, zero exactly on equal ids |
| `Ids.ThreeWayCompare` | src/core/id.cc:79-98 | the sign orders the two ids exactly as their XOR distances to the third compare |
| `Ids.BitsEqual` | src/core/id.cc:100-121 | true exactly when bits 0..n of both ids agree, and always for negative n |
| `Ids.BitsCopy` | src/core/id.cc:123-138 | bits 0..depth of the destination become those of the source and no other bit changes |
| `Prefixes.CoversIsInterval` | include/carrier/prefix.h:44-56 | isPrefixOf(id) holds exactly when first() <= id <= last() |
| `Prefixes.Ends` | src/core/prefix.cc:29-33 | first() and last() are the ends of the interval of the prefix bits |
| `Prefixes.WholeEnds` | include/carrier/prefix.h:90-95 | depth -1 spans the whole keyspace |
| `Prefixes.PatDetermines` | include/carrier/prefix.h:34-38 | a prefix is determined by its bits: the rest is zero |
| `Prefixes.All` | include/carrier/prefix.h:33-33 | the default prefix covers every id |
| `Prefixes.Make` | include/carrier/prefix.h:34-36 | keeps bits 0..depth of the id and covers it |
| `Prefixes.Copy` | include/carrier/prefix.h:37-38 | re-cutting a prefix at its own depth reproduces it |
| `Prefixes.IsPrefixOf` | include/carrier/prefix.h:44-46 | decides whether the prefix covers an id |
| `Prefixes.Last` | src/core/prefix.cc:29-33 | the two XORs give the largest id under the prefix |
| `Prefixes.SplitBranch` | src/core/prefix.cc:45-54 | the child has the bits of the prefix followed by the chosen one |
| `Prefixes.GetParent` | src/core/prefix.cc:35-43 | the parent has all bits but the last; the whole keyspace is its own parent |
| `Prefixes.ParentUndoesSplit` | src/core/prefix.cc:35-54 | the parent of either branch is the prefix again |
| `Prefixes.BranchesHalve` | src/core/prefix.cc:45-54 | the two branches are adjacent, disjoint and together cover exactly what the prefix covers |
| `Prefixes.ParentsAgree` | src/core/prefix.cc:56-58 | having the same parent is agreement on all bits but the last |
| `Prefixes.IsSiblingOf` | src/core/prefix.cc:56-58 | decides whether two prefixes have the same depth and the same parent |
| `Prefixes.SiblingsUnite` | src/core/prefix.cc:35-58 | two different siblings are the low and the high branch of their parent and their intervals unite to its interval |
| `Sorting.SortIsThe` | src/core/routing_table.cc:96-111 | the stable sort of a list with strictly increasing keys is the one ordered list with the same contents |
| `Sorting.SortContents` | src/core/kbucket.cc:139-144 | sorting neither loses nor duplicates an element |
| `Sorting.SortOrders` | src/core/kbucket.cc:139-144 | the sorted list is ordered by its key |
| `KBuckets.PutSound` | src/core/kbucket.cc:32-75 | a put keeps at most eight entries, all reachable, no two sharing an id or an address |
| `KBuckets.PutContents` | src/core/kbucket.cc:53-74 | a reachable newcomer that clashes with nobody is added; a full bucket gives up exactly one entry for it, a bad or a younger one, or stays as it is |
| `KBuckets.PutOrigin` | src/core/kbucket.cc:32-75 | every entry after a put was there before or is of the newcomer's node |
| `KBuckets.PutAllKeepsAll` | src/core/routing_table.cc:122-127 | putting unrelated reachable entries, at most eight in all, loses none |
| `KBuckets.PutAllInventsNothing` | src/core/routing_table.cc:173-178 | with distinct ids a batch of puts copies entries unchanged |
| `KBuckets.PutAllSound` | src/core/routing_table.cc:173-178 | a batch of puts keeps a bucket sound |
| `KBuckets.RemoveIdSound` | src/core/kbucket.cc:90-98 | removing a node removes its entry and nothing else |
| `KBuckets.TimeoutEffect` | src/core/kbucket.cc:166-181 | a timeout evicts exactly when there are now more than five failures and the node was last seen over fifteen minutes ago; otherwise only the failure count changes, and no other entry is touched |
| `KBuckets.OnSendSound` | src/core/kbucket.cc:183-190 | noting a sent request keeps the bucket sound and its nodes the same |
| `KBuckets.MergeJoins` | src/core/kbucket_entry.cc:47-62 | merging two records of a node keeps the earlier creation, the later contacts and reachability of either, never raises the failures, and is idempotent |
| `Effects.FailuresInARow` | src/core/kbucket_entry.h:125-158 | after an answer and n timeouts there are n failures; the entry is bad exactly with six of them and fifteen minutes of silence |
| `Effects.Judgements` | src/core/kbucket_entry.h:80-158 | when an entry needs replacement, is removable, and is eligible for node lists, with the limits written out |
| `Effects.ElapsedForward` | src/core/kbucket_entry.h:110-113 | elapsed time is the difference, wrapped at 2^64 if the clock runs behind |
| `Effects.PutKnown` | src/core/kbucket.cc:37-42 | in a bucket: a node that is there is merged in place and nothing else changes |
| `Effects.PutRefused` | src/core/kbucket.cc:43-53 | in a bucket: a node that clashes with another, or was never reached, changes nothing |
| `KBuckets.KBucket.constructor` | src/core/kbucket.h:59-61 | a new bucket is empty |
| `KBuckets.KBucket.Find` | src/core/kbucket.h:94-98 | position of the first entry with an id |
| `KBuckets.KBucket.Get` | src/core/kbucket.h:94-98 | an entry with that id, or none exactly when there is none |
| `KBuckets.KBucket.NeedsReplacement` | src/core/kbucket.h:120-124 | true exactly when some entry needs replacement |
| `KBuckets.KBucket.AddOrdered` | src/core/kbucket.cc:128-146 | the insertion keeps the list as it was only when it was full and the newcomer is not older than the last entry |
| `KBuckets.KBucket.Update` | src/core/kbucket.cc:111-152 | the new list is the old one without the removed entry and with the inserted one in place, or unchanged on a clash |
| `KBuckets.KBucket.ReplaceBadEntry` | src/core/kbucket.cc:77-88 | the first bad entry makes room; reports exactly whether there was one |
| `KBuckets.KBucket.PutEntry` | src/core/kbucket.cc:32-75 | the loop and its three ways of making room compute `Put` |
| `KBuckets.KBucket.ReplaceYoungest` | src/core/kbucket.cc:64-73 | the last entry makes room for an older newcomer |
| `KBuckets.KBucket.RemoveIfBad` | src/core/kbucket.cc:90-98 | removes the entry if forced or bad, and nothing else |
| `KBuckets.KBucket.Timeout` | src/core/kbucket.cc:166-181 | counts the failure and evicts the entry if it has become bad |
| `KBuckets.KBucket.Send` | src/core/kbucket.cc:183-190 | notes the time of the request at the entry with that id |
| `Tables.Locate` | src/core/routing_table.cc:36-55 | in a tiled table every id has a bucket that covers it |
| `Tables.CoverUnique` | src/core/routing_table.cc:36-55 | no id is covered by two buckets |
| `Tables.IndexOf` | src/core/routing_table.cc:36-55 | the position of the one bucket that covers an id |
| `Tables.GetEntryIsScan` | src/core/routing_table.h:75-81 | looking into the covering bucket agrees with scanning all buckets, and no id is stored twice |
| `Tables.SpliceTiled` | src/core/routing_table.cc:96-111 | replacing a run of buckets by others over the same interval keeps the tiling |
| `Tables.SplitKeeps` | src/core/routing_table.cc:113-133 | a split keeps the tiling and the bucket invariant and moves every entry to exactly one child |
| `Tables.SplitMovesDown` | src/core/routing_table.cc:61-64 | after a split the newcomer belongs to the high child, one bit deeper: the split loop terminates |
| `Tables.PutKeeps` | src/core/routing_table.cc:57-67 | a put with all its splits keeps the invariant; every stored node was stored before or is the newcomer |
| `Tables.PutLoss` | src/core/routing_table.cc:57-67 | a put with all its splits loses at most one entry: one merged with the newcomer, a bad one or a younger one |
| `Tables.PutStores` | src/core/routing_table.cc:57-94 | a reachable newcomer that clashes with nobody is stored, unless its bucket is full without bad entries and is at the last bit or does not have the newcomer in its high half; then no entry changes |
| `Effects.PutSplitsIff` | src/core/routing_table.cc:61-64 | a put splits exactly if the newcomer's bucket is not at the last bit, is full, holds neither the newcomer nor a bad entry, and the newcomer is reachable and has a one as its next bit; otherwise no prefix changes |
| `Effects.PutMerges` | src/core/kbucket.cc:37-42 | putting a stored node exchanges its entry for the merged one, splits nothing and touches no other entry |
| `Tables.RemoveKeeps` | src/core/routing_table.cc:69-74 | a removal keeps the invariant and drops exactly the entry with that id |
| `Tables.TimeoutKeeps` | src/core/routing_table.cc:76-78 | a timeout keeps the invariant, touches no other node, and evicts exactly under the five-failures-and-fifteen-minutes rule |
| `Tables.SendKeeps` | src/core/routing_table.cc:80-82 | noting a request keeps the invariant and the set of nodes |
| `Effects.SendNotes` | src/core/kbucket.cc:183-190 | a request to a stored node exchanges its entry for one with that time, and nothing else |
| `Effects.TimeoutCounts` | src/core/kbucket.cc:166-181 | a timeout exchanges the entry for one with one failure more or, at the sixth after fifteen minutes of silence, drops it; nothing else changes |
| `Effects.UnknownChangesNothing` | src/core/routing_table.cc:69-82 | removals, timeouts and requests for a node that is not stored leave the table as it is |
| `Merging.MergeKeeps` | src/core/routing_table.cc:151-185 | a merge of siblings keeps the invariant and never invents an entry |
| `Merging.MergeLosesNothingIff` | src/core/routing_table.cc:151-185 | a merge loses nothing exactly when the raw sizes sum to at most eight and no address occurs in both buckets |
| `Merging.EffectiveSizeCounts` | src/core/routing_table.cc:154-162 | all entries count exactly when none is removable without replacement |
| `Merging.MergeOfEffective` | src/core/routing_table.cc:154-185 | where no entry is removable, bad ones included, what the size test lets through loses nothing exactly if no address occurs in both buckets |
| `MergeLoss.MergedIsOldest` | src/core/routing_table.cc:168-178 | without bad entries and shared addresses a merge keeps exactly the eight oldest of all entries, oldest first |
| `MergeLoss.LosesEffectiveIff` | src/core/routing_table.cc:166-185 | then no effective entry is lost exactly if all entries beyond the eight oldest are removable |
| `MergeLoss.MergeConserves` | src/core/routing_table.cc:168-178 | every merge splits the entries of the two buckets into those kept and those displaced, none twice |
| `MergeLoss.LosesEffectiveIffDisplaced` | src/core/routing_table.cc:166-185 | for every pair of siblings, bad entries and shared addresses included: an effective entry is lost exactly if one is displaced, that is refused for a clash, the first bad one, or the youngest when the bucket is full |
| `MergeLoss.MergedSize` | src/core/routing_table.cc:168-178 | bad entries or not, without shared addresses only as many entries are lost as do not fit |
| `MergeLoss.SizeTestNecessary` | src/core/routing_table.cc:163-167 | for every pair of siblings: a merge that loses no effective entry passes the size test |
| `MergeLoss.StaleCrowdOutEffective` | src/core/routing_table.cc:163-185 | a pair with distinct addresses and no bad entry that passes the size test and loses all eight effective entries to older stale ones |
| `Merging.MergeLoop` | src/core/routing_table.cc:135-188 | the loop terminates although its counter steps back, keeps the invariant, invents nothing, and ends with no mergeable neighbours left |
| `Merging.MergingKeepsClean` | src/core/routing_table.cc:135-188 | from a table without removable entries and shared addresses, all the merging loses nothing |
| `Merging.ScrubKeeps` | src/core/routing_table.cc:209-224 | the removal loop keeps the invariant and removes exactly our own entry and, from full buckets, those of bootstrap nodes |
| `Merging.MaintainKeeps` | src/core/routing_table.cc:204-224 | maintenance keeps the invariant and invents no entry |
| `Merging.MaintainEffect` | src/core/routing_table.cc:204-224 | maintenance is merging until nothing is mergeable followed by the exact removals |
| `Merging.ApplyKeeps` | src/core/routing_table.cc:57-224 | every step of the table keeps the invariant |
| `Merging.InitialOk` | src/core/routing_table.h:51-54 | the one-bucket table satisfies the invariant |
| `Merging.Run` | src/core/routing_table.cc:57-224 | every table reached by any list of steps satisfies the invariant |
| `Merging.EveryRunTilesTheKeyspace` | src/core/routing_table.cc:36-188 | in every run: intervals start at zero, follow each other without gap or overlap, end at all ones; each id has exactly one bucket; each entry lies in the bucket of its id; getEntry finds exactly the stored entry |
| `Merging.EveryRunKeepsBucketsSound` | src/core/kbucket.cc:32-181 | in every run every bucket holds at most eight entries, all reachable, with distinct ids and addresses |
| `RoutingTables.Search` | src/core/routing_table.cc:37-54 | the loop ends at an exact match or between two neighbouring low ends |
| `RoutingTables.IndexOf` | src/core/routing_table.cc:36-55 | the binary search returns the one bucket that covers the id |
| `RoutingTables.SortBuckets` | src/core/routing_table.cc:106-109 | the sort by prefix |
| `RoutingTables.RemoveSegment` | src/core/utils/list.h:39-47 | removing neighbouring elements one by one leaves the rest in order |
| `RoutingTables.RoutingTable.constructor` | src/core/routing_table.h:51-54 | a new table is one empty bucket over everything |
| `RoutingTables.RoutingTable.GetEntry` | src/core/routing_table.h:79-81 | an entry is found exactly when one with that id is stored anywhere |
| `RoutingTables.RoutingTable.Modify` | src/core/routing_table.cc:96-111 | removing, appending and sorting give the expected list |
| `RoutingTables.RoutingTable.NeedsSplit` | src/core/routing_table.cc:84-94 | decides whether the bucket has to be split for the newcomer |
| `RoutingTables.RoutingTable.Distribute` | src/core/routing_table.cc:116-127 | each child receives the entries under its prefix, in order |
| `RoutingTables.RoutingTable.Replace` | src/core/routing_table.cc:129-132 | replacing neighbouring buckets by new ones over the same interval yields the spliced table, still valid |
| `RoutingTables.RoutingTable.Split` | src/core/routing_table.cc:113-133 | replaces the bucket by its two children and keeps the table valid |
| `RoutingTables.RoutingTable.SplitOnce` | src/core/routing_table.cc:61-64 | one round of the loop leaves the result of the whole put unchanged and goes one bit deeper |
| `RoutingTables.RoutingTable.SplitFor` | src/core/routing_table.cc:59-64 | the loop ends with a bucket that needs no split |
| `RoutingTables.RoutingTable.Put` | src/core/routing_table.cc:57-67 | the whole put refines the table function and keeps the table valid |
| `RoutingTables.RoutingTable.Remove` | src/core/routing_table.cc:69-74 | drops the entry and keeps the table valid |
| `RoutingTables.RoutingTable.OnTimeout` | src/core/routing_table.cc:76-78 | refines the timeout step |
| `RoutingTables.RoutingTable.OnSend` | src/core/routing_table.cc:80-82 | refines the send step |
| `RoutingTables.RoutingTable.EffectiveSize` | src/core/routing_table.cc:154-162 | counts the entries that are not removable without replacement |
| `RoutingTables.RoutingTable.IsMergeable` | src/core/routing_table.cc:151-167 | decides whether two neighbours are siblings and fit together |
| `RoutingTables.RoutingTable.MergePair` | src/core/routing_table.cc:168-182 | replaces the two siblings by one bucket for their parent |
| `RoutingTables.RoutingTable.MergeIfPossible` | src/core/routing_table.cc:148-186 | one round leaves the result of the whole loop unchanged |
| `RoutingTables.RoutingTable.MergeBuckets` | src/core/routing_table.cc:135-188 | the loop terminates and refines the merge of the whole table |
| `RoutingTables.RoutingTable.ScrubEntry` | src/core/routing_table.cc:212-223 | keeps or drops one entry; the branch for entries in the wrong bucket is never taken |
| `RoutingTables.RoutingTable.ScrubBucket` | src/core/routing_table.cc:210-224 | keeps exactly the wanted entries of a bucket, in order |
| `RoutingTables.RoutingTable.Maintenance` | src/core/routing_table.cc:204-224 | merging followed by removals refines the maintenance step |
| `Dht.ReceivedKeeps` | src/core/dht.cc:290-365 | a received message keeps every stored address on file under the entry's own id |
| `Dht.StepKeeps` | src/core/dht.cc:290-365 | so do timeouts, removals, requests and maintenance |
| `Dht.Run` | src/core/dht.cc:290-365 | the address book is right in every state of every run from an empty table |
| `Dht.NoAddressTwice` | src/core/dht.cc:312-364 | in every run no address and no id occurs twice anywhere in the table |
| `Dht.SendToUnknown` | src/core/dht.cc:355-362 | the ping to an unknown sender marks no entry |
| `Dht.OnlyAnswersAdd` | src/core/dht.cc:349-364 | a message that answers no call of ours never brings a new node into the table |
| `Dht.AnswerStores` | src/core/dht.cc:343-364 | an answer from an unknown node, whose address has no entry under a former id, stores it, unless its bucket is full of good nodes and cannot be split for it |
| `Dht.ReceivedEffect` | src/core/dht.cc:290-365 | every message: a bogus one, an answer from a node not asked, or one with a stolen id changes nothing; one from an address that another stored node used last drops exactly that node; any other puts its sender, as reachable exactly if it answers a call |
| `Dht.DHT.IsIgnored` | src/core/dht.cc:299-317 | decides which messages must not touch the table |
| `Dht.DHT.Evict` | src/core/dht.cc:321-341 | throws out the entry under the former id and files the new one |
| `Dht.DHT.Receive` | src/core/dht.cc:290-365 | the method refines the step function on table and address book |
| `Nearness.WidenStops` | src/core/kclosest_nodes.cc:77-113 | widening only grows the range and stops only with enough entries or with all buckets used |
| `Widening.EdgesAreBuckets` | src/core/kclosest_nodes.cc:97-99 | comparing the two edges that face the range is comparing the distances of the two buckets |
| `Widening.NearerNeighbour` | src/core/kclosest_nodes.cc:97-110 | of the two neighbours the one is taken whose entries are all nearer than the other's |
| `Widening.RunIsWidened` | src/core/kclosest_nodes.cc:72-113 | the run is reached from the target's bucket by adding the nearer neighbour, one at a time, exactly as long as entries are missing |
| `Nearness.PrefixIsClosest` | include/carrier/prefix.h:44-46 | ids under a prefix of the target are strictly closer to it than all others |
| `Nearness.HomeIsClosest` | src/core/kclosest_nodes.cc:71-75 | entries of the target's bucket are strictly closer than all entries elsewhere |
| `Nearness.NearerCanBeMissed` | src/core/kclosest_nodes.cc:79-110 | a table with distinct addresses and a target for which the eight entries collected are all farther than eight others just as eligible |
| `Nearness.EligibleOnce` | src/core/kclosest_nodes.cc:46-51 | a run of buckets yields no entry twice |
| `Nearness.ShaveNearest` | src/core/kclosest_nodes.cc:53-69 | cutting the sorted list drops nothing closer than something kept |
| `Nearness.HomeKept` | src/core/kclosest_nodes.cc:71-127 | with room for eight, every eligible entry of the target's bucket survives the cut |
| `Nearness.BlocksOrdered` | src/core/kclosest_nodes.cc:95-110 | ids under two prefixes, neither of which extends the other, are ordered by distance as the prefixes are |
| `Nearness.BucketsOrdered` | src/core/kclosest_nodes.cc:95-110 | entries of two buckets are ordered by distance as the buckets are |
| `Nearness.NearestOverallIff` | src/core/kclosest_nodes.cc:71-127 | what was kept is nearest in the whole table exactly if every bucket outside the run with an eligible entry is farther than the bucket of each kept entry |
| `Nearness.ExactIff` | src/core/kclosest_nodes.cc:71-127 | told beforehand: exactly if for each such bucket the run has maxEntries eligible entries that are nearer |
| `Nearness.FillFacts` | src/core/kclosest_nodes.cc:71-127 | collecting the run and cutting it gives what the contract of fill says |
| `Nearness.RunStops` | src/core/kclosest_nodes.cc:72-113 | the collected run contains the target's bucket and has enough entries or is the whole table |
| `KClosest.KClosestNodes.InsertEntries` | src/core/kclosest_nodes.cc:46-51 | appends the eligible entries of a bucket in order |
| `KClosest.KClosestNodes.Direction` | src/core/kclosest_nodes.cc:83-110 | chooses the side whose edge is closer to the target; the edges are never equally far |
| `KClosest.KClosestNodes.Collect` | src/core/kclosest_nodes.cc:71-113 | collects exactly the eligible entries of the run |
| `KClosest.KClosestNodes.Shave` | src/core/kclosest_nodes.cc:53-69 | at most maxEntries remain, and they are the nearest |
| `KClosest.KClosestNodes.Fill` | src/core/kclosest_nodes.cc:71-127 | the result is the nearest part of a contiguous run around the target's bucket; it is smaller than maxEntries only if it holds all eligible entries of the table; with maxEntries >= 8 it holds all eligible entries of the target's bucket; it is the nearest part of the whole table exactly if the run has maxEntries entries nearer than each bucket outside that has something to offer |
| `Numerals.Capacity` | src/core/crypto/base58.cc:61-62 | from a^q <= b^p: m digits of base a fit into k digits of base b whenever q*k >= p*m |
| `Base58.EncodeFits` | src/core/crypto/base58.cc:105-106 | n bytes fit into n*138/100+1 base58 digits |
| `Base58.DecodeFits` | src/core/crypto/base58.cc:61-62 | n base58 digits fit into n*733/1000+1 bytes |
| `Base58.CarryOn` | src/core/crypto/base58.cc:113-117 | one step of the carry loop keeps digits written plus carry times weight equal to the total |
| `Base58.CarryDone` | src/core/crypto/base58.cc:119-120 | a total that fits the buffer leaves no carry: the assertion holds |
| `Base58.Propagate` | src/core/crypto/base58.cc:110-117 | the in-place loop carries until nothing is left or the buffer ends |
| `Base58.MulAdd` | src/core/crypto/base58.cc:110-121 | the buffer becomes old value times the base plus the digit, its digits are the shortest possible, and the carry is zero |
| `Base58.Convert` | src/core/crypto/base58.cc:65-79 | the outer loop converts a digit string into the other base without loss |
| `Base58.AlphabetBijection` | src/core/crypto/base58.cc:10-29 | digits and characters correspond one to one |
| `Base58.SymbolIsAlphabet` | src/core/crypto/base58.cc:10-11 | the digits are the characters of the alphabet in its order |
| `Base58.DecodeEncode` | src/core/crypto/base58.cc:48-134 | decoding the encoding of any byte string gives it back, leading zeros included |
| `Base58.EncodeDecode` | src/core/crypto/base58.cc:48-134 | encoding the decoding of any string of Base58 characters gives it back |
| `Base58.EncodeKeepsValue` | src/core/crypto/base58.cc:96-134 | an encoding denotes in base 58 the number of the bytes, with a one for each leading zero |
| `Base58.DecodeKeepsValue` | src/core/crypto/base58.cc:48-94 | what Base58 characters decode to is the same number, with a zero for each leading one |
| `Base58.DecodeTrims` | src/core/crypto/base58.cc:50-52 | spaces before and behind Base58 text do not change what it decodes to |
| `Base58.MalformedIsEmpty` | src/core/crypto/base58.cc:65-84 | whatever is not spaces, Base58 characters and spaces decodes to nothing |
| `Base58.DecodeOfDigits` | src/core/crypto/base58.cc:48-94 | text of Base58 characters only is decoded without trimming |
| `Base58.SuffixIsDigits` | src/core/crypto/base58.cc:85-93 | what decoding copies out of the buffer has no leading zero |
| `Base58.ToDigits` | src/core/crypto/base58.cc:104-127 | the digits of the number, without leading zeros |
| `Base58.ToText` | src/core/crypto/base58.cc:128-133 | the characters of the digits |
| `Base58.Encode` | src/core/crypto/base58.cc:96-134 | the method computes the encoding that the round trips are about |
| `Base58.ToBytes` | src/core/crypto/base58.cc:60-93 | the bytes of the number, without leading zeros |
| `Base58.ReadDigits` | src/core/crypto/base58.cc:66-70 | digits of the characters, or failure on the first invalid one |
| `Base58.Decode` | src/core/crypto/base58.cc:48-94 | the method computes the decoding that the round trips are about; malformed text gives the empty string |
| `Relay.ReadConserves` | src/addons/activeproxy/connection.cc:590-642 | one read neither loses nor reorders a byte: delivered plus kept is what was there plus what came |
| `Relay.FeedConserves` | src/addons/activeproxy/connection.cc:590-642 | over every run of reads, delivered bytes plus sticky buffer are all bytes of the chunks read; that is all of them unless a read never ends |
| `Relay.ParseResumes` | src/addons/activeproxy/connection.cc:626-641 | parsing may stop anywhere and resume with what was left |
| `Relay.ReadIsParse` | src/addons/activeproxy/connection.cc:598-624 | completing a packet in the sticky buffer gives what parsing the joined bytes gives |
| `Relay.FeedIsParse` | src/addons/activeproxy/connection.cc:590-642 | for streams with length fields of at least 3, every cutting into chunks delivers what a one-shot parse delivers, and terminates |
| `Relay.ShortFieldBreaks` | src/addons/activeproxy/connection.cc:611-620 | for every other stream some cutting delivers something else |
| `Relay.ChunkIndependenceIff` | src/addons/activeproxy/connection.cc:590-642 | delivery is independent of the cutting exactly for streams with length fields of at least 3 |
| `Relay.FrameIntactIff` | src/addons/activeproxy/connection.cc:310-331 | a frame comes back as itself exactly when its size fits 16 bits |
| `Relay.FramePayload` | src/addons/activeproxy/connection.cc:320-331 | size, type, payload and padding stand at fixed places of the frame, the size big-endian and cut to 16 bits |
| `Relay.FramesParse` | src/addons/activeproxy/connection.cc:303-331 | frames sent one after another form a well-formed stream that parses into exactly them |
| `Relay.FramesArrive` | src/addons/activeproxy/connection.cc:303-331 | packets that fit 16 bits are delivered one by one, in order and with their type and payload, however the stream is cut |
| `Relay.ProxyConnection.ReadPackets` | src/addons/activeproxy/connection.cc:626-641 | the loop delivers and keeps what the one-shot parse does |
| `Relay.ProxyConnection.CompletePacket` | src/addons/activeproxy/connection.cc:598-624 | delivers the completed packet or keeps everything |
| `Relay.ProxyConnection.OnRelayRead` | src/addons/activeproxy/connection.cc:590-642 | the method refines the read function |
| `Candidates.OrderIsLexicographic` | src/core/task/closest_candidates.cc:91-97 | the numeric key orders by requests first and distance second |
| `Candidates.SortStrict` | src/core/task/closest_candidates.cc:112-118 | sorting and merging candidates with distinct ids gives a list strictly sorted by distance |
| `Candidates.AdmitFacts` | src/core/task/closest_candidates.cc:103-110 | newcomers have new, distinct ids, no requests yet, and come from the batch |
| `Candidates.AdmitIds` | src/core/task/closest_candidates.cc:103-110 | the seen ids are exactly the old ones and those of the batch |
| `Candidates.AdmitIps` | src/core/task/closest_candidates.cc:103-110 | newcomers have new and different addresses, and the first node under a new id is admitted unless its address is taken |
| `Candidates.TrimKeepsInFlight` | src/core/task/closest_candidates.cc:120-139 | trimming keeps the order and never drops a candidate in flight |
| `Candidates.TrimKeepsBest` | src/core/task/closest_candidates.cc:129-138 | every idle candidate kept is at least as good, by requests and distance, as every one dropped |
| `Candidates.TrimSize` | src/core/task/closest_candidates.cc:120-139 | exactly the candidates in flight and the smaller of capacity and number of idle ones are left |
| `Candidates.NextIsBest` | src/core/task/closest_candidates.cc:57-73 | next() finds an eligible candidate exactly if there is one, and none is better |
| `Candidates.HeadIsNearest` | src/core/task/closest_candidates.cc:75-81 | in a sorted list the head is the nearest |
| `Candidates.ClosestCandidates.Compare` | src/core/task/closest_candidates.cc:91-97 | the comparison agrees with the numeric key |
| `Candidates.ClosestCandidates.AdmitNodes` | src/core/task/closest_candidates.cc:103-110 | the deduplication loop |
| `Candidates.ClosestCandidates.TrimList` | src/core/task/closest_candidates.cc:120-139 | the trimming loop |
| `Candidates.ClosestCandidates.Add` | src/core/task/closest_candidates.cc:99-140 | deduplication, sorting, merging and trimming refine the function on values |
| `Candidates.ClosestCandidates.Remove` | src/core/task/closest_candidates.cc:44-55 | removes the candidate with that id and reports whether there was one |
| `Candidates.ClosestCandidates.GetNext` | src/core/task/closest_candidates.cc:57-73 | the best eligible candidate |
| `Lookups.NeverStuck` | src/core/task/node_lookup.cc:51-55 | with candidates left and no call in flight there is always an eligible one |
| `Lookups.RequestsBounded` | src/core/task/node_lookup.cc:51-69 | all requests together are at most three times the ids seen |
| `Lookups.SendKeeps` | src/core/task/task.cc:150-204 | sending keeps the invariant: calls in flight and waiting candidates correspond one to one |
| `Lookups.RemoveKeeps` | src/core/task/lookup_task.cc:64-66 | an error or an answer that removes the candidate keeps the invariant |
| `LookupEffects.ErrorGivesUp` | src/core/task/lookup_task.cc:64-66 | an error removes exactly the node that was asked |
| `LookupEffects.AnswerTeaches` | src/core/task/node_lookup.cc:71-84 | an answer ends the call, its sender leaves the list, and every id it names has been seen |
| `Lookups.TimeoutKeeps` | src/core/task/lookup_task.cc:68-77 | a timeout removes the candidate after the third request and otherwise makes it eligible again; the invariant stays |
| `LookupEffects.TimeoutGivesUpIff` | src/core/task/lookup_task.cc:68-77 | a timeout gives the node up exactly after its third request; before that it is eligible again |
| `Lookups.AddKeeps` | src/core/task/lookup_task.cc:40-55 | admitting nodes keeps the invariant, among it the bound of capacity plus ten on the list |
| `LookupEffects.AdmittedRemain` | src/core/task/closest_candidates.cc:99-140 | after an admission nobody is dropped while there are at most 24, nobody in flight ever, and of the idle only those no better than all idle ones kept |
| `Lookups.UpdateKeeps` | src/core/task/node_lookup.cc:51-69 | the update loop keeps the invariant and leaves no call in flight only if no candidate is left |
| `LookupEffects.UpdateSaturates` | src/core/task/node_lookup.cc:52-55 | an update leaves ten calls under way or nobody to ask |
| `LookupEffects.UpdateAsksBest` | src/core/task/node_lookup.cc:53-64 | whoever is asked comes, by requests and distance, before everyone left out |
| `Lookups.PassKeeps` | src/core/task/task.cc:128-137 | a pass leaves the lookup finished or with a call in flight |
| `LookupEffects.PassFinishesIff` | src/core/task/task.cc:128-137 | a pass finishes the lookup exactly if no call is under way and no candidate is left or the closest set is good enough; otherwise a call is under way, and if there was none before, somebody has been asked |
| `LookupEffects.FinishedIff` | src/core/task/lookup_task.cc:57-62 | in every run: finished exactly if at some step the lookup was cancelled, or had no call under way and no candidate or a good enough result |
| `LookupEffects.FinishesExhausted` | src/core/task/lookup_task.cc:57-62 | neither cancelled nor ever good enough, a lookup finishes only with no call under way and no candidate left |
| `LookupEffects.FirstPassAsks` | src/core/task/node_lookup.cc:34-55 | if a node is admitted and the result is not good enough from the start, the first pass asks somebody |
| `Lookups.HandleKeeps` | src/core/task/task.cc:164-195 | every call event keeps the invariant |
| `Lookups.Run` | src/core/task/node_lookup.cc:34-84 | every state of every run satisfies the invariant and is finished or has a call in flight |
| `Lookups.EveryLookup` | src/core/task/node_lookup.cc:34-84 | in every run each id is admitted at most once and gets at most three requests, the list is sorted and at most 24+10 long, at most ten calls are in flight, and an unfinished lookup is waiting for an answer |
| `Lookups.EndingsBalance` | src/core/task/task.cc:164-198 | in every run, calls ended plus calls under way are all requests sent |
| `Lookups.LookupEnds` | src/core/task/node_lookup.cc:34-84 | an unfinished lookup has seen fewer than three endings per id: one that meets finitely many ids finishes |
| `NodeLookups.NodeLookup.AddCandidates` | src/core/task/lookup_task.cc:40-55 | filters the nodes, then refines the admission step |
| `NodeLookups.NodeLookup.Send` | src/core/task/task.cc:150-204 | refines the sending step; a call that the server then refuses to send stays in flight, as in the source |
| `NodeLookups.NodeLookup.Update` | src/core/task/node_lookup.cc:51-69 | the loop terminates and refines the update step |
| `NodeLookups.NodeLookup.CallResponsed` | src/core/task/node_lookup.cc:71-84 | refines the reply step; the nodes of an answer that does not match are ignored |
| `NodeLookups.NodeLookup.CallError` | src/core/task/lookup_task.cc:64-66 | refines the error step |
| `NodeLookups.NodeLookup.CallTimeout` | src/core/task/lookup_task.cc:68-77 | refines the timeout step |
| `NodeLookups.NodeLookup.UpdatePass` | src/core/task/task.cc:128-137 | refines one pass |
| `Tasks.ApplyTold` | src/core/task/task.cc:47-107 | terminal states are absorbing, and listeners are told exactly at the end |
| `Tasks.EachListenerOnce` | src/core/task/task.cc:57-107 | in every run each listener is called exactly once per registration if the task has ended and not at all before |
| `Tasks.FirstEndDecides` | src/core/task/task.cc:82-101 | a task is cancelled exactly if a cancellation comes before any finish, and finished exactly the other way round |
| `Tasks.RunsOnceStarted` | src/core/task/task.cc:71-80 | a task that has not ended runs exactly if it was started |
| `Tasks.PassesTold` | src/core/task/task.cc:128-142 | however many passes: listeners are told at the end only, and an ended task calls update() no more |
| `Tasks.PassEndsIff` | src/core/task/task.cc:128-137 | a pass finishes a task that has not ended exactly if isDone says so before update(), or after an update() that it called |
| `Tasks.Task.SetState` | src/core/task/task.cc:47-56 | changes the state exactly if the old one is expected |
| `Tasks.Task.NotifyCompletionListeners` | src/core/task/task.cc:103-107 | calls every listener once, in order |
| `Tasks.Task.AddListener` | src/core/task/task.cc:58-65 | a listener added after the end is called at once |
| `Tasks.Task.Start` | src/core/task/task.cc:71-80 | refines the start step |
| `Tasks.Task.Cancel` | src/core/task/task.cc:82-92 | refines the cancel step |
| `Tasks.Task.Finish` | src/core/task/task.cc:94-101 | refines the finish step |
| `Tasks.Task.OnePass` | src/core/task/task.cc:128-137 | finishes, updates and finishes as isDone and canDoRequest say; requests arriving meanwhile only raise the counter |
| `Tasks.Task.SerializedUpdate` | src/core/task/task.cc:120-142 | another pass follows exactly when requests arrived during the last one; the counter is zero at the end; the task is as these passes leave it |
| `Rpc.SendKeeps` | src/core/rpcserver.cc:431-463 | sending keeps the pending table exact; a transaction id in use sends nothing |
| `Rpc.SendEffect` | src/core/rpcserver.cc:431-442 | a send adds exactly one call under the next transaction id, zero skipped, unless that is in use |
| `Rpc.ReplyKeeps` | src/core/rpcserver.cc:540-582 | a reply ends the call, a reply from the wrong address stalls it; both keep the table exact |
| `Rpc.FireKeeps` | src/core/rpccall.cc:114-130 | a timer firing stalls the call or ends it with TIMEOUT and keeps the table exact |
| `Rpc.StepKeeps` | src/core/rpcserver.cc:431-582 | every event keeps the invariant and changes no ended call |
| `Rpc.EventEffect` | src/core/rpccall.cc:56-130 | what every event makes of every call, field by field |
| `Rpc.RunFrozen` | src/core/rpccall.cc:56-130 | over every run an ended call never changes again |
| `Rpc.EveryCallEndsOnce` | src/core/rpccall.cc:56-130 | in every run: pending exactly while SENT or STALLED; at most one end, once; TIMEOUT no earlier than 10 s after sending; not pending after the second timer firing |
| `Rpc.WhatEndsACall` | src/core/rpcserver.cc:540-582 | at every step of every run: RESPONDED or ERR exactly for a reply with the call's transaction id from the address it was sent to, ERR exactly for an error, stalled by a reply from elsewhere, TIMEOUT exactly when its timer fires ten seconds or more after sending |
| `Rpc.RPCServer.Responsed` | src/core/rpccall.cc:90-112 | disarms the timer and ends the call with RESPONDED or ERR |
| `Rpc.RPCServer.CheckTimeout` | src/core/rpccall.cc:114-130 | stalls a pending call and re-arms its timer for what remains of ten seconds, or ends it |
| `Rpc.RPCServer.SendRequest` | src/core/rpcserver.cc:431-463 | refines the send step, skipping transaction id zero |
| `Rpc.RPCServer.HandlePacket` | src/core/rpcserver.cc:540-582 | refines the reply step |
| `Rpc.RPCServer.TimerCallback` | src/core/rpccall.cc:114-130 | refines the timer step, including the removal by the timeout handler |
| `Schedulers.EmplaceOrdered` | src/core/scheduler.h:74-79 | insertion keeps the queue ordered by deadline |
| `Schedulers.EmplaceIs` | src/core/scheduler.h:74-79 | a timer goes behind all that are not later and before all that are |
| `Schedulers.EmplaceLater` | src/core/scheduler.h:74-79 | a timer after now goes behind all that are due |
| `Schedulers.AddOk` | src/core/scheduler.h:68-79 | adding a job keeps the queue ordered and no job queued twice |
| `Schedulers.ActAllKeeps` | src/core/scheduler.h:103-105 | callbacks that add positive delays leave the due timers alone and cancel exactly what they name |
| `Schedulers.EditKeeps` | src/core/scheduler.h:81-90 | re-adding a periodic job leaves the due timers alone |
| `Schedulers.TurnKeeps` | src/core/scheduler.h:93-112 | a turn removes the first due timer and touches no other |
| `Schedulers.TurnQueues` | src/core/scheduler.h:93-112 | after a turn exactly the other timers, those its callback added and, for a periodic job that did not cancel itself, one more its period after the clock are queued |
| `Schedulers.TraceLive` | src/core/scheduler.h:92-114 | a due job is live at its turn unless it was dead or some earlier callback cancelled it |
| `Schedulers.RunFiresTheDue` | src/core/scheduler.h:92-114 | run() gives every due timer exactly one turn in deadline order with ties in insertion order, fires exactly the live ones, and leaves only later deadlines |
| `Schedulers.RunQueues` | src/core/scheduler.h:92-114 | so at every turn of a run |
| `Schedulers.Scheduler.Add` | src/core/scheduler.h:74-79 | refines the insertion |
| `Schedulers.Scheduler.EmplaceTimer` | src/core/scheduler.h:74-79 | the search for the first later deadline inserts behind all that are not later |
| `Schedulers.Scheduler.EditJob` | src/core/scheduler.h:81-90 | refines the re-adding of a periodic job under a new handle |
| `Schedulers.Scheduler.Run` | src/core/scheduler.h:92-114 | the loop terminates after as many turns as timers were due and goes through the stated sequence of queues |
| `Tokens.StampSurvives` | src/core/token_manager.cc:49-59 | up to five minutes after a call its timestamp is the current or the previous one |
| `Tokens.TokenLivesFiveMinutes` | src/core/token_manager.cc:49-100 | a token verifies at every call up to five minutes after it was issued |
| `Tokens.StampsMoveOn` | src/core/token_manager.cc:49-59 | after one rotation the old timestamp is the previous one, after two it is gone and both are newer |
| `Tokens.InputDetermines` | src/core/token_manager.cc:61-73 | what is hashed determines node, address, port, target, secret and timestamp |
| `Tokens.TokenIsPersonal` | src/core/token_manager.cc:61-97 | a token issued for one node, address and target is accepted for another exactly on a hash collision |
| `Tokens.TokenIsWindow` | src/core/token_manager.cc:75-81 | the token is four consecutive bytes of the digest, wrapping around, from where its first byte says |
| `Tokens.TokenExpires` | src/core/token_manager.cc:84-97 | after two later rotations a token is accepted exactly on a hash collision |
| `Tokens.TwoGapsExpire` | src/core/token_manager.cc:49-97 | after two calls each more than five minutes after the one before, a token is good for a hash collision only |
| `Tokens.PreviousWrittenIff` | src/core/token_manager.cc:49-97 | previousTimestamp has been written before it is read exactly when the clock is past five minutes |
| `Tokens.TokenManager.UpdateTokenTimestamps` | src/core/token_manager.cc:49-59 | the compare-and-exchange loop rotates at most once, whatever spurious failures occur |
| `Tokens.TokenManager.GenerateToken` | src/core/token_manager.cc:84-87 | rotates, then issues the token of the current timestamp |
| `Tokens.TokenManager.VerifyToken` | src/core/token_manager.cc:89-97 | rotates, then accepts exactly the tokens of the current timestamp and of whatever the previous one holds |
| `ValueStore.PutOverMutable` | src/core/sqlite_storage.cc:265-339 | over a visible mutable record a put goes through exactly when it is valid, mutable, keeps the private key, does not lower the sequence number and, if one is expected, equals it; otherwise nothing changes |
| `ValueStore.PutAnswer` | src/core/sqlite_storage.cc:265-339 | every put on every store: when it is refused, with which error, and that it is stored and answered with what was visible otherwise |
| `ValueStore.PutVisible` | src/core/sqlite_storage.cc:75-84 | a put that is not refused is found for exactly two hours, touches no other id, and keeps the persistent flag and announce time of a row it replaces |
| `ValueStore.StepSucceeds` | src/core/sqlite_storage.cc:265-339 | no single operation lowers the sequence number of a visible mutable record or takes its key |
| `ValueStore.SequenceNeverDecreases` | src/core/sqlite_storage.cc:265-339 | nor does any run in which the record stays young |
| `ValueStore.CompareAndSet` | src/core/sqlite_storage.cc:273-282 | at every point of every run a put with expectedSeq >= 0 over a visible mutable record goes through only on equality |
| `ValueStore.CompareAndSetOnce` | src/core/sqlite_storage.cc:273-282 | of two puts that expect the same number of a record that stays young, the first of which raises it, only the first can go through |
| `ValueStore.SameAnswer` | src/core/sqlite_storage.cc:207-339 | stores that show the same young records answer alike and stay alike |
| `ValueStore.ExpireIsInvisible` | src/core/sqlite_storage.cc:126-143 | expiring changes no present or later answer |
| `ValueStore.ExpireExactly` | src/core/sqlite_storage.cc:126-143 | expiry removes exactly the rows that are neither persistent nor younger than two hours |
| `ValueStore.LookupFindsLatest` | src/core/sqlite_storage.cc:207-339 | after every run a lookup finds the last value accepted for the id and not removed since, for two hours, and nothing after that |
| `ValueStore.SqliteStorage.GetValue` | src/core/sqlite_storage.cc:207-263 | the row if it is young |
| `ValueStore.SqliteStorage.PutValue` | src/core/sqlite_storage.cc:265-339 | refines the put, with each refusal in its order |
| `ValueStore.SqliteStorage.RemoveValue` | src/core/sqlite_storage.cc:445-462 | removes the row and reports whether there was one |
| `ValueStore.SqliteStorage.ExpireRows` | src/core/sqlite_storage.cc:126-143 | removes exactly the old rows that are not persistent |

## Left out

- Object identity of bucket entries: an entry is a value at a list position, so an entry object shared with a ping task, or changed through another pointer, is not captured.
- One clock reading per operation: the source may read the clock several times within one operation.
- Counters are unbounded: the failure and request counters and the sizes in Base58 never overflow an int here.
- Bucket fields homeBucket, version and lastRefresh, the interval guard of maintenance, and all ping maintenance: they never decide where an entry is stored.
- The two ping back-off formulas: one uses min and the other max, and nothing modelled depends on them.
- Creation-time order inside a bucket: it is not an invariant of the code, since merging two entries may lower the creation time in place.
- Loading and saving the routing table cache: file and CBOR handling. With a loaded cache the address book may lack stored addresses, so `Dht.NoAddressTwice` starts from an empty table.
- KClosest.KClosestNodes.Fill: without the bootstrap and self padding of src/core/kclosest_nodes.cc:115-125, which depends on configuration and may duplicate nodes.
- ClosestSet: ordered by raw id rather than by distance; the lookup model takes its answers as inputs.
- What the bogon, self and closest-set filters of added candidates decide: the model takes any filter.
- ValueLookup and PeerLookup: they return before removing the candidate on a mismatched reply, so progress is stated for node lookups only.
- A lookup's call that cannot be sent because its transaction id is in use stays in flight for ever, in the source and here; `Lookups.LookupEnds` counts calls that do end.
- Nested tasks, removeListener, and listeners that register listeners while being notified.
- Tasks.Task.SerializedUpdate: one thread, and what each pass meets is given as a list, so only finitely many requests arrive.
- Rpc.FireKeeps: the elapsed time is not truncated to 32 bits, and the CANCELED state of a call is not modelled.
- Schedulers.Scheduler.Add: deadlines do not wrap around at 2^64.
- Cancelling a periodic job through its first handle: the source re-adds the job as a new object after each firing, so this has no effect there or here.
- Tokens.TokenManager.UpdateTokenTimestamps: one thread; the compare-and-exchange fails only spuriously, not because another thread rotated first.
- SHA-256 and signatures: uninterpreted.
- ValueStore: the blob columns are one opaque payload; updateValueLastAnnounce, the peers table and the SQL engine are not modelled.
- Base58.Encode: does not model that the source empties its argument while encoding.
- Relay: what is done with a delivered packet, the connection states, and the upstream side.
- Message serialisers, configuration, shell, launcher, crawler, loading cache, sockets, threads and logging: foreign code or field copying.
- MergeLoss.LosesEffectiveIff: the closed form is for buckets without bad entries and shared addresses; otherwise who goes depends on the order of arrival, and `MergeLoss.LosesEffectiveIffDisplaced` states the condition step by step.
