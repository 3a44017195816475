# Kademlia routing core in Dafny

A Dafny model of the routing core of a small Kademlia simulator. The model covers three copies of that core.

- **Documented C# core** (`Kademlia/`):
  - an `Identifier` is a `BigInteger` and the distance between two is their XOR;
  - a `RoutingTable` holds M k-buckets, and bucket i stores the contacts at distance 2^i..2^(i+1)-1;
  - `GetKClosestTo` starts at the target's bucket and zig-zags outwards until it has K nodes;
  - `Node.FindNode` answers one hop;
  - `Node.Lookup` runs the iterative lookup: alpha peers per round, results merged and cut to K, stopping at the first round that brings nothing closer;
  - the `IdentifierGenerator` draws uniform identifiers by masked rejection sampling over bytes.
- **Older C# core** (`csharp/Kademlia/`):
  - its `Bucket.Insert` (least-recently-seen replacement, as written);
  - bucket search by powers of two, which throws `ArgumentException` past the last bucket;
  - a lookup whose traveled list accumulates every answer;
  - an empty local table makes the lookup throw.
- **TypeScript core** (`src/`, `typescript/src/identifier.model.ts`, `array-helper.helper.ts`):
  - buckets, table and node updated in place;
  - distances use JavaScript's 32-bit `^`;
  - the `ConfigurableArray` helper offers limit, distinct, remove and sort.

Modules, one per file:

| module | file | what it holds |
|---|---|---|
| `Constants` | `constants.dfy` | K, M and alpha, fixed but arbitrary |
| `Wrappers` | `wrappers.dfy` | `Option`, `Result`, `Outcome` and the error kinds the source throws |
| `Identifiers` | `identifier.dfy` | XOR on naturals and its algebra; floor(log2); C# `Equals`/`GetHashCode`; JavaScript int32 `^` |
| `ListOps` | `list_ops.dfy` | the LINQ and array operations the lookups use: `Take`, `Distinct`, `Where`, `FirstOrDefault`, a stable `OrderBy`, and the flattening of `AddRange` |
| `LookupSteps` | `lookup_steps.dfy` | the value steps of a lookup round: first frontier, merge of results, next frontier |
| `Expansion` | `expansion.dfy` | the zig-zag gathering of `GetKClosestTo`, as a function that mirrors the loop |
| `Buckets` | `bucket.dfy` | the older C# `Bucket` as written (`CsInsert`, class `Bucket`) and the intended least-recently-seen rule (`Touch`) |
| `KademliaCore` | `kademlia_core.dfy` | documented `RoutingTable` and `Node` as classes |
| `LegacyCore` | `legacy_core.dfy` | older `RoutingTable` and `Node` as classes |
| `IdentifierGeneration` | `identifier_generator.dfy` | the generator singleton as a class over a byte tape |
| `TsKademlia` | `ts_core.dfy` | TypeScript `Bucket`, `RoutingTable` and `Node` classes |
| `TsArrayHelper` | `ts_array_helper.dfy` | `NodeArrayHelper` and `ConfigurableArray` |

**Lookups.** A lookup touches many nodes' routing tables. It is therefore stated over a ghost set `net` of nodes whose tables are valid and store only nodes of `net`. A ghost log records every `FindNode` a lookup makes: which peer was asked and with which traveled list. The lookup contracts speak about that log:
- no peer is queried twice;
- the owner is never queried (documented tree);
- the traveled list each query receives.

Each tree also has a reference definition of its main loop, as functions over the network's tables: `Advance` is one round (queries, answers, stop rule, merge, next frontier) and `MainLoop` repeats it until a round finds no closer node. The lookup methods are proved to end in exactly the state `MainLoop` reaches, with the final round's queries (`FinalQueries`) after it.
- Documented tree: a peer answers from its table as the lookup found it. Only a `FindNode` to a peer changes that peer's table, and each peer is queried at most once. The owner's own table does change after every round, but the owner is never queried.
- Older tree: the owner can be queried, and every `FindNode` inserts the traveled list into the peer's table. So the reference definition carries every table along and replays each query over it (`Replay`, `Replies`), and each round inserts what it brought back into the owner's table.

In the documented tree, `GetClosestBucketIndex` takes the logarithm of the distance, and `(int)` of the logarithm of 0 is out of range for the bucket list. So a lookup throws `IndexOutOfRange` when its own FindNode throws (target is the owner's id, or 2^M or more away), and also when it queries a peer whose id is the target. That happens as soon as such a peer turns up in a frontier, or among the result nodes of the final round.

**Randomness.** The random source is a finite tape of bytes owned by the generator. A rejection loop that runs out of tape ends with `RandomExhausted`. The tape bounds every loop, which the source's unbounded loops are not.

**Ping.** `Node.Ping` always answers true, in all three trees. Bucket inserts take the head's answer as a parameter `headAlive`; the tables pass `true`, as the source's ping does.

## Model

| member | source | states |
|---|---|---|
| Identifiers.XorSymmetric | Kademlia/Core/Identifier.cs:39-42 | the XOR distance is symmetric |
| Identifiers.XorZeroIff | Kademlia/Core/Identifier.cs:39-42 | a ^ b is 0 exactly when a == b |
| Identifiers.XorBounded | Kademlia/Core/Identifier.cs:39-42 | two identifiers below 2^m are less than 2^m apart, so M buckets cover every distance |
| Identifiers.XorAbove | Kademlia/Core/Identifier.cs:39-42 | an id below 2^m and one at or above 2^m are at least 2^m apart |
| Identifiers.XorCancel | csharp/Kademlia/Core/Identifier.cs:14-17 | (a ^ t) ^ t == a: XOR with a fixed target is its own inverse |
| Identifiers.XorInjective | csharp/Kademlia/Core/Identifier.cs:14-17 | distinct ids have distinct distances to any target |
| Identifiers.FloorLog2 | Kademlia/Core/RoutingTable.cs:120-124 | the bucket index i of a positive distance d satisfies 2^i <= d < 2^(i+1) |
| Identifiers.FloorLog2Unique | Kademlia/Core/RoutingTable.cs:120-124 | that index is the only one with this property |
| Identifiers.FloorLog2Below | Kademlia/Core/RoutingTable.cs:120-124 | a distance below 2^m has an index below m |
| Identifiers.DistanceSymmetric | Kademlia/Core/Identifier.cs:39-42 | GetDistanceTo is symmetric |
| Identifiers.DistanceZeroIffEqual | Kademlia/Core/Identifier.cs:39-42 | the distance is 0 exactly between equal identifiers |
| Identifiers.DistanceBounded | Kademlia/Core/Identifier.cs:39-42 | identifiers below 2^m are less than 2^m apart |
| Identifiers.DistanceAbove | Kademlia/Core/Identifier.cs:39-42 | an identifier at or above 2^m is at least 2^m from one below |
| Identifiers.DistanceInjective | Kademlia/Core/Identifier.cs:39-42 | two different identifiers are never at the same distance from a target |
| Identifiers.EqualsIsValueEquality | Kademlia/Core/Identifier.cs:61-67 | Equals(object) holds exactly for an Identifier with the same value |
| Identifiers.EqualsBoxedIntegerIsFalse | Kademlia/Core/Identifier.cs:61-67 | Equals(object) on a boxed integer is always false |
| Identifiers.EqualsLongAgrees | Kademlia/Core/Identifier.cs:50-53 | Equals(long) agrees with value equality for non-negative longs |
| Identifiers.EqualsImpliesEqualHash | Kademlia/Core/Identifier.cs:74-77 | equal identifiers have equal hash codes |
| Identifiers.JsXorAgreesBelow31 | typescript/src/identifier.model.ts:7-9 | below 2^31 the int32 `^` is the XOR distance |
| Identifiers.JsXorNegativeAt31 | typescript/src/identifier.model.ts:7-9 | at 2^31 the int32 `^` turns negative |
| Identifiers.JsXorWraps | typescript/src/identifier.model.ts:7-9 | the int32 `^` ignores bits from 2^32 up |
| Identifiers.JsXorSymmetric | typescript/src/identifier.model.ts:7-9 | the int32 distance is symmetric |
| Identifiers.JsXorSelf | typescript/src/identifier.model.ts:10-12 | an id is at int32 distance 0 from itself |
| Identifiers.JsXorRange | typescript/src/identifier.model.ts:7-9 | the int32 distance lies in [-2^31, 2^31) |
| ListOps.Take | Kademlia/Core/Node.cs:127-130 | LINQ Take: a prefix of length min(n, count) |
| ListOps.DistinctFrom | Kademlia/Core/Node.cs:197-199 | LINQ Distinct: no duplicates; keeps exactly the elements of the input not seen before |
| ListOps.DistinctFromKeepsFirstOrder | Kademlia/Core/Node.cs:197-199 | Distinct keeps elements in the order of their first occurrence |
| ListOps.DistinctFromNoDup | Kademlia/Core/Node.cs:197-199 | Distinct of a duplicate-free list is that list |
| ListOps.DistinctIdempotent | Kademlia/Core/Node.cs:197-199 | Distinct applied twice equals Distinct applied once |
| ListOps.Filter | Kademlia/Core/Node.cs:205-208 | LINQ Where: keeps exactly the elements that satisfy the predicate, as a sub-multiset |
| ListOps.FirstWhere | Kademlia/Core/Node.cs:189 | FirstOrDefault: none exactly when no element satisfies the predicate; otherwise a satisfying element |
| ListOps.FirstWhereIsFirst | Kademlia/Core/Node.cs:189 | FirstOrDefault returns the first satisfying element |
| ListOps.SortBy | Kademlia/Core/Node.cs:200 | OrderBy: sorted by the key and a permutation of the input |
| ListOps.InsertBySorted | Kademlia/Core/Node.cs:200 | inserting into a sorted list keeps it sorted, the step of OrderBy |
| ListOps.InFlatten | Kademlia/Core/RoutingTable.cs:75-96 | an element of the concatenated buckets lies in one of them |
| LookupSteps.NearestAlphaProperties | Kademlia/Core/Node.cs:127-130 | the first frontier: at most alpha of the returned nodes, sorted by distance, none left out nearer than one kept, empty only when nothing came back |
| LookupSteps.NearestCut | Kademlia/Core/Node.cs:200-201 | OrderBy then Take(n): sorted, at most n, drawn from the input, none left out nearer than one kept; everything when the input has at most n |
| LookupSteps.MergeProperties | Kademlia/Core/Node.cs:197-202 | the merged result is sorted, duplicate-free, at most K long, drawn from the old result and the round's nodes, and non-empty when the old result was |
| LookupSteps.MergeKeepsNearest | Kademlia/Core/Node.cs:197-202 | no node of the old result or the round is dropped while a farther one is kept |
| LookupSteps.NextFrontier | Kademlia/Core/Node.cs:205-208 | the next frontier: at most alpha unqueried nodes of the result |
| Expansion.ExpandStep | Kademlia/Core/RoutingTable.cs:83-106 | one pass of the zig-zag loop: which bucket it adds and how the window grows |
| Expansion.TurnsRound | Kademlia/Core/RoutingTable.cs:99 | a pass that cannot go its way only turns the direction |
| Expansion.ExpandWindow | Kademlia/Core/RoutingTable.cs:83-106 | the loop ends holding exactly a contiguous window of buckets, balanced around the start, with at least K nodes or all buckets |
| Expansion.CollectWindow | Kademlia/Core/RoutingTable.cs:67-109 | GetKClosestTo gathers the target bucket first, then a balanced contiguous window, until K nodes or every bucket |
| Expansion.CollectFromBuckets | Kademlia/Core/RoutingTable.cs:67-109 | every gathered node comes from some bucket |
| Expansion.CollectAllWhenFew | Kademlia/Core/RoutingTable.cs:67-109 | with fewer than K nodes in the table, every node is gathered |
| Expansion.CollectNoDup | Kademlia/Core/RoutingTable.cs:67-109 | disjoint buckets give a duplicate-free result |
| Expansion.CollectEmpty | Kademlia/Core/RoutingTable.cs:67-109 | an empty table gives an empty result |
| Expansion.FlattenNoDup | Kademlia/Core/RoutingTable.cs:76-96 | concatenating disjoint duplicate-free buckets repeats nothing |
| Buckets.RemoveFirst | csharp/Kademlia/Core/Bucket.cs:65 | List.Remove drops one occurrence of the node when present, and nothing otherwise |
| Buckets.RemoveFirstIsFilter | csharp/Kademlia/Core/Bucket.cs:65 | in a duplicate-free bucket, Remove drops every copy of the node |
| Buckets.TouchKeepsBucket | csharp/Kademlia/Core/Bucket.cs:60-90 | the intended update keeps a bucket duplicate-free and within k, and leaves the node at the tail when it was known or there was room |
| Buckets.TouchKnown | csharp/Kademlia/Core/Bucket.cs:62-68 | a known node moves to the tail |
| Buckets.TouchFull | csharp/Kademlia/Core/Bucket.cs:77-89 | intended: a full bucket with a live head rotates it to the tail and drops the newcomer; a dead head is evicted for the newcomer |
| Buckets.Bucket.constructor | csharp/Kademlia/Core/Bucket.cs:46-50 | a new bucket of capacity k is empty |
| Buckets.Bucket.IsFull | csharp/Kademlia/Core/Bucket.cs:29-35 | full exactly when the count equals k |
| Buckets.Bucket.Insert | csharp/Kademlia/Core/Bucket.cs:60-90 | Insert as written; it throws only when k is 0 and the bucket is empty |
| Buckets.CsInsertAgreesBelowCapacity | csharp/Kademlia/Core/Bucket.cs:60-75 | for a known node, or a bucket with room, Insert as written is the intended update |
| Buckets.CsInsertLiveHeadDuplicates | csharp/Kademlia/Core/Bucket.cs:78-84 | as written, a full bucket with a live head appends the head again: k+1 entries, head twice |
| Buckets.CsInsertDeadHeadKeepsHead | csharp/Kademlia/Core/Bucket.cs:85-89 | as written, a dead head is never removed and the bucket grows past k |
| Buckets.CsInsertPastCapacityGrows | csharp/Kademlia/Core/Bucket.cs:70-75 | once past k, IsFull is false and every new node is appended |
| Buckets.CsInsertCounterexample | csharp/Kademlia/Core/Bucket.cs:77-89 | with k = 1: [a] becomes [a, a] (live head) or [a, b] (dead head); the intended update gives [a] and [b] |
| KademliaCore.ClosestBucketIndex | Kademlia/Core/RoutingTable.cs:120-124 | no index for distance 0; otherwise the i with 2^i <= d < 2^(i+1) |
| KademliaCore.ClosestBucketIndexInRange | Kademlia/Core/RoutingTable.cs:120-124 | the index is below m exactly when the distance is below 2^m |
| KademliaCore.WellFormedDisjoint | Kademlia/Core/RoutingTable.cs:52-60 | in a well-formed table no node sits in two buckets |
| KademliaCore.WellFormedExcludesOwner | Kademlia/Core/RoutingTable.cs:54-55 | the owner is never stored in its own table |
| KademliaCore.Inserted | Kademlia/Core/RoutingTable.cs:52-60 | Insert ignores the owner's id, throws only an index error, and changes no bucket but the target's |
| KademliaCore.InsertedFails | Kademlia/Core/RoutingTable.cs:52-60 | Insert throws exactly for a distance of 2^(bucket count) or more |
| KademliaCore.InsertedKeepsWellFormed | Kademlia/Core/RoutingTable.cs:52-60 | Insert keeps every node in its distance bucket, adds only the target, and stores it unless its bucket was full |
| KademliaCore.InsertedAllKeepsWellFormed | Kademlia/Core/Node.cs:60-64 | a batch update keeps the table well-formed and adds only nodes of the batch |
| KademliaCore.InsertedAllCompletes | Kademlia/Core/Node.cs:60-64 | with M buckets and ids below 2^M, a batch update never throws |
| KademliaCore.KClosestProperties | Kademlia/Core/RoutingTable.cs:67-109 | GetKClosestTo throws exactly for the owner's id or a distance past the table; otherwise it returns stored, duplicate-free nodes other than the owner, starting with the target's bucket |
| KademliaCore.KClosestOfEmpty | Kademlia/Core/RoutingTable.cs:67-109 | an empty table answers with an empty list |
| KademliaCore.RoutingTable.constructor | Kademlia/Core/RoutingTable.cs:34-42 | a new table has M empty buckets |
| KademliaCore.RoutingTable.Insert | Kademlia/Core/RoutingTable.cs:52-60 | Insert updates the buckets as `Inserted` says, or throws and leaves them |
| KademliaCore.RoutingTable.GetKClosestTo | Kademlia/Core/RoutingTable.cs:67-109 | the zig-zag loop returns `KClosest`; in a valid table, duplicate-free stored nodes other than the owner |
| KademliaCore.Node.constructor | Kademlia/Core/Node.cs:46-50 | a node with the given id and an empty table |
| KademliaCore.Node.Ping | Kademlia/Core/Node.cs:232-235 | ping always answers true |
| KademliaCore.Node.UpdateRoutingTable | Kademlia/Core/Node.cs:70-76 | a single update is the table insert; the table stays valid |
| KademliaCore.Node.UpdateRoutingTableAll | Kademlia/Core/Node.cs:60-64 | the batch update is `InsertedAll` and stores only old nodes or nodes of the batch |
| KademliaCore.Node.FindNode | Kademlia/Core/Node.cs:93-112 | the k-closest of the old table, the traveled list plus this node; the table then learns the traveled nodes |
| KademliaCore.Node.FindNodeInNetwork | Kademlia/Core/Node.cs:93-112 | in a valid network FindNode throws IndexOutOfRange exactly for the own id or an out-of-range distance; otherwise it answers with the k-closest of its old table, nodes of the network; the network stays valid |
| KademliaCore.Node.UpdateRoutingTableAllInNetwork | Kademlia/Core/Node.cs:60-64 | a batch of network nodes never throws, keeps the network valid, and leaves every other node's table as it was |
| KademliaCore.Node.QueryPeer | Kademlia/Core/Node.cs:167-182 | querying an unqueried peer logs it once; it throws exactly when the peer's id is the target or out of range, otherwise answers with the k-closest of the peer's old table; no other table changes |
| KademliaCore.Node.QueryRound | Kademlia/Core/Node.cs:163-183 | a completed round sends exactly RoundQueries: one FindNode to each frontier node whose id is not yet queried, in frontier order, all with the same traveled list; afterwards every frontier id is queried; the nodes it returns are the concatenation of the answers, each the peer's reply from its table as the lookup found it (`Replies`); a round that throws has sent a prefix of those queries, every one answered but the last, whose peer is where FindNode throws |
| KademliaCore.Node.QueryMember | Kademlia/Core/Node.cs:169-182 | a frontier node is queried exactly when its id is not yet queried, its id is then marked queried, and its reply (`Replies`) is appended to the round's answers; a throw happens only at that query, where FindNode throws for its peer |
| KademliaCore.Node.QueryFresh | Kademlia/Core/Node.cs:170-182 | a frontier node not yet queried is logged, marked queried, and answers its reply from its table as the lookup found it; it throws exactly where FindNode throws for that peer |
| KademliaCore.RoundQueriesAsked | Kademlia/Core/Node.cs:169-182 | a round's queries go to exactly the frontier ids not queried before it, each once, each with the same traveled list |
| KademliaCore.Node.FinalRound | Kademlia/Core/Node.cs:218-223 | a final round that finishes sends exactly FinalQueries: one FindNode to each result node whose id was not queried, in result order, never to the owner, all with the same traveled list, every one answered; one that throws has sent a prefix of those queries, and only the last of them threw |
| KademliaCore.Node.FinalMember | Kademlia/Core/Node.cs:219-222 | the j-th result node is asked exactly when its id was not queried, and the log stays a prefix of the final round's queries; a throw happens only at that query, where FindNode throws for its peer |
| KademliaCore.FinalQueriesAsked | Kademlia/Core/Node.cs:219-222 | the final round's queries go to exactly the result ids not queried, each once, each with the same traveled list |
| KademliaCore.Node.Lookup | Kademlia/Core/Node.cs:119-226 | fails with IndexOutOfRange exactly when the target is the owner's id, is 2^M or more away, or is the id of a queried peer; on success the result and the log are those of MainLoop from the nearest alpha nodes of the owner's table, followed by FinalQueries, and the main loop ended on the stop rule; the result is sorted, duplicate-free, at most K (or alpha) network nodes, each queried or the owner; an empty table gives an empty result with no query; no peer is queried twice and the owner never |
| KademliaCore.Node.LookupRounds | Kademlia/Core/Node.cs:139-225 | from a non-empty first frontier: on success the result and the log are MainLoop's over the tables as the lookup found them, followed by FinalQueries; the main loop ended on the stop rule; every result node was queried or is the owner; a failure is IndexOutOfRange, thrown at the last logged query |
| KademliaCore.Node.Explore | Kademlia/Core/Node.cs:160-216 | the do-while loop ends in exactly the state MainLoop computes from the tables as the lookup found them, or throws at a query whose peer is where FindNode throws |
| KademliaCore.Node.MainRound | Kademlia/Core/Node.cs:161-214 | one iteration of the loop takes the state to Advance of it, or throws at its last query |
| KademliaCore.Node.Conclude | Kademlia/Core/Node.cs:218-225 | after the loop stopped: the final round sends FinalQueries, every one answered, and every result node is then the owner or was queried; or it throws at its last query |
| KademliaCore.Replies | Kademlia/Core/Node.cs:167-182 | one answer per query, each the peer's reply from the given tables |
| KademliaCore.RepliesAfter | Kademlia/Core/Node.cs:167-183 | the answers to the queries that continue a log continue its answers |
| KademliaCore.ThrowsAtTargetOnly | Kademlia/Core/RoutingTable.cs:120-124 | once the owner's own FindNode answered, a peer's FindNode throws exactly when the peer's id is the target (Log of distance 0): a run of queries that all answered never names the target, and a run that threw names it at its last query |
| KademliaCore.Advance | Kademlia/Core/Node.cs:161-214 | one round: a round that goes on has a strictly closer closest node; a round that stops leaves the result and the closest node as they were, and no node it brought back is strictly closer |
| KademliaCore.MainLoop | Kademlia/Core/Node.cs:160-216 | the do-while loop ends, because every round that goes on moves strictly closer to the target, and it ends in a stopped state |
| KademliaCore.AdvanceLogged | Kademlia/Core/Node.cs:150-182 | a round keeps the queried ids equal to the owner's plus the logged peers', each peer logged once, never the owner, all handed the same traveled list |
| KademliaCore.MainLoopLogged | Kademlia/Core/Node.cs:150-216 | the whole main loop keeps that invariant |
| KademliaCore.AdvanceNearest | Kademlia/Core/Node.cs:189-202 | a round keeps the result non-empty and sorted, with its head at least as close as the closest node |
| KademliaCore.MainLoopStops | Kademlia/Core/Node.cs:188-216 | the main loop ends with a sorted result on the stop rule: no node the last round brought back is strictly closer than the result's head |
| KademliaCore.LookupQueriesResult | Kademlia/Core/Node.cs:218-223 | after the final round every result node was queried, or is the owner |
| LegacyCore.ClosestBucket | csharp/Kademlia/Core/RoutingTable.cs:118-132 | distance 0 selects bucket 0; otherwise the bucket with 2^i <= d < 2^(i+1); past the last bucket, ArgumentException |
| LegacyCore.Inserted | csharp/Kademlia/Core/RoutingTable.cs:53-60 | Insert ignores the owner's id, throws exactly past the last bucket, and changes only the target's bucket |
| LegacyCore.InsertedKeepsPlaced | csharp/Kademlia/Core/RoutingTable.cs:53-60 | Insert keeps every node in its distance bucket and adds only the target |
| LegacyCore.InsertedAllKeepsPlaced | csharp/Kademlia/Core/Node.cs:27-31 | a batch update keeps the placement and throws only ArgumentException |
| LegacyCore.InsertedAllCompletes | csharp/Kademlia/Core/Node.cs:27-31 | with M buckets and ids below 2^M a batch update never throws |
| LegacyCore.KClosestProperties | csharp/Kademlia/Core/RoutingTable.cs:67-107 | GetKClosestTo throws exactly for a distance past the table (or no buckets); otherwise stored nodes other than the owner, the target's bucket first, all nodes when fewer than K, empty exactly for an empty table |
| LegacyCore.TraveledLength | csharp/Kademlia/Core/Node.cs:99-106 | after n queries the traveled list holds 2^n - 1 entries |
| LegacyCore.TraveledRepeats | csharp/Kademlia/Core/Node.cs:99-106 | from the second query on, the traveled list repeats a node |
| LegacyCore.LogExtend | csharp/Kademlia/Core/Node.cs:96-113 | querying a new peer keeps the log invariant with the doubled traveled list |
| LegacyCore.RoutingTable.constructor | csharp/Kademlia/Core/RoutingTable.cs:35-43 | a new table has M empty buckets |
| LegacyCore.RoutingTable.GetClosestBucket | csharp/Kademlia/Core/RoutingTable.cs:118-132 | the search over powers of two returns `ClosestBucket` |
| LegacyCore.RoutingTable.Insert | csharp/Kademlia/Core/RoutingTable.cs:53-60 | Insert updates the buckets as `Inserted` says, or throws and leaves them |
| LegacyCore.RoutingTable.GetKClosestTo | csharp/Kademlia/Core/RoutingTable.cs:67-107 | the zig-zag loop returns `KClosest`; stored nodes other than the owner |
| LegacyCore.Node.constructor | csharp/Kademlia/Core/Node.cs:21-25 | a node with the given id and an empty table |
| LegacyCore.Node.Ping | csharp/Kademlia/Core/Node.cs:168-171 | ping always answers true |
| LegacyCore.Node.UpdateRoutingTable | csharp/Kademlia/Core/Node.cs:33-36 | a single update is the table insert |
| LegacyCore.Node.UpdateRoutingTableAll | csharp/Kademlia/Core/Node.cs:27-31 | the batch update is `InsertedAll` |
| LegacyCore.Node.FindNode | csharp/Kademlia/Core/Node.cs:38-51 | the k-closest of the old table, the traveled list plus this node; the table learns the traveled nodes |
| LegacyCore.Node.FindNodeInNetwork | csharp/Kademlia/Core/Node.cs:38-51 | in a valid network FindNode throws ArgumentException exactly past 2^M and keeps the network valid; on success it answers with the k-closest of its old table, and its table, and no other, learns the traveled list |
| LegacyCore.Node.UpdateRoutingTableAllInNetwork | csharp/Kademlia/Core/Node.cs:27-31 | a batch of network nodes never throws; this node's table becomes the batch insert and no other table changes |
| LegacyCore.Node.QueryPeer | csharp/Kademlia/Core/Node.cs:96-113 | querying an unqueried peer logs it, marks it queried and appends its whole answer to the traveled list; its answer and the tables afterwards are `Replay` of the query |
| LegacyCore.Node.FlushPeer | csharp/Kademlia/Core/Node.cs:150-160 | a final-round query logs the peer once with the final traveled list |
| LegacyCore.Node.QueryRound | csharp/Kademlia/Core/Node.cs:89-113 | a completed round sends exactly RoundQueries: one FindNode to each frontier node whose id is not yet queried, in frontier order, each handed the traveled list as the previous answers left it (the list handed over, plus that list and the peer); afterwards the queried set is the old one plus every frontier id; the nodes collected are the concatenation of the answers, which with the tables afterwards are `Replies` of those queries over the tables before the round; a round that throws has sent a prefix of those queries and no peer twice |
| LegacyCore.Node.RoundMember | csharp/Kademlia/Core/Node.cs:93-113 | one frontier node carries the round from its first j nodes to its first j + 1: the log stays a prefix of the round's queries and, on success, the queried set, the traveled list and the collected nodes are those of the round so far, and the answers and the tables are `Replies` of the queries sent so far |
| LegacyCore.RoundQueriesAsked | csharp/Kademlia/Core/Node.cs:93-113 | a round's queries go to exactly the frontier ids not queried before it, each id once, each time to a node of the frontier |
| LegacyCore.Node.QueryIfUnqueried | csharp/Kademlia/Core/Node.cs:96-112 | the log grows by one FindNode to the j-th frontier node, with the current traveled list, exactly when its id is not yet queried; on success its id is marked queried, the traveled list grows by the answer's (the list handed over plus the peer), and the answers and the tables move on by `Replay` of that query; a throw leaves the queried set as it was; no peer is queried twice, and with in-range ids the call succeeds |
| LegacyCore.Node.QueryFresh | csharp/Kademlia/Core/Node.cs:96-113 | a frontier node not yet queried is logged with the current traveled list and marked queried; the traveled list grows by the answer's, and the answers and the tables move on by `Replay` of the query |
| LegacyCore.Node.FlushIfUnqueried | csharp/Kademlia/Core/Node.cs:150-159 | the log grows by one query to the j-th result node, with the lookup's traveled list, exactly when its id was not queried, and never to a peer already asked |
| LegacyCore.Node.FinalRound | csharp/Kademlia/Core/Node.cs:150-160 | a final round that finishes sends exactly FinalQueries: one FindNode to each result node whose id was not queried, in result order, all with the same traveled list; one that throws has sent a prefix of those queries |
| LegacyCore.FinalQueriesAsked | csharp/Kademlia/Core/Node.cs:150-159 | the final round's queries go to exactly the result nodes whose ids were not queried, each id once, each with the same traveled list |
| LegacyCore.Node.Converge | csharp/Kademlia/Core/Node.cs:86-147 | the main loop ends in exactly the state MainLoop computes from the network's tables as they stood, tables included, with a non-empty result sorted by distance and bounded by K or alpha |
| LegacyCore.Node.Lookup | csharp/Kademlia/Core/Node.cs:53-166 | an out-of-range target throws ArgumentException; an empty table throws InvalidOperation; otherwise the result and the log are MainLoop's from the nearest alpha nodes of the owner's table, followed by FinalQueries with the traveled list the main loop left, the main loop ended on the stop rule, and every result node was sent FindNode; the result is non-empty, sorted and bounded; no peer queried twice |
| LegacyCore.Node.LookupRounds | csharp/Kademlia/Core/Node.cs:72-160 | from a non-empty first frontier: the result and the log are MainLoop's over the tables as they stood, followed by FinalQueries; the main loop ended on the stop rule; every result node was sent FindNode; the main loop's part of the log is chained |
| LegacyCore.Node.MainRound | csharp/Kademlia/Core/Node.cs:88-145 | one iteration of the do-while loop takes the state, tables included, to Advance of it |
| LegacyCore.Node.Conclude | csharp/Kademlia/Core/Node.cs:149-160 | after the loop stopped: the final round sends FinalQueries with the traveled list the main loop left, and every result node has then been sent FindNode |
| LegacyCore.Replay | csharp/Kademlia/Core/Node.cs:38-51 | one FindNode adds one answer, keeps the earlier ones, and adds or removes no table |
| LegacyCore.Replies | csharp/Kademlia/Core/Node.cs:93-113 | a run of FindNode calls gives one answer per query and adds or removes no table |
| LegacyCore.RepliesStep | csharp/Kademlia/Core/Node.cs:93-113 | a query appended to a log appends one `Replay` step to the run of its answers |
| LegacyCore.Advance | csharp/Kademlia/Core/Node.cs:88-145 | one round: a round that goes on has a strictly closer closest node; a round that stops leaves the result and the closest node as they were, and no node it brought back is strictly closer |
| LegacyCore.MainLoop | csharp/Kademlia/Core/Node.cs:86-147 | the do-while loop ends, because every round that goes on moves strictly closer to the target, and it ends in a stopped state |
| LegacyCore.AdvanceLogged | csharp/Kademlia/Core/Node.cs:93-113 | a round keeps the queried ids equal to the logged peers' ids, each id queried once |
| LegacyCore.MainLoopLogged | csharp/Kademlia/Core/Node.cs:81-147 | the whole main loop keeps that invariant |
| LegacyCore.AdvanceNearest | csharp/Kademlia/Core/Node.cs:120-133 | a round keeps the result non-empty and sorted, with its head at least as close as the closest node |
| LegacyCore.MainLoopStops | csharp/Kademlia/Core/Node.cs:119-147 | the main loop ends with a sorted result on the stop rule: no node the last round brought back is strictly closer than the result's head |
| LegacyCore.LookupQueriesResult | csharp/Kademlia/Core/Node.cs:149-160 | after the final round every result node has been sent FindNode, in the main loop or in the final round |
| IdentifierGeneration.ToByteArray | Kademlia/Helpers/IdentifierGenerator.cs:131 | BigInteger.ToByteArray: the shortest little-endian two's-complement bytes of a non-negative value |
| IdentifierGeneration.ByteArrayRoundTrip | Kademlia/Helpers/IdentifierGenerator.cs:131 | new BigInteger(v.ToByteArray()) == v |
| IdentifierGeneration.MaskFor | Kademlia/Helpers/IdentifierGenerator.cs:133-150 | the mask keeps exactly the bits up to the top set bit of the most significant byte; 0 for a zero byte |
| IdentifierGeneration.MaskAt | Kademlia/Helpers/IdentifierGenerator.cs:141-150 | the loop's break at bit i gives 0xFF >> (7 - i) |
| IdentifierGeneration.BitTest | Kademlia/Helpers/IdentifierGenerator.cs:144 | (b & (1 << i)) != 0 holds exactly when b >= 2^i, for b below 2^(i+1) |
| IdentifierGeneration.ShiftMask | Kademlia/Helpers/IdentifierGenerator.cs:147 | 0xFF >> (7 - i) == 2^(i+1) - 1 |
| IdentifierGeneration.Masked | Kademlia/Helpers/IdentifierGenerator.cs:157 | only the top byte of the draw is masked |
| IdentifierGeneration.CandidateLimitCovers | Kademlia/Helpers/IdentifierGenerator.cs:152-162 | the masked candidates range over 0..L-1 with max < L <= 2max+1, so a draw is accepted more than half of the time |
| IdentifierGeneration.CandidateLimitIsBitLength | Kademlia/Helpers/IdentifierGenerator.cs:152-162 | that range is 2^(bit length of max) |
| IdentifierGeneration.CandidateBound | Kademlia/Helpers/IdentifierGenerator.cs:152-162 | every masked draw is non-negative and below 2^(bit length of max) |
| IdentifierGeneration.Sample | Kademlia/Helpers/IdentifierGenerator.cs:152-162 | the rejection loop yields a value at most max, consuming the tape |
| IdentifierGeneration.SampleZeroToInRange | Kademlia/Helpers/IdentifierGenerator.cs:128-165 | GetRandomInRangeFromZeroTo returns a value in 0..max |
| IdentifierGeneration.Width | Kademlia/Helpers/IdentifierGenerator.cs:107-121 | after swapping and offsetting, lower bound plus width is the upper bound |
| IdentifierGeneration.IdentifierGenerator.constructor | Kademlia/Helpers/IdentifierGenerator.cs:40-43 | no ids issued; the limit is 2^M - 1 |
| IdentifierGeneration.ZeroBitsMask | Kademlia/Helpers/IdentifierGenerator.cs:141-150 | the bit loop computes `MaskFor` |
| IdentifierGeneration.IdentifierGenerator.DrawMasked | Kademlia/Helpers/IdentifierGenerator.cs:154-157 | GetBytes then mask: the next bytes of the tape with the top byte masked |
| IdentifierGeneration.IdentifierGenerator.GetRandomInRangeFromZeroTo | Kademlia/Helpers/IdentifierGenerator.cs:128-165 | the method's draw is the sampling function's, or RandomExhausted |
| IdentifierGeneration.IdentifierGenerator.GetRandomInRange | Kademlia/Helpers/IdentifierGenerator.cs:107-121 | a value between min and max in either order, or RandomExhausted |
| IdentifierGeneration.IdentifierGenerator.GenerateIdentifier | Kademlia/Helpers/IdentifierGenerator.cs:53-66 | a new id at most 2^M - 1, never issued before, appended to the issued list |
| IdentifierGeneration.IdentifierGenerator.Issued | Kademlia/Helpers/IdentifierGenerator.cs:96 | intended check: some issued id has this value |
| IdentifierGeneration.IdentifierGenerator.GetUniqueRandomInRange | Kademlia/Helpers/IdentifierGenerator.cs:90-99 | intended: an id in range that was never issued |
| IdentifierGeneration.IdentifierGenerator.GenerateRandomInBucket | Kademlia/Helpers/IdentifierGenerator.cs:73-78 | intended: an unissued id in [2^i, 2^(i+1)); a negative index throws |
| IdentifierGeneration.IdentifierGenerator.GetUniqueRandomInRangeAsWritten | Kademlia/Helpers/IdentifierGenerator.cs:90-99 | as written: the first value drawn in range is returned, issued or not |
| IdentifierGeneration.IdentifierGenerator.GenerateRandomInBucketAsWritten | Kademlia/Helpers/IdentifierGenerator.cs:73-78 | as written: a negative index throws; otherwise the first value drawn in [2^i, 2^(i+1)) is returned, issued or not |
| IdentifierGeneration.AsWrittenReturnsIssued | Kademlia/Helpers/IdentifierGenerator.cs:90-99 | as written, an issued id drawn first is handed out again |
| IdentifierGeneration.IdentifierGenerator.GetRandomExistingId | csharp/Kademlia/Helpers/IdentifierGenerator.cs:97-100 | an issued id, or an index error when none was issued |
| IdentifierGeneration.IssuedAsWrittenNeverHolds | Kademlia/Helpers/IdentifierGenerator.cs:96 | the uniqueness test as written never finds an issued id |
| IdentifierGeneration.UniqueCheckCounterexample | Kademlia/Helpers/IdentifierGenerator.cs:96 | with id 8 issued, the test as written lets 8 (bucket 3) through, while the intended test rejects it |
| TsKademlia.FindByIdMeaning | src/bucket.model.ts:14-18 | find/findIndex give the first node with the target's id, none when there is none, and TypeError when `undefined` comes before any match |
| TsKademlia.FindByIdCases | src/bucket.model.ts:14-18 | a found node is stored; no match means no `undefined`; a TypeError means an `undefined` slot |
| TsKademlia.InsertedKeepsBucket | src/bucket.model.ts:12-40 | with a live head, insert keeps a valid bucket valid (distinct, at most k, no `undefined`); it throws exactly when k = 0 |
| TsKademlia.InsertedDeadHeadPushesUndefined | src/bucket.model.ts:30-39 | as written, a dead head is replaced by `undefined` and the newcomer is lost |
| TsKademlia.UndefinedBlocksNewcomers | src/bucket.model.ts:14 | once `undefined` is in a bucket, inserting any unknown node throws TypeError |
| TsKademlia.CorrectedInsertedKeepsBucket | src/bucket.model.ts:12-40 | intended: the newcomer replaces a dead head; the bucket stays valid and stores the newcomer unless a live head kept its place |
| TsKademlia.TsBucket.constructor | src/bucket.model.ts:8-10 | a new bucket of capacity k is empty |
| TsKademlia.TsBucket.Length | src/bucket.model.ts:42-44 | the array's length, at most k in a valid bucket |
| TsKademlia.TsBucket.IsFull | src/bucket.model.ts:46-48 | full exactly when the length equals k |
| TsKademlia.TsBucket.GetNodes | src/bucket.model.ts:50-52 | filter: exactly the elements that satisfy the predicate |
| TsKademlia.TsBucket.GetNodesKeepsAll | src/bucket.model.ts:50-52 | the default predicate returns the whole array |
| TsKademlia.TsBucket.Insert | src/bucket.model.ts:12-40 | insert updates the array as `Inserted` says, or throws and leaves it |
| TsKademlia.ClosestBucket | src/routing-table.model.ts:80-93 | a bucket exactly for 0 < d < 2^m, the one with 2^i <= d < 2^(i+1) |
| TsKademlia.BucketOfInRange | src/routing-table.model.ts:80-93 | distinct ids below 2^m, with m <= 31, always have a bucket |
| TsKademlia.TableInsertedKeepsPlaced | src/routing-table.model.ts:71-78 | insert ignores the source's id, throws exactly when there is no bucket or k = 0, and keeps every node in its distance bucket |
| TsKademlia.TableInsertedPlaced | src/routing-table.model.ts:71-78 | insert keeps the table's shape and placement |
| TsKademlia.FindNodeOutcome | src/node.model.ts:19-22 | for distinct in-range ids and k >= 1, findNode's insert and lookup both succeed |
| TsKademlia.Candidates | src/routing-table.model.ts:29-59 | the closest bucket's nodes, plus both neighbours' when it holds fewer than k |
| TsKademlia.CandidatesHeld | src/routing-table.model.ts:29-59 | in a placed table no candidate is `undefined` |
| TsKademlia.SortFarthestFirstAllHeld | src/routing-table.model.ts:61-63 | without `undefined` entries the sort is the comparator's order |
| TsKademlia.KClosestProperties | src/routing-table.model.ts:23-69 | getKClosestTo throws exactly without a bucket (the source's own id included); otherwise at most k candidates, farthest from the SOURCE first, none left out farther than one kept |
| TsKademlia.FarthestCut | src/routing-table.model.ts:61-66 | sorting farthest-first and cutting to k keeps the k farthest from the source |
| TsKademlia.CorrectedKClosestNearest | src/routing-table.model.ts:23-69 | intended: at most k candidates, nearest to the target first, none left out nearer than one kept |
| TsKademlia.KClosestCounterexample | src/routing-table.model.ts:61-63 | with k = 1 and nodes 1, 4, 5 around source 0, asking for 3 gives node 5; the intended answer is node 1 |
| TsKademlia.TsRoutingTable.constructor | src/routing-table.model.ts:14-21 | m empty buckets of capacity k |
| TsKademlia.TsRoutingTable.GetClosestBucket | src/routing-table.model.ts:80-93 | the search over powers of two returns `BucketOf` |
| TsKademlia.TsRoutingTable.Insert | src/routing-table.model.ts:71-78 | insert updates the buckets as `TableInserted` says, or throws and leaves them |
| TsKademlia.TsRoutingTable.GetKClosestTo | src/routing-table.model.ts:23-69 | getKClosestTo as written returns `KClosest` |
| TsKademlia.TsRoutingTable.GetKClosestToCorrected | src/routing-table.model.ts:23-69 | the intended getKClosestTo returns `CorrectedKClosest` |
| TsKademlia.TsRoutingTable.GatherCandidates | src/routing-table.model.ts:29-59 | the gathering step returns `Candidates` |
| TsKademlia.InsertedAllKeepsPlaced | src/node.model.ts:28-30 | updateRoutingTable keeps the placement; for in-range ids and k >= 1 it never throws |
| TsKademlia.TsNode.constructor | src/node.model.ts:10-17 | a node with the given id and an empty table of m buckets |
| TsKademlia.TsNode.FindNode | src/node.model.ts:19-22 | findNode inserts the asker, then answers with the k closest of the new table; it cannot fail for distinct ids below 2^m, with m <= 31 and k >= 1 |
| TsKademlia.TsNode.Ping | src/node.model.ts:24-26 | ping always answers true |
| TsKademlia.TsNode.UpdateRoutingTable | src/node.model.ts:28-30 | the forEach of inserts is `InsertedAll` |
| TsKademlia.TsNode.Equals | src/node.model.ts:32-34 | equal exactly when the identifiers are equal, which for ids below 2^31 is distance 0 |
| TsKademlia.TsNode.GetDistanceTo | src/node.model.ts:36-38 | an int32 value, the XOR distance for ids below 2^31 |
| TsKademlia.DistanceSymmetric | src/node.model.ts:36-38 | getDistanceTo is symmetric |
| TsArrayHelper.SliceTo | src/array-helper.helper.ts:23 | slice(0, end) is a prefix, also for a negative end |
| TsArrayHelper.LimitedPrefix | src/array-helper.helper.ts:21-25 | limit keeps a prefix of min(limit, length) nodes, drops |limit| from the end for a negative limit, and is idempotent |
| TsArrayHelper.DistinctByIdUnique | src/array-helper.helper.ts:27-40 | selectDistinct leaves no two nodes with one identifier |
| TsArrayHelper.DistinctByIdKeepsEveryId | src/array-helper.helper.ts:27-40 | every identifier of the input survives |
| TsArrayHelper.DistinctByIdKeepsFirst | src/array-helper.helper.ts:27-40 | the survivor for an identifier is its first node |
| TsArrayHelper.DistinctByIdSubsequence | src/array-helper.helper.ts:27-40 | the result keeps the input's order |
| TsArrayHelper.DistinctByIdOfUnique | src/array-helper.helper.ts:27-40 | an array with unique identifiers is left as it is |
| TsArrayHelper.SelectDistinctIdempotent | src/array-helper.helper.ts:27-40 | selectDistinct twice equals once |
| TsArrayHelper.IndexOfId | src/array-helper.helper.ts:44 | findIndex: the first node with the id, or -1 when there is none |
| TsArrayHelper.RemoveFirstIsSplice | src/array-helper.helper.ts:44-46 | splice(index, 1) removes exactly the node at findIndex; -1 changes nothing |
| TsArrayHelper.RemoveFirstSubsequence | src/array-helper.helper.ts:44-46 | removal keeps the order of the rest |
| TsArrayHelper.RemoveFirstKeepsOthers | src/array-helper.helper.ts:44-46 | only a node with that id loses a copy |
| TsArrayHelper.RemovedAllProperties | src/array-helper.helper.ts:42-49 | removeAnyInside keeps order, drops at most one node per id, and keeps every node whose id was not listed |
| TsArrayHelper.SortedByDistanceDescProperties | src/array-helper.helper.ts:51-55 | intended sort: a permutation, distance to the target non-increasing |
| TsArrayHelper.SortAsWrittenThrows | array-helper.helper.ts:42-46 | the sort as written throws TypeError exactly for two or more nodes, and otherwise equals the intended sort |
| TsArrayHelper.ConfigurableArray.constructor | src/array-helper.helper.ts:17-19 | wraps the given array |
| TsArrayHelper.ConfigurableArray.Limit | src/array-helper.helper.ts:21-25 | the array becomes `Limited` and the same object is returned |
| TsArrayHelper.ConfigurableArray.SelectDistinct | src/array-helper.helper.ts:27-40 | the map-and-filter loop yields `DistinctById` |
| TsArrayHelper.ConfigurableArray.RemoveAnyInside | src/array-helper.helper.ts:42-49 | the loop of findIndex and splice yields `RemovedAll` |
| TsArrayHelper.ConfigurableArray.SortByXorDistanceTo | src/array-helper.helper.ts:51-55 | as written: throws TypeError exactly for two or more nodes, the array otherwise unchanged |
| TsArrayHelper.ConfigurableArray.SortByXorDistanceToCorrected | src/array-helper.helper.ts:51-55 | intended: the array sorted farthest from the target first |
| TsArrayHelper.ConfigurableArray.Get | src/array-helper.helper.ts:57-59 | returns the current array |
| TsArrayHelper.From | src/array-helper.helper.ts:5-7 | a fresh wrapper around the source array |
| TsArrayHelper.FromMerge | src/array-helper.helper.ts:9-11 | a fresh wrapper around the two arrays concatenated |

## Left out

- Coordinator, EntryPoint and the Python analysis scripts: they drive simulations and plot results, and sit outside the routing core.
- Kademlia/Core/Bucket.cs is not part of this model. The documented table updates its buckets by the intended least-recently-seen rule `Buckets.Touch`, with the head alive as `Node.Ping` answers.
- The cryptographic random source: it is a byte tape given to the generator's constructor. `RandomExhausted` is the model's own way of ending a rejection loop the source would repeat forever.
- `new Random().Next` in GetRandomExistingId: the index it picks is a parameter.
- Floating-point logarithms in the documented GetClosestBucketIndex: the model uses the exact floor(log2). For distances near a power of two the double-precision quotient can round to the neighbouring index; that is not modelled.
- Integer width of `GetClosestBucketIndex`'s `(int)` cast and of C# `long`/`int` in general: ids are unbounded naturals, and `Equals(long)` takes a 64-bit value.
- Bytes of `ToByteArray`/`GetBytes` are integers 0..255; `&` and `>>` are defined on them arithmetically.
- The TypeScript sort on a throw: the array is modelled as left unchanged. V8 may have partly reordered it before the comparator threw.
- The TypeScript compile-time error in sortByXorDistanceTo: an `Identifier` is passed where `Node` is expected. The model follows the emitted JavaScript, where `target.identifier` is undefined.
- Aliasing: `NodeArrayHelper.from` wraps the caller's array, but the model copies it as a sequence. Later in-place changes to the caller's array are not seen.
- `findIndex(b => b === closestBucket)` in getKClosestTo: the buckets are distinct objects, so the index is the one getClosestBucket chose. The model uses that index directly.
- ListOps.SortBy: LINQ's OrderBy is stable. The model's insertion sort keeps equal keys in order too, but stability is not stated.
- KademliaCore.Node.Lookup: `|r| <= K || |r| <= Alpha` is stated instead of `|r| <= K`. When no round brings a closer node, the result is the first frontier, which is cut to alpha, not K.
- LegacyCore.Node.Lookup: the "Lookup cannot return empty list!" exception is unreachable, because the result always holds the first frontier. It has no branch in the model.
- IdentifierGeneration.IdentifierGenerator.GetUniqueRandomInRangeAsWritten: the redraw loop is written as its first pass, because as written its check never fires and the loop always ends there.
- KademliaCore.Node.Lookup and KademliaCore.Node.LookupRounds: on a throw, the log and the tables are stated only up to the query that threw. Where that query falls is not tied to `MainLoop`.
- LegacyCore.Replay and LegacyCore.Replies: a peer's `FindNode` whose insert of the traveled list throws answers with a failure in the source. `Replay` records its closest nodes instead. This never happens in a valid network, because ids are below 2^M there, and the lookups in the model only run there.
- TsKademlia.TsRoutingTable.GetKClosestTo and TsKademlia.TsNode.FindNode model getKClosestTo as written (farthest from the source first); the intended order is `GetKClosestToCorrected`.

## Findings

| source | as written | input that shows it | evidently intended | confidence | as-written member | corrected member |
|---|---|---|---|---|---|---|
| Kademlia/Helpers/IdentifierGenerator.cs:96 | `id.Equals(random)` with a `BigInteger` binds to `Equals(object)`, which is false for anything but an Identifier | ids [8] issued, GetUniqueRandomInRange(8, 15) draws 8 and returns it again | reject values already issued | not executed | IdentifierGeneration.AsWrittenReturnsIssued | IdentifierGeneration.IdentifierGenerator.GetUniqueRandomInRange |
| csharp/Kademlia/Core/Bucket.cs:77-89 | a full bucket appends the live head again, or appends the newcomer without removing the dead head | k = 1, bucket [a], insert b: [a, a] with a live head, [a, b] with a dead one | rotate the live head to the tail; evict the dead head | not executed | Buckets.CsInsertCounterexample | Buckets.TouchFull |
| src/bucket.model.ts:38 | `push(targetNode)` pushes the result of `find`, which is undefined on that path | full bucket with an unknown target and a dead head: the bucket ends with `undefined` and every later unknown insert throws | push the new target | not executed | TsKademlia.InsertedDeadHeadPushesUndefined | TsKademlia.CorrectedInsertedKeepsBucket |
| src/routing-table.model.ts:61-63 | candidates sorted by distance to the source, farthest first | k = 1, source 0, buckets [1], [], [4, 5], target 3: returns 5 | the k candidates nearest to the target | not executed | TsKademlia.KClosestCounterexample | TsKademlia.CorrectedKClosestNearest |
| src/array-helper.helper.ts:52 | the comparator calls Node.getDistanceTo with an Identifier, whose `.identifier` is undefined | any array of two or more nodes: TypeError | sort by XOR distance to the target, descending | not executed | TsArrayHelper.SortAsWrittenThrows | TsArrayHelper.SortedByDistanceDescProperties |
