/** The documented C# routing core: a node, its routing table of M k-buckets,
    the one-hop FindNode and the iterative Lookup (Kademlia/Core/Node.cs and
    Kademlia/Core/RoutingTable.cs). Buckets follow least-recently-seen
    replacement with the ping answered as Node.Ping answers it (always alive);
    Kademlia/Core/Bucket.cs is not part of this model, so a bucket update is
    the rule `Buckets.Touch`. */
module KademliaCore {
  import opened Constants
  import opened Identifiers
  import opened Wrappers
  import opened ListOps
  import opened Buckets
  import opened Expansion
  import opened LookupSteps

  /** What FindNode hands back (Kademlia/Models/FindNodeResponse.cs). */
  datatype FindNodeResponse = FindNodeResponse(traveledNodes: seq<Node>, closestNodes: seq<Node>)

  /** The state a batch update reaches, and whether it ran to the end. */
  datatype Batch = Batch(buckets: seq<seq<Node>>, outcome: Outcome)

  // ---------------------------------------------------------------------
  // Bucket placement

  /** GetClosestBucketIndex: floor(log2(distance)). A distance of 0 (the
      owner's own id) has no index: the floating-point log is -infinity and
      the cast yields no valid list index. */
  function ClosestBucketIndex(owner: Identifier, target: Identifier): (r: Option<nat>)
    ensures r.None? <==> owner == target
    ensures r.Some? ==> Pow2(r.value) <= owner.DistanceTo(target) < Pow2(r.value + 1)
  {
    DistanceZeroIffEqual(owner, target);
    var d := owner.DistanceTo(target);
    if d == 0 then None else Some(FloorLog2(d))
  }

  /** The index names one of m buckets exactly when the distance is below 2^m. */
  lemma ClosestBucketIndexInRange(owner: Identifier, target: Identifier, m: nat)
    requires owner != target
    ensures ClosestBucketIndex(owner, target).value < m <==> owner.DistanceTo(target) < Pow2(m)
  {
    var i := ClosestBucketIndex(owner, target).value;
    if i < m {
      Pow2Monotone(i + 1, m);
    } else {
      Pow2Monotone(m, i);
    }
  }

  /** Node x belongs in bucket i of owner's table. */
  ghost predicate InBucket(owner: Identifier, x: Node, i: nat)
  {
    Pow2(i) <= owner.DistanceTo(x.id) < Pow2(i + 1)
  }

  /** The table invariant: M buckets, each holding at most K distinct nodes,
      every node in the bucket its distance from the owner names. */
  ghost predicate WellFormed(owner: Identifier, buckets: seq<seq<Node>>)
  {
    |buckets| == M &&
    (forall i :: 0 <= i < |buckets| ==> |buckets[i]| <= K && NoDup(buckets[i])) &&
    (forall i, x :: 0 <= i < |buckets| && x in buckets[i] ==> InBucket(owner, x, i))
  }

  ghost predicate StoredIn(buckets: seq<seq<Node>>, x: Node)
  {
    exists i :: 0 <= i < |buckets| && x in buckets[i]
  }

  /** A node sits in one bucket only, so the buckets are disjoint. */
  lemma WellFormedDisjoint(owner: Identifier, buckets: seq<seq<Node>>)
    requires WellFormed(owner, buckets)
    ensures Disjoint(buckets)
  {
    forall j1, j2, x | 0 <= j1 < j2 < |buckets| && x in buckets[j1] ensures x !in buckets[j2] {
      FloorLog2Unique(owner.DistanceTo(x.id), j1);
      if x in buckets[j2] {
        FloorLog2Unique(owner.DistanceTo(x.id), j2);
      }
    }
  }

  /** The owner is never stored: its distance 0 fits no bucket. */
  lemma WellFormedExcludesOwner(owner: Identifier, buckets: seq<seq<Node>>, x: Node)
    requires WellFormed(owner, buckets) && StoredIn(buckets, x)
    ensures x.id != owner
  {
    var i :| 0 <= i < |buckets| && x in buckets[i];
    DistanceZeroIffEqual(owner, x.id);
  }

  // ---------------------------------------------------------------------
  // Insert

  /** RoutingTable.Insert on the table's buckets: the owner's own id is
      ignored; otherwise the bucket at the closest index is touched, and an
      index outside the table throws. */
  function Inserted(owner: Identifier, buckets: seq<seq<Node>>, target: Node): (r: Result<seq<seq<Node>>>)
    ensures target.id == owner ==> r == Success(buckets)
    ensures r.Failure? ==> r.error == IndexOutOfRange
    ensures r.Success? ==> |r.value| == |buckets|
    ensures r.Success? ==> forall j :: 0 <= j < |buckets| && !InBucket(owner, target, j) ==> r.value[j] == buckets[j]
  {
    if target.id == owner then Success(buckets)
    else
      var idx := ClosestBucketIndex(owner, target.id);
      if idx.None? || idx.value >= |buckets| then Failure(IndexOutOfRange)
      else
        assert forall j :: 0 <= j < |buckets| && !InBucket(owner, target, j) ==> j != idx.value;
        Success(buckets[idx.value := Touch(buckets[idx.value], target, true, K)])
  }

  /** Insert fails exactly for a distance of 2^|buckets| or more. */
  lemma InsertedFails(owner: Identifier, buckets: seq<seq<Node>>, target: Node)
    ensures Inserted(owner, buckets, target).Failure? <==>
            target.id != owner && owner.DistanceTo(target.id) >= Pow2(|buckets|)
  {
    if target.id != owner {
      ClosestBucketIndexInRange(owner, target.id, |buckets|);
    }
  }

  /** Insert keeps the table invariant, stores nothing but the target beyond
      what was stored, and leaves the target stored unless its bucket was full. */
  lemma InsertedKeepsWellFormed(owner: Identifier, buckets: seq<seq<Node>>, target: Node)
    requires WellFormed(owner, buckets) && Inserted(owner, buckets, target).Success?
    ensures WellFormed(owner, Inserted(owner, buckets, target).value)
    ensures forall x :: StoredIn(Inserted(owner, buckets, target).value, x) ==> StoredIn(buckets, x) || x == target
    ensures target.id != owner && (StoredIn(buckets, target) || |buckets[ClosestBucketIndex(owner, target.id).value]| < K) ==>
            StoredIn(Inserted(owner, buckets, target).value, target)
  {
    var r := Inserted(owner, buckets, target).value;
    if target.id != owner {
      var i := ClosestBucketIndex(owner, target.id).value;
      TouchKeepsBucket(buckets[i], target, true, K);
      forall x | StoredIn(r, x) ensures StoredIn(buckets, x) || x == target {
        var j :| 0 <= j < |r| && x in r[j];
      }
      if StoredIn(buckets, target) {
        var j :| 0 <= j < |buckets| && target in buckets[j];
        FloorLog2Unique(owner.DistanceTo(target.id), j);
      }
      if StoredIn(buckets, target) || |buckets[i]| < K {
        assert target in r[i];
      }
    }
  }

  /** The batch UpdateRoutingTable: inserts in sequence order and stops at the
      first insert that throws, keeping the inserts made before it. */
  function InsertedAll(owner: Identifier, buckets: seq<seq<Node>>, nodes: seq<Node>): Batch
    decreases |nodes|
  {
    if nodes == [] then Batch(buckets, Done)
    else
      var r := Inserted(owner, buckets, nodes[0]);
      if r.Failure? then Batch(buckets, Thrown(r.error))
      else InsertedAll(owner, r.value, nodes[1..])
  }

  lemma {:induction false} InsertedAllKeepsWellFormed(owner: Identifier, buckets: seq<seq<Node>>, nodes: seq<Node>)
    requires WellFormed(owner, buckets)
    ensures WellFormed(owner, InsertedAll(owner, buckets, nodes).buckets)
    ensures forall x :: StoredIn(InsertedAll(owner, buckets, nodes).buckets, x) ==> StoredIn(buckets, x) || x in nodes
    ensures InsertedAll(owner, buckets, nodes).outcome.Thrown? ==> InsertedAll(owner, buckets, nodes).outcome.error == IndexOutOfRange
    decreases |nodes|
  {
    if nodes != [] {
      var r := Inserted(owner, buckets, nodes[0]);
      if r.Success? {
        InsertedKeepsWellFormed(owner, buckets, nodes[0]);
        InsertedAllKeepsWellFormed(owner, r.value, nodes[1..]);
      }
    }
  }

  /** Ids below 2^M are never rejected, so a batch of them runs to the end. */
  lemma {:induction false} InsertedAllCompletes(owner: Identifier, buckets: seq<seq<Node>>, nodes: seq<Node>)
    requires |buckets| == M && owner.value < Pow2(M)
    requires forall x :: x in nodes ==> x.id.value < Pow2(M)
    ensures InsertedAll(owner, buckets, nodes).outcome == Done
    decreases |nodes|
  {
    if nodes != [] {
      InsertedFails(owner, buckets, nodes[0]);
      DistanceBounded(owner, nodes[0].id, M);
      var r := Inserted(owner, buckets, nodes[0]);
      InsertedAllCompletes(owner, r.value, nodes[1..]);
    }
  }

  // ---------------------------------------------------------------------
  // GetKClosestTo

  /** GetKClosestTo on the table's buckets: the zig-zag walk from the
      target's bucket, or the exception of an invalid index. */
  function KClosest(owner: Identifier, buckets: seq<seq<Node>>, target: Identifier): Result<seq<Node>>
  {
    var idx := ClosestBucketIndex(owner, target);
    if idx.None? || idx.value >= |buckets| then Failure(IndexOutOfRange)
    else Success(Collect(buckets, idx.value, K))
  }

  /** GetKClosestTo fails exactly for the owner's own id and for ids at a
      distance of 2^M or more; otherwise it returns distinct stored nodes,
      never the owner, beginning with the target's whole bucket. */
  lemma KClosestProperties(owner: Identifier, buckets: seq<seq<Node>>, target: Identifier)
    requires WellFormed(owner, buckets)
    ensures KClosest(owner, buckets, target).Failure? <==> target == owner || owner.DistanceTo(target) >= Pow2(M)
    ensures KClosest(owner, buckets, target).Failure? ==> KClosest(owner, buckets, target).error == IndexOutOfRange
    ensures KClosest(owner, buckets, target).Success? ==>
              var r := KClosest(owner, buckets, target).value;
              NoDup(r) &&
              (forall x :: x in r ==> StoredIn(buckets, x) && x.id != owner) &&
              buckets[ClosestBucketIndex(owner, target).value] <= r
  {
    if target != owner {
      ClosestBucketIndexInRange(owner, target, M);
    }
    var k := KClosest(owner, buckets, target);
    if k.Success? {
      var i := ClosestBucketIndex(owner, target).value;
      WellFormedDisjoint(owner, buckets);
      CollectNoDup(buckets, i, K);
      var lo, hi, last := CollectWindow(buckets, i, K);
      forall x | x in k.value ensures StoredIn(buckets, x) && x.id != owner {
        CollectFromBuckets(buckets, i, K, x);
        WellFormedExcludesOwner(owner, buckets, x);
      }
    }
  }

  /** A table that stores nothing has nothing to return. */
  lemma KClosestOfEmpty(owner: Identifier, buckets: seq<seq<Node>>, target: Identifier)
    requires forall i :: 0 <= i < |buckets| ==> buckets[i] == []
    requires KClosest(owner, buckets, target).Success?
    ensures KClosest(owner, buckets, target).value == []
  {
    CollectEmpty(buckets, ClosestBucketIndex(owner, target).value, K);
  }

  // ---------------------------------------------------------------------
  // Lookup steps

  /** The sort key of Lookup: distance to the target. */
  function DistanceKey(target: Identifier): Node -> int
  {
    (n: Node) => n.id.DistanceTo(target)
  }

  /** One FindNode sent during a lookup: the queried peer and the traveled
      list it was handed. */
  datatype Query = Query(peer: Identifier, traveled: seq<Node>)

  /** No two entries carry the same id. */
  ghost predicate DistinctIds(s: seq<Node>)
  {
    forall i, j :: 0 <= i < j < |s| ==> s[i].id != s[j].id
  }

  /** In a valid network, distinct node objects have distinct ids. */
  lemma NetworkDistinctIds(net: set<Node>, tables: map<Node, seq<seq<Node>>>, s: seq<Node>)
    requires ValidAt(net, tables) && NoDup(s)
    requires forall x :: x in s ==> x in net
    ensures DistinctIds(s)
  {
    forall i, j | 0 <= i < j < |s| ensures s[i].id != s[j].id {
      assert s[i] != s[j];
    }
  }

  ghost predicate DistinctPeers(log: seq<Query>)
  {
    forall i, j :: 0 <= i < j < |log| ==> log[i].peer != log[j].peer
  }

  /** The ids of the members of `s`. */
  ghost function Ids(s: seq<Node>): set<Identifier>
  {
    set x | x in s :: x.id
  }

  /** The peers a log queried. */
  ghost function Peers(log: seq<Query>): set<Identifier>
  {
    set q | q in log :: q.peer
  }

  /** A query to a peer no later query names keeps the peers distinct. */
  lemma DistinctCons(q: Query, tail: seq<Query>)
    requires DistinctPeers(tail) && forall p :: p in tail ==> p.peer != q.peer
    ensures DistinctPeers([q] + tail)
  {
    var all := [q] + tail;
    forall i, j | 0 <= i < j < |all| ensures all[i].peer != all[j].peer {
      assert all[j] == tail[j - 1];
      if i == 0 {
        assert all[j] in tail;
      } else {
        assert all[i] == tail[i - 1];
      }
    }
  }

  /** The queries one lookup round sends, in order: FindNode to each frontier
      member whose id is not queried yet, the queried set growing as the round
      goes. */
  ghost function RoundQueries(frontier: seq<Node>, queried: set<Identifier>, traveled: seq<Node>): seq<Query>
  {
    if frontier == [] then []
    else if frontier[0].id in queried then RoundQueries(frontier[1..], queried, traveled)
    else [Query(frontier[0].id, traveled)] + RoundQueries(frontier[1..], queried + {frontier[0].id}, traveled)
  }

  /** A round asks exactly the frontier members not queried before it, each
      once, each handed the same traveled list. */
  lemma {:induction false} RoundQueriesAsked(frontier: seq<Node>, queried: set<Identifier>, traveled: seq<Node>)
    ensures forall p :: p in Peers(RoundQueries(frontier, queried, traveled)) <==> p in Ids(frontier) && p !in queried
    ensures DistinctPeers(RoundQueries(frontier, queried, traveled))
    ensures forall q :: q in RoundQueries(frontier, queried, traveled) ==> q.traveled == traveled
  {
    if frontier != [] {
      var x, rest := frontier[0], frontier[1..];
      assert frontier == [x] + rest;
      assert Ids(frontier) == {x.id} + Ids(rest);
      if x.id in queried {
        RoundQueriesAsked(rest, queried, traveled);
      } else {
        var tail := RoundQueries(rest, queried + {x.id}, traveled);
        RoundQueriesAsked(rest, queried + {x.id}, traveled);
        assert Peers([Query(x.id, traveled)] + tail) == {x.id} + Peers(tail);
        forall q | q in tail ensures q.peer != x.id {
          assert q.peer in Peers(tail);
        }
        DistinctCons(Query(x.id, traveled), tail);
      }
    }
  }

  /** The queries of the final round, in order: FindNode to each member of the
      result whose id was not queried; the queried set does not grow. */
  ghost function FinalQueries(ks: seq<Node>, queried: set<Identifier>, traveled: seq<Node>): seq<Query>
  {
    if ks == [] then []
    else (if ks[0].id in queried then [] else [Query(ks[0].id, traveled)]) + FinalQueries(ks[1..], queried, traveled)
  }

  /** The final round asks exactly the result members not queried during the
      rounds, each handed the same traveled list; with distinct ids, each
      once. */
  lemma {:induction false} FinalQueriesAsked(ks: seq<Node>, queried: set<Identifier>, traveled: seq<Node>)
    requires DistinctIds(ks)
    ensures forall p :: p in Peers(FinalQueries(ks, queried, traveled)) <==> p in Ids(ks) && p !in queried
    ensures DistinctPeers(FinalQueries(ks, queried, traveled))
    ensures forall q :: q in FinalQueries(ks, queried, traveled) ==> q.traveled == traveled
  {
    if ks != [] {
      var x, rest := ks[0], ks[1..];
      assert ks == [x] + rest;
      assert Ids(ks) == {x.id} + Ids(rest);
      var tail := FinalQueries(rest, queried, traveled);
      assert DistinctIds(rest) by {
        forall i, j | 0 <= i < j < |rest| ensures rest[i].id != rest[j].id {
          assert rest[i] == ks[i + 1] && rest[j] == ks[j + 1];
        }
      }
      FinalQueriesAsked(rest, queried, traveled);
      if x.id !in queried {
        forall y | y in rest ensures y.id != x.id {
          var i :| 0 <= i < |rest| && rest[i] == y;
          assert ks[i + 1] == y;
        }
        assert Peers([Query(x.id, traveled)] + tail) == {x.id} + Peers(tail);
        forall q | q in tail ensures q.peer != x.id {
          assert q.peer in Peers(tail);
        }
        DistinctCons(Query(x.id, traveled), tail);
      } else {
        assert FinalQueries(ks, queried, traveled) == tail;
      }
    }
  }

  /** FindNode on the peer with id `p` throws for this target: GetKClosestTo
      finds no bucket when the distance is 0 (the peer's own id) or 2^M or
      more (Kademlia/Core/RoutingTable.cs:71-72 and :123). */
  ghost predicate FindNodeThrows(p: Identifier, target: Identifier)
  {
    p == target || p.DistanceTo(target) >= Pow2(M)
  }

  /** Every peer of these queries answered. */
  ghost predicate AllAnswered(qs: seq<Query>, target: Identifier)
  {
    forall q :: q in qs ==> !FindNodeThrows(q.peer, target)
  }

  /** Every peer of these queries answered but the last, which threw. */
  ghost predicate ThrewAtLast(qs: seq<Query>, target: Identifier)
  {
    qs != [] && AllAnswered(qs[..|qs| - 1], target) && FindNodeThrows(qs[|qs| - 1].peer, target)
  }

  /** Queries that all answered, followed by more that all answered or that
      threw at the last, keep that shape together. */
  lemma AnsweredAfter(log0: seq<Query>, log: seq<Query>, log': seq<Query>, target: Identifier)
    requires log0 <= log <= log' && AllAnswered(log[|log0|..], target)
    ensures AllAnswered(log'[|log|..], target) ==> AllAnswered(log'[|log0|..], target)
    ensures ThrewAtLast(log'[|log|..], target) ==> ThrewAtLast(log'[|log0|..], target)
  {
    assert log'[|log0|..] == log[|log0|..] + log'[|log|..];
    if |log| < |log'| {
      assert log'[|log0|..][..|log'| - |log0| - 1] == log[|log0|..] + log'[|log|..][..|log'| - |log| - 1];
    }
  }

  /** A log that all answered, continued by queries that all answered or
      that threw at the last, keeps that shape as a whole. */
  lemma AnsweredFrom(log: seq<Query>, log': seq<Query>, target: Identifier)
    requires log <= log' && AllAnswered(log, target)
    ensures AllAnswered(log'[|log|..], target) ==> AllAnswered(log', target)
    ensures ThrewAtLast(log'[|log|..], target) ==> ThrewAtLast(log', target)
  {
    assert log[0..] == log && log'[0..] == log';
    AnsweredAfter([], log, log', target);
  }

  /** Once the looking-up node's own FindNode has answered, and every peer's
      id is below 2^M, a peer throws exactly when its id is the target: a run
      of queries that all answered never named the target, and one that
      threw named it at its last query. */
  lemma ThrowsAtTargetOnly(owner: Identifier, log: seq<Query>, target: Identifier)
    requires owner.value < Pow2(M) && !FindNodeThrows(owner, target)
    requires forall q :: q in log ==> q.peer.value < Pow2(M)
    ensures AllAnswered(log, target) ==> target !in Peers(log)
    ensures ThrewAtLast(log, target) ==> target in Peers(log)
  {
    if target.value >= Pow2(M) {
      DistanceAbove(owner, target, M);
    }
    forall q | q in log ensures FindNodeThrows(q.peer, target) <==> q.peer == target {
      DistanceBounded(q.peer, target, M);
    }
    if ThrewAtLast(log, target) {
      assert log[|log| - 1] in log;
    }
  }

  // ---------------------------------------------------------------------
  // The main loop of Lookup as a function of the network

  /** What the peer with id `p` answers a FindNode for `target` with, when
      its buckets are those `tables` records: the closest nodes GetKClosestTo
      reads (nothing when it throws or when no node of `net` has that id). */
  ghost function Reply(net: set<Node>, tables: map<Node, seq<seq<Node>>>, p: Identifier, target: Identifier): seq<Node>
  {
    if exists n :: n in net && n in tables && n.id == p then
      var n :| n in net && n in tables && n.id == p;
      var k := KClosest(p, tables[n], target);
      if k.Success? then k.value else []
    else []
  }

  /** The answers to a run of queries, one per query. */
  ghost function Replies(net: set<Node>, tables: map<Node, seq<seq<Node>>>, qs: seq<Query>, target: Identifier): (r: seq<seq<Node>>)
    ensures |r| == |qs| && forall i :: 0 <= i < |qs| ==> r[i] == Reply(net, tables, qs[i].peer, target)
  {
    if qs == [] then []
    else Replies(net, tables, qs[..|qs| - 1], target) + [Reply(net, tables, qs[|qs| - 1].peer, target)]
  }

  /** The answers to queries that continue a log continue its answers. */
  lemma {:induction false} RepliesAfter(net: set<Node>, tables: map<Node, seq<seq<Node>>>,
                                        log0: seq<Query>, log: seq<Query>, log': seq<Query>, target: Identifier)
    requires log0 <= log <= log'
    ensures Replies(net, tables, log'[|log0|..], target) ==
              Replies(net, tables, log[|log0|..], target) + Replies(net, tables, log'[|log|..], target)
    decreases |log'|
  {
    if |log| < |log'| {
      var front := log'[..|log'| - 1];
      RepliesAfter(net, tables, log0, log, front, target);
      assert log'[|log0|..][..|log'| - |log0| - 1] == front[|log0|..];
      assert log'[|log|..][..|log'| - |log| - 1] == front[|log|..];
    } else {
      assert log'[|log|..] == [];
    }
  }

  /** A log grown by one query: its new part is that query, answered by
      the peer's reply, and it answered unless FindNode threw there. */
  lemma OneQuery(net: set<Node>, tables: map<Node, seq<seq<Node>>>, log: seq<Query>, log': seq<Query>, q: Query, target: Identifier)
    requires log' == log + [q]
    ensures log'[|log|..] == [q]
    ensures Replies(net, tables, log'[|log|..], target) == [Reply(net, tables, q.peer, target)]
    ensures AllAnswered(log'[|log|..], target) <==> !FindNodeThrows(q.peer, target)
    ensures ThrewAtLast(log'[|log|..], target) <==> FindNodeThrows(q.peer, target)
  {
    assert log'[|log|..] == [q] && [q][..0] == [];
  }

  /** With one node per id, the peer's reply is read from its own buckets. */
  lemma ReplyOf(net: set<Node>, tables: map<Node, seq<seq<Node>>>, node: Node, target: Identifier)
    requires node in net && node in tables
    requires forall n, m :: n in net && m in net && n.id == m.id ==> n == m
    ensures var k := KClosest(node.id, tables[node], target);
            Reply(net, tables, node.id, target) == if k.Success? then k.value else []
  {
  }

  /** Every node of the network whose id is not in `queried` still holds the
      buckets `tables` records. */
  ghost predicate Untouched(net: set<Node>, tables: map<Node, seq<seq<Node>>>, queried: set<Identifier>)
    reads set n | n in net :: n.table
  {
    forall n :: n in net && n.id !in queried ==> n in tables && n.table.buckets == tables[n]
  }

  /** In a valid network, distinct nodes own distinct table objects. */
  lemma TablesApart(net: set<Node>, tables: map<Node, seq<seq<Node>>>, n: Node, m: Node)
    requires ValidAt(net, tables) && n in net && m in net && n != m
    ensures n.table != m.table
  {
  }

  /** Where the main loop of Lookup stands between two rounds: the result so
      far, the node closest to the target found so far, the next frontier,
      the ids queried, the queries sent, the nodes the last round brought
      back, and whether another round follows. */
  datatype LookupState = LookupState(ks: seq<Node>, closest: Node, frontier: seq<Node>, queried: set<Identifier>,
                                     log: seq<Query>, last: seq<Node>, going: bool)

  /** The filter of the stop rule: strictly closer to the target than `closest`. */
  function CloserThan(target: Identifier, closest: Node): Node -> bool
  {
    (n: Node) => n.id.DistanceTo(target) < closest.id.DistanceTo(target)
  }

  /** The filter of the next frontier: not queried yet. */
  function Unqueried(queried: set<Identifier>): Node -> bool
  {
    (n: Node) => n.id !in queried
  }

  /** The state before the first round: the first frontier is the result,
      its head the closest node, and only the owner is queried. */
  ghost function Start(first: seq<Node>, owner: Identifier): LookupState
    requires first != []
  {
    LookupState(first, first[0], first, {owner}, [], [], true)
  }

  /** One round of the main loop over a network whose peers answer from
      `tables`: FindNode on each frontier member not queried yet, then the
      stop rule, the merge into the K nearest and the next frontier. A round
      that goes on found a strictly closer node; a round that stops found
      none, and leaves the result as it was. */
  ghost function Advance(s: LookupState, net: set<Node>, tables: map<Node, seq<seq<Node>>>,
                         target: Identifier, traveled: seq<Node>): (r: LookupState)
    ensures r.going ==> s.going && r.closest.id.DistanceTo(target) < s.closest.id.DistanceTo(target)
    ensures s.going && !r.going ==>
              r.ks == s.ks && r.closest == s.closest &&
              forall x :: x in r.last ==> r.closest.id.DistanceTo(target) <= x.id.DistanceTo(target)
  {
    if !s.going then s
    else
      var qs := RoundQueries(s.frontier, s.queried, traveled);
      var current := Flatten(Replies(net, tables, qs, target));
      var queried := s.queried + Ids(s.frontier);
      var run := FirstWhere(current, CloserThan(target, s.closest));
      if run.None? then LookupState(s.ks, s.closest, s.frontier, queried, s.log + qs, current, false)
      else
        var ks := Merge(s.ks, current, DistanceKey(target));
        LookupState(ks, run.value, NextFrontier(ks, Unqueried(queried)), queried, s.log + qs, current, true)
  }

  /** The main loop: rounds until one finds no closer node. It ends because
      every round that goes on moves strictly closer to the target. */
  ghost function MainLoop(s: LookupState, net: set<Node>, tables: map<Node, seq<seq<Node>>>,
                          target: Identifier, traveled: seq<Node>): (r: LookupState)
    ensures !r.going
    decreases if s.going then s.closest.id.DistanceTo(target) + 1 else 0
  {
    if !s.going then s else MainLoop(Advance(s, net, tables, target, traveled), net, tables, target, traveled)
  }

  /** The log of a state: the ids queried are `base` plus the peers of the
      log, each peer once, none of them in `base`, each handed `traveled`. */
  ghost predicate Logged(s: LookupState, base: set<Identifier>, traveled: seq<Node>)
  {
    s.queried == base + Peers(s.log) && DistinctPeers(s.log) &&
    forall q :: q in s.log ==> q.peer !in base && q.traveled == traveled
  }

  /** Two logs with no peer in common, each with distinct peers, have
      distinct peers together. */
  lemma DistinctAppend(a: seq<Query>, b: seq<Query>)
    requires DistinctPeers(a) && DistinctPeers(b) && Peers(a) !! Peers(b)
    ensures DistinctPeers(a + b) && Peers(a + b) == Peers(a) + Peers(b)
  {
    forall i, j | 0 <= i < j < |a + b| ensures (a + b)[i].peer != (a + b)[j].peer {
      if j >= |a| && i < |a| {
        assert (a + b)[i] == a[i] && (a + b)[j] == b[j - |a|];
        assert a[i].peer in Peers(a) && b[j - |a|].peer in Peers(b);
      } else if j < |a| {
        assert (a + b)[i] == a[i] && (a + b)[j] == a[j];
      } else {
        assert (a + b)[i] == b[i - |a|] && (a + b)[j] == b[j - |a|];
      }
    }
  }

  /** A round keeps the log: it queries each frontier id not queried before,
      once, and records exactly those ids. */
  lemma AdvanceLogged(s: LookupState, net: set<Node>, tables: map<Node, seq<seq<Node>>>,
                      target: Identifier, traveled: seq<Node>, base: set<Identifier>)
    requires Logged(s, base, traveled)
    ensures Logged(Advance(s, net, tables, target, traveled), base, traveled)
  {
    if s.going {
      var qs := RoundQueries(s.frontier, s.queried, traveled);
      RoundQueriesAsked(s.frontier, s.queried, traveled);
      DistinctAppend(s.log, qs);
      assert s.queried + Ids(s.frontier) == base + Peers(s.log + qs);
    }
  }

  /** The whole main loop keeps the log. */
  lemma {:induction false} MainLoopLogged(s: LookupState, net: set<Node>, tables: map<Node, seq<seq<Node>>>,
                                          target: Identifier, traveled: seq<Node>, base: set<Identifier>)
    requires Logged(s, base, traveled)
    ensures Logged(MainLoop(s, net, tables, target, traveled), base, traveled)
    decreases if s.going then s.closest.id.DistanceTo(target) + 1 else 0
  {
    if s.going {
      AdvanceLogged(s, net, tables, target, traveled, base);
      MainLoopLogged(Advance(s, net, tables, target, traveled), net, tables, target, traveled, base);
    }
  }

  /** The result is non-empty, sorted by distance to the target, and its head
      is at least as close as the closest node. */
  ghost predicate Nearest(s: LookupState, target: Identifier)
  {
    s.ks != [] && SortedBy(s.ks, DistanceKey(target)) &&
    s.ks[0].id.DistanceTo(target) <= s.closest.id.DistanceTo(target)
  }

  /** A round keeps the result nearest-first. */
  lemma AdvanceNearest(s: LookupState, net: set<Node>, tables: map<Node, seq<seq<Node>>>,
                       target: Identifier, traveled: seq<Node>)
    requires Nearest(s, target)
    ensures Nearest(Advance(s, net, tables, target, traveled), target)
  {
    var r := Advance(s, net, tables, target, traveled);
    if r.going {
      var key := DistanceKey(target);
      MergeProperties(s.ks, r.last, key);
      MergeKeepsNearest(s.ks, r.last, key);
      if r.closest in r.ks {
        var i :| 0 <= i < |r.ks| && r.ks[i] == r.closest;
        assert i == 0 || key(r.ks[0]) <= key(r.ks[i]);
      } else {
        assert key(r.ks[0]) <= key(r.closest);
      }
    }
  }

  /** The stop rule: the result's head is at least as close to the target
      as every node the last round brought back. */
  ghost predicate Settled(s: LookupState, target: Identifier)
  {
    s.ks != [] && forall x :: x in s.last ==> s.ks[0].id.DistanceTo(target) <= x.id.DistanceTo(target)
  }

  /** The whole main loop keeps the result nearest-first and ends on the
      stop rule. */
  lemma {:induction false} MainLoopStops(s: LookupState, net: set<Node>, tables: map<Node, seq<seq<Node>>>,
                                         target: Identifier, traveled: seq<Node>)
    requires Nearest(s, target) && s.going
    ensures Nearest(MainLoop(s, net, tables, target, traveled), target)
    ensures Settled(MainLoop(s, net, tables, target, traveled), target)
    decreases s.closest.id.DistanceTo(target)
  {
    var s' := Advance(s, net, tables, target, traveled);
    AdvanceNearest(s, net, tables, target, traveled);
    if s'.going {
      MainLoopStops(s', net, tables, target, traveled);
    }
  }

  /** After the final round every member of the result has been sent
      FindNode, or is the owner. */
  lemma LookupQueriesResult(s: LookupState, owner: Identifier, traveled: seq<Node>)
    requires Logged(s, {owner}, traveled) && DistinctIds(s.ks)
    ensures forall x :: x in s.ks ==> x.id == owner || x.id in Peers(s.log + FinalQueries(s.ks, s.queried, traveled))
  {
    var fq := FinalQueries(s.ks, s.queried, traveled);
    FinalQueriesAsked(s.ks, s.queried, traveled);
    forall x | x in s.ks && x.id != owner ensures x.id in Peers(s.log + fq) {
      assert x.id in Ids(s.ks);
      if x.id in s.queried {
        var q :| q in s.log && q.peer == x.id;
        assert q in s.log + fq;
      } else {
        var q :| q in fq && q.peer == x.id;
        assert q in s.log + fq;
      }
    }
  }

  /** The buckets of every table in the network, keyed by node. */
  ghost function Tables(net: set<Node>): (t: map<Node, seq<seq<Node>>>)
    reads set n | n in net :: n.table
    ensures t.Keys == net
  {
    map n | n in net :: n.table.buckets
  }

  /** The network a lookup runs in, given the buckets of every table: every
      node's table is its own and keeps the table invariant, every stored
      peer is itself in the network, ids are below 2^M, and there is one
      node object per id. */
  ghost predicate ValidAt(net: set<Node>, tables: map<Node, seq<seq<Node>>>)
  {
    (forall n :: n in net ==> n in tables && n.table.owner == n.id && WellFormed(n.id, tables[n]) && n.id.value < Pow2(M)) &&
    (forall n, i, x :: n in net && n in tables && 0 <= i < |tables[n]| && x in tables[n][i] ==> x in net) &&
    (forall n, m :: n in net && m in net && n.id == m.id ==> n == m)
  }

  ghost predicate NetworkValid(net: set<Node>)
    reads set n | n in net :: n.table
  {
    ValidAt(net, Tables(net))
  }

  /** Changing one node's table within the rules of FindNode keeps the
      network valid. */
  lemma TableUpdateKeepsNetwork(net: set<Node>, before: map<Node, seq<seq<Node>>>, after: map<Node, seq<seq<Node>>>,
                                p: Node, nodes: seq<Node>)
    requires ValidAt(net, before) && p in net && after.Keys == net
    requires forall x :: x in nodes ==> x in net
    requires WellFormed(p.id, after[p])
    requires forall x :: StoredIn(after[p], x) ==> StoredIn(before[p], x) || x in nodes
    requires forall n :: n in net && n != p ==> after[n] == before[n]
    ensures ValidAt(net, after)
  {
    forall n, i, x | n in net && n in after && 0 <= i < |after[n]| && x in after[n][i] ensures x in net {
      if n == p {
        assert StoredIn(after[p], x);
        if StoredIn(before[p], x) {
          var i' :| 0 <= i' < |before[p]| && x in before[p][i'];
        }
      } else {
        assert x in before[n][i];
      }
    }
  }

  // ---------------------------------------------------------------------
  // Classes

  class RoutingTable {
    /** The id of the node this table belongs to. */
    const owner: Identifier
    var buckets: seq<seq<Node>>

    ghost predicate Valid()
      reads this
    {
      WellFormed(owner, buckets)
    }

    ghost predicate Stores(x: Node)
      reads this
    {
      StoredIn(buckets, x)
    }

    /** M empty buckets. */
    constructor(owner: Identifier)
      ensures this.owner == owner
      ensures |buckets| == M && forall i :: 0 <= i < M ==> buckets[i] == []
      ensures Valid()
    {
      this.owner := owner;
      var bs: seq<seq<Node>> := [];
      var i := 0;
      while i < M
        invariant 0 <= i <= M && |bs| == i
        invariant forall j :: 0 <= j < i ==> bs[j] == []
      {
        bs := bs + [[]];
        i := i + 1;
      }
      buckets := bs;
    }

    method Insert(target: Node) returns (outcome: Outcome)
      modifies this
      ensures var r := Inserted(owner, old(buckets), target);
              (r.Success? ==> outcome == Done && buckets == r.value) &&
              (r.Failure? ==> outcome == Thrown(r.error) && buckets == old(buckets))
    {
      if owner == target.id {
        return Done;
      }
      var idx := ClosestBucketIndex(owner, target.id);
      if idx.None? || idx.value >= |buckets| {
        return Thrown(IndexOutOfRange);
      }
      var i := idx.value;
      buckets := buckets[i := Touch(buckets[i], target, true, K)];
      outcome := Done;
    }

    /** The zig-zag walk, as the loop over left, right and direction. */
    method GetKClosestTo(target: Identifier) returns (r: Result<seq<Node>>)
      ensures r == KClosest(owner, buckets, target)
      ensures Valid() && r.Success? ==> NoDup(r.value) && forall x :: x in r.value ==> Stores(x) && x.id != owner
    {
      var idx := ClosestBucketIndex(owner, target);
      if idx.None? || idx.value >= |buckets| {
        return Failure(IndexOutOfRange);
      }
      var bucketIndex := idx.value;
      var kClosestNodes := buckets[bucketIndex];
      var goingLeft := true;
      var left := bucketIndex - 1;
      var right := bucketIndex + 1;
      while |kClosestNodes| < K
        invariant -1 <= left < right <= |buckets|
        invariant Expand(buckets, kClosestNodes, left, right, goingLeft, K) == Collect(buckets, bucketIndex, K)
        decreases 2 * (left + 1 + |buckets| - right) + (if Idle(buckets, left, right, goingLeft) then 1 else 0)
      {
        if goingLeft && left >= 0 {
          kClosestNodes := kClosestNodes + buckets[left];
          left := left - 1;
        }
        if !goingLeft && right < |buckets| {
          kClosestNodes := kClosestNodes + buckets[right];
          right := right + 1;
        }
        goingLeft := !goingLeft;
        if left < 0 && right >= |buckets| {
          break;
        }
      }
      r := Success(kClosestNodes);
      if Valid() {
        KClosestProperties(owner, buckets, target);
      }
    }
  }

  class Node {
    const id: Identifier
    const table: RoutingTable

    /** The table belongs to this node and keeps its invariant. */
    ghost predicate Valid()
      reads table
    {
      table.owner == id && table.Valid()
    }

    constructor(id: Identifier)
      ensures this.id == id && fresh(table)
      ensures forall i :: 0 <= i < |table.buckets| ==> table.buckets[i] == []
      ensures Valid()
    {
      this.id := id;
      table := new RoutingTable(id);
    }

    /** The liveness probe; every node answers it. */
    function Ping(): (alive: bool)
      ensures alive
    {
      true
    }

    method UpdateRoutingTable(node: Node) returns (outcome: Outcome)
      requires Valid()
      modifies table
      ensures Valid()
      ensures var r := Inserted(id, old(table.buckets), node);
              (r.Success? ==> outcome == Done && table.buckets == r.value) &&
              (r.Failure? ==> outcome == Thrown(r.error) && table.buckets == old(table.buckets))
    {
      if id == node.id {
        return Done;
      }
      outcome := table.Insert(node);
      if outcome.Done? {
        InsertedKeepsWellFormed(id, old(table.buckets), node);
      }
    }

    /** The batch overload: one insert per node, in order. */
    method UpdateRoutingTableAll(nodes: seq<Node>) returns (outcome: Outcome)
      requires Valid()
      modifies table
      ensures Valid()
      ensures Batch(table.buckets, outcome) == InsertedAll(id, old(table.buckets), nodes)
      ensures forall x :: table.Stores(x) ==> StoredIn(old(table.buckets), x) || x in nodes
    {
      ghost var start := table.buckets;
      outcome := Done;
      var i := 0;
      while i < |nodes|
        invariant 0 <= i <= |nodes| && Valid()
        invariant InsertedAll(id, table.buckets, nodes[i..]) == InsertedAll(id, start, nodes)
        invariant outcome == Done
      {
        assert nodes[i..][1..] == nodes[i + 1..];
        outcome := UpdateRoutingTable(nodes[i]);
        if outcome.Thrown? {
          break;
        }
        i := i + 1;
      }
      assert Batch(table.buckets, outcome) == InsertedAll(id, start, nodes);
      forall x | table.Stores(x) ensures StoredIn(start, x) || x in nodes {
        InsertedAllKeepsWellFormed(id, start, nodes);
      }
    }

    /** The one-hop primitive: the closest known nodes are read before the
        traveled nodes are merged into the table, and this node is appended
        to the traveled list handed back. */
    method FindNode(target: Identifier, traveledNodes: seq<Node>) returns (r: Result<FindNodeResponse>)
      requires Valid()
      modifies table
      ensures Valid()
      ensures var k := KClosest(id, old(table.buckets), target);
              var u := InsertedAll(id, old(table.buckets), traveledNodes);
              (k.Failure? ==> r == Failure(k.error) && table.buckets == old(table.buckets)) &&
              (k.Success? ==> table.buckets == u.buckets &&
                              (u.outcome.Done? ==> r == Success(FindNodeResponse(traveledNodes + [this], k.value))) &&
                              (u.outcome.Thrown? ==> r == Failure(u.outcome.error)))
      ensures r.Failure? ==> r.error == IndexOutOfRange
      ensures r.Success? ==> NoDup(r.value.closestNodes) &&
                             forall x :: x in r.value.closestNodes ==> StoredIn(old(table.buckets), x) && x.id != id
      ensures forall x :: table.Stores(x) ==> StoredIn(old(table.buckets), x) || x in traveledNodes
    {
      var closest := table.GetKClosestTo(target);
      if closest.Failure? {
        KClosestProperties(id, table.buckets, target);
        return Failure(closest.error);
      }
      var traveledNodesPlusMe := traveledNodes + [this];
      var o := UpdateRoutingTableAll(traveledNodes);
      if o.Thrown? {
        InsertedAllKeepsWellFormed(id, old(table.buckets), traveledNodes);
        return Failure(o.error);
      }
      r := Success(FindNodeResponse(traveledNodesPlusMe, closest.value));
    }
    /** FindNode sent to a peer of the network: the network stays valid and
        what comes back lies inside it. */
    method FindNodeInNetwork(target: Identifier, traveledNodes: seq<Node>, ghost net: set<Node>)
      returns (r: Result<FindNodeResponse>)
      requires this in net && NetworkValid(net)
      requires forall x :: x in traveledNodes ==> x in net
      modifies table
      ensures NetworkValid(net)
      ensures r.Failure? <==> target == id || id.DistanceTo(target) >= Pow2(M)
      ensures r.Failure? ==> r.error == IndexOutOfRange
      ensures r.Success? <==> KClosest(id, old(table.buckets), target).Success?
      ensures r.Success? ==> r.value.closestNodes == KClosest(id, old(table.buckets), target).value
      ensures r.Success? ==> r.value.traveledNodes == traveledNodes + [this] && NoDup(r.value.closestNodes) &&
                             forall x :: x in r.value.closestNodes ==> x in net && x.id != id
      ensures r.Success? && (forall i :: 0 <= i < |old(table.buckets)| ==> old(table.buckets)[i] == []) ==>
                r.value.closestNodes == []
    {
      ghost var before := Tables(net);
      KClosestProperties(id, table.buckets, target);
      InsertedAllCompletes(id, table.buckets, traveledNodes);
      if (forall i :: 0 <= i < |table.buckets| ==> table.buckets[i] == []) && KClosest(id, table.buckets, target).Success? {
        KClosestOfEmpty(id, table.buckets, target);
      }
      r := FindNode(target, traveledNodes);
      ghost var after := Tables(net);
      forall n | n in net && n != this ensures after[n] == before[n] {
        assert n.table != table;
      }
      TableUpdateKeepsNetwork(net, before, after, this, traveledNodes);
      if r.Success? {
        forall x | x in r.value.closestNodes ensures x in net {
          var i :| 0 <= i < |before[this]| && x in before[this][i];
        }
      }
    }

    /** UpdateRoutingTable over peers of the network: the network stays valid. */
    method UpdateRoutingTableAllInNetwork(nodes: seq<Node>, ghost net: set<Node>) returns (outcome: Outcome)
      requires this in net && NetworkValid(net)
      requires forall x :: x in nodes ==> x in net
      modifies table
      ensures NetworkValid(net)
      ensures outcome == Done
      ensures forall n :: n in net && n != this ==> n.table.buckets == old(n.table.buckets)
    {
      ghost var before := Tables(net);
      outcome := UpdateRoutingTableAll(nodes);
      InsertedAllCompletes(id, before[this], nodes);
      ghost var after := Tables(net);
      forall n | n in net && n != this ensures after[n] == before[n] {
        assert n.table != table;
      }
      TableUpdateKeepsNetwork(net, before, after, this, nodes);
      forall n | n in net && n != this ensures n.table != table {
        TablesApart(net, Tables(net), n, this);
      }
    }

    /** The log of a lookup so far: each peer queried once, never this node,
        each a peer of the network (an id below 2^M), each handed `traveled`,
        and each peer recorded as queried. */
    ghost predicate LogInvariant(log: seq<Query>, queried: set<Identifier>, traveled: seq<Node>)
    {
      DistinctPeers(log) && id in queried &&
      forall q :: q in log ==> q.peer in queried && q.peer != id && q.traveled == traveled && q.peer.value < Pow2(M)
    }

    /** Appending a query to a peer not in the log keeps peers distinct. */
    static lemma LogAppend(log: seq<Query>, q: Query)
      requires DistinctPeers(log) && forall p :: p in log ==> p.peer != q.peer
      ensures DistinctPeers(log + [q])
    {
      forall i, j | 0 <= i < j < |log + [q]| ensures (log + [q])[i].peer != (log + [q])[j].peer {
        if j == |log| {
          assert (log + [q])[i] == log[i] && log[i] in log;
        } else {
          assert (log + [q])[i] == log[i] && (log + [q])[j] == log[j];
        }
      }
    }

    /** Querying a peer not queried yet keeps the log invariant once the peer
        is recorded as queried. */
    lemma LogQueried(log: seq<Query>, queried: set<Identifier>, traveled: seq<Node>, peer: Identifier)
      requires LogInvariant(log, queried, traveled) && peer !in queried && peer.value < Pow2(M)
      ensures forall q :: q in log ==> q.peer != peer
      ensures DistinctPeers(log + [Query(peer, traveled)]) ==>
                LogInvariant(log + [Query(peer, traveled)], queried + {peer}, traveled)
    {
    }

    /** FindNode sent to one peer during a lookup, recorded in the log. */
    method QueryPeer(node: Node, target: Identifier, traveledNodes: seq<Node>, ghost net: set<Node>, ghost log: seq<Query>)
      returns (response: Result<FindNodeResponse>, ghost log': seq<Query>)
      requires NetworkValid(net) && node in net
      requires forall x :: x in traveledNodes ==> x in net
      requires DistinctPeers(log) && forall q :: q in log ==> q.peer != node.id
      modifies node.table
      ensures NetworkValid(net)
      ensures log' == log + [Query(node.id, traveledNodes)] && DistinctPeers(log')
      ensures response.Failure? <==> FindNodeThrows(node.id, target)
      ensures response.Failure? ==> response.error == IndexOutOfRange
      ensures response.Success? <==> KClosest(node.id, old(node.table.buckets), target).Success?
      ensures response.Success? ==> response.value.closestNodes == KClosest(node.id, old(node.table.buckets), target).value
      ensures forall n :: n in net && n != node ==> n.table.buckets == old(n.table.buckets)
      ensures response.Success? ==> forall x :: x in response.value.closestNodes ==> x in net
    {
      response := node.FindNodeInNetwork(target, traveledNodes, net);
      forall n | n in net && n != node ensures n.table != node.table {
        TablesApart(net, Tables(net), n, node);
      }
      log' := log + [Query(node.id, traveledNodes)];
      LogAppend(log, Query(node.id, traveledNodes));
    }

    /** The state of a round after its first j frontier members: the log
        invariant holds, the log followed by the queries still to come is
        `all`, the ids queried are those before the round plus those j
        members', and the nodes collected are the answers so far, one answer
        per query sent. */
    ghost predicate RoundState(frontier: seq<Node>, j: nat, traveled: seq<Node>, queried0: set<Identifier>, queried: set<Identifier>,
                               log0: seq<Query>, log: seq<Query>, answers: seq<seq<Node>>, currentNodes: seq<Node>, all: seq<Query>)
    {
      j <= |frontier| &&
      LogInvariant(log, queried, traveled) && log0 <= log && queried0 <= queried &&
      log + RoundQueries(frontier[j..], queried, traveled) == all &&
      queried == queried0 + Ids(frontier[..j]) &&
      currentNodes == Flatten(answers) && |answers| == |log| - |log0|
    }

    /** Frontier member j of a round: FindNode on it unless its id is queried
        already, its answer appended to the nodes collected. */
    method QueryMember(frontier: seq<Node>, j: nat, target: Identifier, traveledNodes: seq<Node>, queried: set<Identifier>,
                       currentNodes: seq<Node>, ghost net: set<Node>, ghost queried0: set<Identifier>, ghost log0: seq<Query>,
                       ghost log: seq<Query>, ghost answers: seq<seq<Node>>, ghost all: seq<Query>,
                       ghost tables0: map<Node, seq<seq<Node>>>)
      returns (r: Result<seq<Node>>, queried': set<Identifier>, ghost log': seq<Query>, ghost answers': seq<seq<Node>>)
      requires NetworkValid(net) && j < |frontier| && frontier[j] in net
      requires forall x :: x in traveledNodes ==> x in net
      requires forall x :: x in currentNodes ==> x in net
      requires RoundState(frontier, j, traveledNodes, queried0, queried, log0, log, answers, currentNodes, all)
      requires Untouched(net, tables0, queried)
      modifies set n | n in net :: n.table
      ensures NetworkValid(net)
      ensures LogInvariant(log', queried', traveledNodes) && log0 <= log' && log <= log' && queried0 <= queried'
      ensures Untouched(net, tables0, queried') && answers' == answers + Replies(net, tables0, log'[|log|..], target)
      ensures log' <= all && |answers'| == |log'| - |log0|
      ensures r.Success? ==> RoundState(frontier, j + 1, traveledNodes, queried0, queried', log0, log', answers', r.value, all)
      ensures r.Success? ==> forall x :: x in r.value ==> x in net
      ensures r.Success? ==> AllAnswered(log'[|log|..], target)
      ensures r.Failure? ==> log' == log + [Query(frontier[j].id, traveledNodes)] && ThrewAtLast(log'[|log|..], target)
      ensures r.Failure? ==> r.error == IndexOutOfRange
    {
      var node := frontier[j];
      queried', log', answers' := queried, log, answers;
      if node.id in queried {
        assert queried + {node.id} == queried;
        RoundAdvance(frontier, j, traveledNodes, queried0, queried, log0, log, log, answers, answers, currentNodes, currentNodes, all);
        return Success(currentNodes), queried', log', answers';
      }
      r, queried', log', answers' := QueryFresh(frontier, j, target, traveledNodes, queried, currentNodes, net,
                                                 queried0, log0, log, answers, all, tables0);
    }

    /** Frontier member j of a round, its id not queried yet: FindNode on it,
        its answer appended to the nodes collected. */
    method QueryFresh(frontier: seq<Node>, j: nat, target: Identifier, traveledNodes: seq<Node>, queried: set<Identifier>,
                      currentNodes: seq<Node>, ghost net: set<Node>, ghost queried0: set<Identifier>, ghost log0: seq<Query>,
                      ghost log: seq<Query>, ghost answers: seq<seq<Node>>, ghost all: seq<Query>,
                      ghost tables0: map<Node, seq<seq<Node>>>)
      returns (r: Result<seq<Node>>, queried': set<Identifier>, ghost log': seq<Query>, ghost answers': seq<seq<Node>>)
      requires NetworkValid(net) && j < |frontier| && frontier[j] in net && frontier[j].id !in queried
      requires forall x :: x in traveledNodes ==> x in net
      requires forall x :: x in currentNodes ==> x in net
      requires RoundState(frontier, j, traveledNodes, queried0, queried, log0, log, answers, currentNodes, all)
      requires Untouched(net, tables0, queried)
      modifies set n | n in net :: n.table
      ensures NetworkValid(net)
      ensures LogInvariant(log', queried', traveledNodes) && log0 <= log' && log <= log' && queried0 <= queried'
      ensures Untouched(net, tables0, queried') && answers' == answers + Replies(net, tables0, log'[|log|..], target)
      ensures log' <= all && |answers'| == |log'| - |log0|
      ensures r.Success? ==> RoundState(frontier, j + 1, traveledNodes, queried0, queried', log0, log', answers', r.value, all)
      ensures r.Success? ==> forall x :: x in r.value ==> x in net
      ensures r.Success? ==> AllAnswered(log'[|log|..], target)
      ensures r.Failure? ==> log' == log + [Query(frontier[j].id, traveledNodes)] && ThrewAtLast(log'[|log|..], target)
      ensures r.Failure? ==> r.error == IndexOutOfRange
    {
      var node := frontier[j];
      LogQueried(log, queried, traveledNodes, node.id);
      var response;
      response, log' := QueryPeer(node, target, traveledNodes, net, log);
      queried' := queried + {node.id};
      ReplyOf(net, tables0, node, target);
      OneQuery(net, tables0, log, log', Query(node.id, traveledNodes), target);
      if response.Failure? {
        answers' := answers + [[]];
        RoundStep(frontier, j, queried0, queried, traveledNodes);
        SplitPrefix(log, [Query(node.id, traveledNodes)], RoundQueries(frontier[j + 1..], queried', traveledNodes));
        return Failure(response.error), queried', log', answers';
      }
      FlattenSnoc(answers, response.value.closestNodes);
      answers' := answers + [response.value.closestNodes];
      r := Success(currentNodes + response.value.closestNodes);
      RoundAdvance(frontier, j, traveledNodes, queried0, queried, log0, log, log', answers, answers', currentNodes, r.value, all);
    }

    /** After frontier member j, the round's state holds for j + 1. */
    lemma RoundAdvance(frontier: seq<Node>, j: nat, traveled: seq<Node>, queried0: set<Identifier>, queried: set<Identifier>,
                       log0: seq<Query>, log: seq<Query>, log': seq<Query>, answers: seq<seq<Node>>, answers': seq<seq<Node>>,
                       currentNodes: seq<Node>, currentNodes': seq<Node>, all: seq<Query>)
      requires j < |frontier| && RoundState(frontier, j, traveled, queried0, queried, log0, log, answers, currentNodes, all)
      requires LogInvariant(log', queried + {frontier[j].id}, traveled)
      requires log' == log + (if frontier[j].id in queried then [] else [Query(frontier[j].id, traveled)])
      requires |answers'| == |log'| - |log0| && currentNodes' == Flatten(answers')
      ensures RoundState(frontier, j + 1, traveled, queried0, queried + {frontier[j].id}, log0, log', answers', currentNodes', all)
    {
      RoundStep(frontier, j, queried0, queried, traveled);
      var head := if frontier[j].id in queried then [] else [Query(frontier[j].id, traveled)];
      var rest := RoundQueries(frontier[j + 1..], queried + {frontier[j].id}, traveled);
      assert log + RoundQueries(frontier[j..], queried, traveled) == log + (head + rest) == log' + rest;
      assert log0 <= log <= log';
    }

    /** One round of Lookup: FindNode on every frontier member not queried
        yet, collecting what they return (the ForEach over
        alphaMaybeQueriedNodes). `answers` pairs each query sent with the
        nodes its peer returned. */
    method QueryRound(alphaMaybeQueriedNodes: seq<Node>, target: Identifier, traveledNodes: seq<Node>,
                      queried: set<Identifier>, ghost net: set<Node>, ghost log: seq<Query>,
                      ghost tables0: map<Node, seq<seq<Node>>>)
      returns (r: Result<seq<Node>>, queried': set<Identifier>, ghost log': seq<Query>, ghost answers: seq<seq<Node>>)
      requires NetworkValid(net)
      requires forall x :: x in alphaMaybeQueriedNodes ==> x in net
      requires forall x :: x in traveledNodes ==> x in net
      requires LogInvariant(log, queried, traveledNodes)
      requires Untouched(net, tables0, queried)
      modifies set n | n in net :: n.table
      ensures NetworkValid(net)
      ensures Untouched(net, tables0, queried')
      ensures LogInvariant(log', queried', traveledNodes) && log <= log' && queried <= queried'
      ensures log' <= log + RoundQueries(alphaMaybeQueriedNodes, queried, traveledNodes)
      ensures |answers| == |log'| - |log| && answers == Replies(net, tables0, log'[|log|..], target)
      ensures r.Success? ==> log' == log + RoundQueries(alphaMaybeQueriedNodes, queried, traveledNodes)
      ensures r.Success? ==> queried' == queried + Ids(alphaMaybeQueriedNodes)
      ensures r.Success? ==> r.value == Flatten(answers)
      ensures r.Success? ==> forall x :: x in r.value ==> x in net
      ensures r.Success? ==> AllAnswered(log'[|log|..], target)
      ensures r.Failure? ==> ThrewAtLast(log'[|log|..], target)
      ensures r.Failure? ==> r.error == IndexOutOfRange
    {
      var currentNodes: seq<Node> := [];
      queried', log', answers := queried, log, [];
      ghost var all := log + RoundQueries(alphaMaybeQueriedNodes, queried, traveledNodes);
      assert alphaMaybeQueriedNodes[0..] == alphaMaybeQueriedNodes && alphaMaybeQueriedNodes[..0] == [];
      assert log[|log|..] == [];
      var j := 0;
      while j < |alphaMaybeQueriedNodes|
        invariant 0 <= j <= |alphaMaybeQueriedNodes|
        invariant NetworkValid(net)
        invariant RoundState(alphaMaybeQueriedNodes, j, traveledNodes, queried, queried', log, log', answers, currentNodes, all)
        invariant forall x :: x in currentNodes ==> x in net
        invariant AllAnswered(log'[|log|..], target)
        invariant Untouched(net, tables0, queried') && answers == Replies(net, tables0, log'[|log|..], target)
      {
        var step;
        ghost var before := log';
        step, queried', log', answers := QueryMember(alphaMaybeQueriedNodes, j, target, traveledNodes, queried',
                                                     currentNodes, net, queried, log, log', answers, all, tables0);
        AnsweredAfter(log, before, log', target);
        RepliesAfter(net, tables0, log, before, log', target);
        if step.Failure? {
          return step, queried', log', answers;
        }
        currentNodes := step.value;
        j := j + 1;
      }
      assert alphaMaybeQueriedNodes[j..] == [] && alphaMaybeQueriedNodes[..j] == alphaMaybeQueriedNodes;
      r := Success(currentNodes);
    }

    /** Member j of a round, in terms of the round's queries: the queries
        left from j on start with its query exactly when its id is not
        queried yet, and the ids queried after it are those before it plus
        its own. */
    static lemma RoundStep(frontier: seq<Node>, j: nat, queried0: set<Identifier>, queried: set<Identifier>, traveled: seq<Node>)
      requires j < |frontier|
      ensures RoundQueries(frontier[j..], queried, traveled) ==
                (if frontier[j].id in queried then [] else [Query(frontier[j].id, traveled)]) +
                RoundQueries(frontier[j + 1..], queried + {frontier[j].id}, traveled)
      ensures queried0 + Ids(frontier[..j + 1]) == queried0 + Ids(frontier[..j]) + {frontier[j].id}
    {
      assert frontier[j..][0] == frontier[j] && frontier[j..][1..] == frontier[j + 1..];
      assert frontier[j].id in queried ==> queried + {frontier[j].id} == queried;
      assert frontier[..j + 1] == frontier[..j] + [frontier[j]];
    }

    /** The log during the final round, after its first j members: every
        peer is another node, handed `traveled`, and either queried before or
        one of those j members. */
    ghost predicate FinalLog(log: seq<Query>, queried: set<Identifier>, traveled: seq<Node>, ks: seq<Node>, j: nat)
    {
      forall q :: q in log ==> q.peer != id && q.traveled == traveled && q.peer.value < Pow2(M) &&
                               (q.peer in queried || exists i :: 0 <= i < j && i < |ks| && ks[i].id == q.peer)
    }

    /** Member j of the final round, not queried yet, is not in the log, and
        the log with its query appended is the log after j + 1 members. */
    lemma FinalLogStep(log: seq<Query>, queried: set<Identifier>, traveled: seq<Node>, ks: seq<Node>, j: nat)
      requires DistinctIds(ks) && j < |ks| && id in queried && ks[j].id !in queried && ks[j].id.value < Pow2(M)
      requires FinalLog(log, queried, traveled, ks, j)
      ensures forall q :: q in log ==> q.peer != ks[j].id
      ensures FinalLog(log + [Query(ks[j].id, traveled)], queried, traveled, ks, j + 1)
    {
      forall q | q in log ensures q.peer != ks[j].id {
        if q.peer !in queried {
          var i :| 0 <= i < j && ks[i].id == q.peer;
        }
      }
      forall q | q in log + [Query(ks[j].id, traveled)]
        ensures q.peer != id && q.traveled == traveled && q.peer.value < Pow2(M) &&
                (q.peer in queried || exists i :: 0 <= i < j + 1 && ks[i].id == q.peer)
      {
        if q in log {
          if q.peer !in queried {
            var i :| 0 <= i < j && ks[i].id == q.peer;
            assert 0 <= i < j + 1 && ks[i].id == q.peer;
          }
        } else {
          assert q == Query(ks[j].id, traveled);
        }
      }
    }

    /** A member already queried adds nothing to the final round's log. */
    lemma FinalLogSkip(log: seq<Query>, queried: set<Identifier>, traveled: seq<Node>, ks: seq<Node>, j: nat)
      requires j < |ks| && FinalLog(log, queried, traveled, ks, j)
      ensures FinalLog(log, queried, traveled, ks, j + 1)
    {
      forall q | q in log
        ensures q.peer in queried || exists i :: 0 <= i < j + 1 && ks[i].id == q.peer
      {
        if q.peer !in queried {
          var i :| 0 <= i < j && ks[i].id == q.peer;
          assert 0 <= i < j + 1 && ks[i].id == q.peer;
        }
      }
    }

    /** Member j of the final round, in terms of the round's queries. */
    static lemma FinalStep(ks: seq<Node>, j: nat, queried: set<Identifier>, traveled: seq<Node>)
      requires j < |ks|
      ensures FinalQueries(ks[j..], queried, traveled) ==
                (if ks[j].id in queried then [] else [Query(ks[j].id, traveled)]) + FinalQueries(ks[j + 1..], queried, traveled)
    {
      assert ks[j..][0] == ks[j] && ks[j..][1..] == ks[j + 1..];
    }

    /** The state of the final round after its first j members: the log
        keeps distinct peers, every query so far is one of FinalLog's, and
        the log followed by the queries still to come is `all`. */
    ghost predicate FinalState(ks: seq<Node>, j: nat, queried: set<Identifier>, traveled: seq<Node>,
                               log0: seq<Query>, log: seq<Query>, all: seq<Query>)
    {
      j <= |ks| && DistinctPeers(log) && log0 <= log &&
      FinalLog(log, queried, traveled, ks, j) &&
      log + FinalQueries(ks[j..], queried, traveled) == all
    }

    /** Member j of the final round: FindNode on it unless its id was
        queried during the rounds. */
    method FinalMember(kAbsoluteClosest: seq<Node>, j: nat, target: Identifier, traveledNodes: seq<Node>,
                       queried: set<Identifier>, ghost net: set<Node>, ghost log0: seq<Query>, ghost log: seq<Query>,
                       ghost all: seq<Query>)
      returns (outcome: Outcome, ghost log': seq<Query>)
      requires NetworkValid(net) && DistinctIds(kAbsoluteClosest) && j < |kAbsoluteClosest| && id in queried
      requires forall x :: x in kAbsoluteClosest ==> x in net
      requires forall x :: x in traveledNodes ==> x in net
      requires FinalState(kAbsoluteClosest, j, queried, traveledNodes, log0, log, all)
      modifies set n | n in net :: n.table
      ensures NetworkValid(net)
      ensures DistinctPeers(log') && log0 <= log' && log <= log' && log' <= all
      ensures FinalLog(log', queried, traveledNodes, kAbsoluteClosest, j + 1)
      ensures outcome == Done ==> FinalState(kAbsoluteClosest, j + 1, queried, traveledNodes, log0, log', all)
      ensures outcome == Done ==> AllAnswered(log'[|log|..], target)
      ensures outcome.Thrown? ==> log' == log + [Query(kAbsoluteClosest[j].id, traveledNodes)] && ThrewAtLast(log'[|log|..], target)
      ensures outcome.Thrown? ==> outcome.error == IndexOutOfRange
    {
      var node := kAbsoluteClosest[j];
      log', outcome := log, Done;
      if node.id in queried {
        FinalLogSkip(log, queried, traveledNodes, kAbsoluteClosest, j);
      } else {
        FinalLogStep(log, queried, traveledNodes, kAbsoluteClosest, j);
        var response;
        response, log' := QueryPeer(node, target, traveledNodes, net, log);
        OneQuery(net, map[], log, log', Query(node.id, traveledNodes), target);
        if response.Failure? {
          outcome := Thrown(response.error);
        }
      }
      FinalAdvance(kAbsoluteClosest, j, queried, traveledNodes, log0, log, log', all);
    }

    /** After member j of the final round, its state holds for j + 1. */
    lemma FinalAdvance(ks: seq<Node>, j: nat, queried: set<Identifier>, traveled: seq<Node>,
                       log0: seq<Query>, log: seq<Query>, log': seq<Query>, all: seq<Query>)
      requires j < |ks| && FinalState(ks, j, queried, traveled, log0, log, all)
      requires log' == log + (if ks[j].id in queried then [] else [Query(ks[j].id, traveled)])
      requires DistinctPeers(log') && FinalLog(log', queried, traveled, ks, j + 1)
      ensures FinalState(ks, j + 1, queried, traveled, log0, log', all) && log' <= all
    {
      FinalStep(ks, j, queried, traveled);
    }

    /** The final round: FindNode on every member of the result not queried
        yet; the queried set is not updated. */
    method FinalRound(kAbsoluteClosest: seq<Node>, target: Identifier, traveledNodes: seq<Node>,
                      queried: set<Identifier>, ghost net: set<Node>, ghost log: seq<Query>)
      returns (outcome: Outcome, ghost log': seq<Query>)
      requires NetworkValid(net) && DistinctIds(kAbsoluteClosest)
      requires forall x :: x in kAbsoluteClosest ==> x in net
      requires forall x :: x in traveledNodes ==> x in net
      requires LogInvariant(log, queried, traveledNodes)
      modifies set n | n in net :: n.table
      ensures NetworkValid(net)
      ensures DistinctPeers(log') && log <= log'
      ensures forall q :: q in log' ==> q.peer != id && q.traveled == traveledNodes && q.peer.value < Pow2(M)
      ensures log' <= log + FinalQueries(kAbsoluteClosest, queried, traveledNodes)
      ensures outcome == Done ==> log' == log + FinalQueries(kAbsoluteClosest, queried, traveledNodes)
      ensures outcome == Done ==> AllAnswered(log'[|log|..], target)
      ensures outcome.Thrown? ==> ThrewAtLast(log'[|log|..], target)
      ensures outcome.Thrown? ==> outcome.error == IndexOutOfRange
    {
      log' := log;
      ghost var all := log + FinalQueries(kAbsoluteClosest, queried, traveledNodes);
      FinalStart(kAbsoluteClosest, queried, traveledNodes, log, all);
      var j := 0;
      while j < |kAbsoluteClosest|
        invariant 0 <= j <= |kAbsoluteClosest|
        invariant NetworkValid(net)
        invariant FinalState(kAbsoluteClosest, j, queried, traveledNodes, log, log', all)
        invariant AllAnswered(log'[|log|..], target)
      {
        ghost var before := log';
        outcome, log' := FinalMember(kAbsoluteClosest, j, target, traveledNodes, queried, net, log, log', all);
        AnsweredAfter(log, before, log', target);
        if outcome.Thrown? {
          FinalEnd(kAbsoluteClosest, j + 1, queried, traveledNodes, log, log', all, false);
          return;
        }
        j := j + 1;
      }
      FinalEnd(kAbsoluteClosest, j, queried, traveledNodes, log, log', all, true);
      outcome := Done;
    }

    /** The final round starts from the log of the main loop. */
    lemma FinalStart(ks: seq<Node>, queried: set<Identifier>, traveled: seq<Node>, log: seq<Query>, all: seq<Query>)
      requires LogInvariant(log, queried, traveled) && all == log + FinalQueries(ks, queried, traveled)
      ensures FinalState(ks, 0, queried, traveled, log, log, all)
    {
      assert ks[0..] == ks;
    }

    /** Where the final round stops: the log it leaves behind. */
    lemma FinalEnd(ks: seq<Node>, j: nat, queried: set<Identifier>, traveled: seq<Node>,
                   log0: seq<Query>, log: seq<Query>, all: seq<Query>, done: bool)
      requires log <= all && FinalLog(log, queried, traveled, ks, j)
      requires done ==> j == |ks| && FinalState(ks, j, queried, traveled, log0, log, all)
      ensures forall q :: q in log ==> q.peer != id && q.traveled == traveled && q.peer.value < Pow2(M)
      ensures done ==> log == all
    {
      if done {
        assert ks[j..] == [];
      }
    }

    /** The iterative lookup. `net` is the network the peers belong to; `log`
        records each FindNode sent to a peer. Every queried peer answers
        from the buckets it held when the lookup began, so the result is the
        main loop's over those buckets, run from this node's own Alpha
        nearest. The lookup throws exactly when FindNode throws on this node
        or on a queried peer, that is when a peer's id is the target. */
    method Lookup(target: Identifier, ghost net: set<Node>) returns (r: Result<seq<Node>>, ghost log: seq<Query>)
      requires this in net && NetworkValid(net)
      modifies set n | n in net :: n.table
      ensures NetworkValid(net)
      ensures r.Failure? <==> target == id || id.DistanceTo(target) >= Pow2(M) || target in Peers(log)
      ensures r.Failure? ==> r.error == IndexOutOfRange
      ensures r.Success? ==> KClosest(id, old(table.buckets), target).Success?
      ensures r.Success? ==>
                var first := NearestAlpha(KClosest(id, old(table.buckets), target).value, DistanceKey(target));
                (first == [] ==> r.value == [] && log == []) &&
                (first != [] ==> var s := MainLoop(Start(first, id), net, old(Tables(net)), target, [this]);
                                 r.value == s.ks && log == s.log + FinalQueries(s.ks, s.queried, [this]) && Settled(s, target))
      ensures r.Success? ==> SortedBy(r.value, DistanceKey(target)) && NoDup(r.value) &&
                             (|r.value| <= K || |r.value| <= Alpha) &&
                             forall x :: x in r.value ==> x in net
      ensures r.Success? ==> forall x :: x in r.value ==> x.id == id || x.id in Peers(log)
      ensures ((forall i :: 0 <= i < |old(table.buckets)| ==> old(table.buckets)[i] == []) &&
               target != id && id.DistanceTo(target) < Pow2(M)) ==> r == Success([]) && log == []
      ensures DistinctPeers(log)
      ensures forall q :: q in log ==> q.peer != id && q.traveled == [this]
    {
      log := [];
      ghost var tables0 := Tables(net);
      var findNodeResponse := FindNodeInNetwork(target, [], net);
      if findNodeResponse.Failure? {
        return Failure(findNodeResponse.error), log;
      }
      var traveledNodes := findNodeResponse.value.traveledNodes;
      var myClosestNodes := NearestAlpha(findNodeResponse.value.closestNodes, DistanceKey(target));
      NearestAlphaProperties(findNodeResponse.value.closestNodes, DistanceKey(target));
      if |myClosestNodes| == 0 {
        return Success(myClosestNodes), log;
      }
      forall n | n in net && n.id !in {id} ensures n in tables0 && n.table.buckets == tables0[n] {
        TablesApart(net, Tables(net), n, this);
      }
      r, log := LookupRounds(myClosestNodes, target, net, tables0);
      ThrowsAtTargetOnly(id, log, target);
    }

    /** Where the main loop stands, as its invariant: the network is valid,
        the log keeps its invariant and every peer in it answered, the peers
        not queried yet hold the buckets `tables0` records, and the result is
        a non-empty, sorted, duplicate-free list of nodes of the network. */
    ghost predicate Exploring(s: LookupState, net: set<Node>, tables0: map<Node, seq<seq<Node>>>, target: Identifier)
      reads set n | n in net :: n.table
    {
      NetworkValid(net) && this in net &&
      LogInvariant(s.log, s.queried, [this]) && AllAnswered(s.log, target) && Untouched(net, tables0, s.queried) &&
      s.ks != [] && SortedBy(s.ks, DistanceKey(target)) && NoDup(s.ks) && (|s.ks| <= K || |s.ks| <= Alpha) &&
      (forall x :: x in s.ks ==> x in net) && (forall x :: x in s.frontier ==> x in net) && s.closest in net
    }

    /** One round of the main loop (the body of the do-while): the round's
        queries, the routing table update with what they returned, the stop
        rule, the merge and the next frontier. It is the round `Advance`
        describes, or it throws where a queried peer's id is the target. */
    method MainRound(kAbsoluteClosest: seq<Node>, closestNode: Node, alphaMaybeQueriedNodes: seq<Node>,
                     queriedIdentifiers: set<Identifier>, target: Identifier, ghost net: set<Node>, ghost log: seq<Query>,
                     ghost last: seq<Node>, ghost tables0: map<Node, seq<seq<Node>>>)
      returns (outcome: Outcome, kAbsoluteClosest': seq<Node>, closestNode': Node, alphaMaybeQueriedNodes': seq<Node>,
               queriedIdentifiers': set<Identifier>, hasCloserNodes: bool, ghost log': seq<Query>, ghost last': seq<Node>)
      requires Exploring(LookupState(kAbsoluteClosest, closestNode, alphaMaybeQueriedNodes, queriedIdentifiers, log, last, true),
                         net, tables0, target)
      modifies set n | n in net :: n.table
      ensures outcome.Done? ==>
                LookupState(kAbsoluteClosest', closestNode', alphaMaybeQueriedNodes', queriedIdentifiers', log', last', hasCloserNodes) ==
                Advance(LookupState(kAbsoluteClosest, closestNode, alphaMaybeQueriedNodes, queriedIdentifiers, log, last, true),
                        net, tables0, target, [this])
      ensures outcome.Done? ==>
                Exploring(LookupState(kAbsoluteClosest', closestNode', alphaMaybeQueriedNodes', queriedIdentifiers', log', last',
                                      hasCloserNodes), net, tables0, target)
      ensures outcome.Thrown? ==> NetworkValid(net) && ThrewAtLast(log', target) && outcome.error == IndexOutOfRange
      ensures outcome.Thrown? ==> DistinctPeers(log') && forall q :: q in log' ==> q.peer != id && q.traveled == [this] && q.peer.value < Pow2(M)
    {
      ghost var before := LookupState(kAbsoluteClosest, closestNode, alphaMaybeQueriedNodes, queriedIdentifiers, log, last, true);
      kAbsoluteClosest', closestNode', alphaMaybeQueriedNodes', hasCloserNodes := kAbsoluteClosest, closestNode, alphaMaybeQueriedNodes, true;
      var round;
      ghost var answers;
      round, queriedIdentifiers', log', answers := QueryRound(alphaMaybeQueriedNodes, target, [this], queriedIdentifiers,
                                                              net, log, tables0);
      AnsweredFrom(log, log', target);
      last' := [];
      if round.Failure? {
        return Thrown(round.error), kAbsoluteClosest', closestNode', alphaMaybeQueriedNodes', queriedIdentifiers', false, log', last';
      }
      var currentNodes := round.value;
      var _ := UpdateRoutingTableAllInNetwork(currentNodes, net);
      var runClosestNode := FirstWhere(currentNodes, CloserThan(target, closestNode));
      if runClosestNode.Some? {
        closestNode' := runClosestNode.value;
        MergeProperties(kAbsoluteClosest, currentNodes, DistanceKey(target));
        kAbsoluteClosest' := Merge(kAbsoluteClosest, currentNodes, DistanceKey(target));
        alphaMaybeQueriedNodes' := NextFrontier(kAbsoluteClosest', Unqueried(queriedIdentifiers'));
      } else {
        hasCloserNodes := false;
      }
      last' := currentNodes;
      outcome := Done;
      assert log'[|log|..] == RoundQueries(alphaMaybeQueriedNodes, queriedIdentifiers, [this]);
    }

    /** The main loop of Lookup from the first frontier: rounds until one
        finds no closer node. It ends in the state `MainLoop` describes, or
        throws where a queried peer's id is the target. */
    method Explore(myClosestNodes: seq<Node>, target: Identifier, ghost net: set<Node>, ghost tables0: map<Node, seq<seq<Node>>>)
      returns (outcome: Outcome, kAbsoluteClosest: seq<Node>, closestNode: Node, alphaMaybeQueriedNodes: seq<Node>,
               queriedIdentifiers: set<Identifier>, ghost log: seq<Query>, ghost last: seq<Node>)
      requires this in net && NetworkValid(net)
      requires myClosestNodes != [] && SortedBy(myClosestNodes, DistanceKey(target)) && NoDup(myClosestNodes)
      requires |myClosestNodes| <= Alpha && forall x :: x in myClosestNodes ==> x in net
      requires Untouched(net, tables0, {id})
      modifies set n | n in net :: n.table
      ensures outcome.Done? ==>
                var s := LookupState(kAbsoluteClosest, closestNode, alphaMaybeQueriedNodes, queriedIdentifiers, log, last, false);
                s == MainLoop(Start(myClosestNodes, id), net, tables0, target, [this]) && Exploring(s, net, tables0, target)
      ensures outcome.Thrown? ==> NetworkValid(net) && ThrewAtLast(log, target) && outcome.error == IndexOutOfRange
      ensures outcome.Thrown? ==> DistinctPeers(log) && forall q :: q in log ==> q.peer != id && q.traveled == [this] && q.peer.value < Pow2(M)
    {
      log := [];
      kAbsoluteClosest := myClosestNodes;
      closestNode := myClosestNodes[0];
      alphaMaybeQueriedNodes := myClosestNodes;
      queriedIdentifiers := {id};
      var hasCloserNodes := true;
      last := [];
      ghost var s0 := Start(myClosestNodes, id);
      while hasCloserNodes
        invariant Exploring(LookupState(kAbsoluteClosest, closestNode, alphaMaybeQueriedNodes, queriedIdentifiers, log, last,
                                        hasCloserNodes), net, tables0, target)
        invariant MainLoop(s0, net, tables0, target, [this]) ==
                    MainLoop(LookupState(kAbsoluteClosest, closestNode, alphaMaybeQueriedNodes, queriedIdentifiers, log, last,
                                         hasCloserNodes), net, tables0, target, [this])
        decreases if hasCloserNodes then closestNode.id.DistanceTo(target) + 1 else 0
      {
        outcome, kAbsoluteClosest, closestNode, alphaMaybeQueriedNodes, queriedIdentifiers, hasCloserNodes, log, last :=
          MainRound(kAbsoluteClosest, closestNode, alphaMaybeQueriedNodes, queriedIdentifiers, target, net, log, last, tables0);
        if outcome.Thrown? {
          return;
        }
      }
      outcome := Done;
    }

    /** Lookup once the first frontier is known (a non-empty answer of this
        node's own table): the main loop, then the final round. `tables0`
        holds the buckets of every peer not queried yet. */
    method LookupRounds(myClosestNodes: seq<Node>, target: Identifier, ghost net: set<Node>,
                        ghost tables0: map<Node, seq<seq<Node>>>)
      returns (r: Result<seq<Node>>, ghost log: seq<Query>)
      requires this in net && NetworkValid(net)
      requires myClosestNodes != [] && SortedBy(myClosestNodes, DistanceKey(target)) && NoDup(myClosestNodes)
      requires |myClosestNodes| <= Alpha && forall x :: x in myClosestNodes ==> x in net
      requires Untouched(net, tables0, {id})
      modifies set n | n in net :: n.table
      ensures NetworkValid(net)
      ensures r.Success? ==> var s := MainLoop(Start(myClosestNodes, id), net, tables0, target, [this]);
                             r.value == s.ks && log == s.log + FinalQueries(s.ks, s.queried, [this]) && Settled(s, target)
      ensures r.Success? ==> r.value != [] && SortedBy(r.value, DistanceKey(target)) && NoDup(r.value) &&
                             (|r.value| <= K || |r.value| <= Alpha) &&
                             forall x :: x in r.value ==> x in net
      ensures r.Success? ==> forall x :: x in r.value ==> x.id == id || x.id in Peers(log)
      ensures r.Success? ==> AllAnswered(log, target)
      ensures r.Failure? ==> ThrewAtLast(log, target) && r.error == IndexOutOfRange
      ensures DistinctPeers(log)
      ensures forall q :: q in log ==> q.peer != id && q.traveled == [this] && q.peer.value < Pow2(M)
    {
      var traveledNodes := [this];
      var outcome, kAbsoluteClosest, closestNode, alphaMaybeQueriedNodes, queriedIdentifiers;
      ghost var last;
      outcome, kAbsoluteClosest, closestNode, alphaMaybeQueriedNodes, queriedIdentifiers, log, last :=
        Explore(myClosestNodes, target, net, tables0);
      if outcome.Thrown? {
        return Failure(outcome.error), log;
      }
      ghost var s0 := Start(myClosestNodes, id);
      ghost var s := LookupState(kAbsoluteClosest, closestNode, alphaMaybeQueriedNodes, queriedIdentifiers, log, last, false);
      MainLoopLogged(s0, net, tables0, target, traveledNodes, {id});
      MainLoopStops(s0, net, tables0, target, traveledNodes);
      r, log := Conclude(kAbsoluteClosest, closestNode, alphaMaybeQueriedNodes, queriedIdentifiers, target, net, log, last, tables0);
    }

    /** The final round once the main loop has stopped in state `s`: FindNode
        on every member of the result not queried yet, then the result. */
    method Conclude(kAbsoluteClosest: seq<Node>, closestNode: Node, alphaMaybeQueriedNodes: seq<Node>,
                    queriedIdentifiers: set<Identifier>, target: Identifier, ghost net: set<Node>, ghost log: seq<Query>,
                    ghost last: seq<Node>, ghost tables0: map<Node, seq<seq<Node>>>)
      returns (r: Result<seq<Node>>, ghost log': seq<Query>)
      requires var s := LookupState(kAbsoluteClosest, closestNode, alphaMaybeQueriedNodes, queriedIdentifiers, log, last, false);
               Exploring(s, net, tables0, target) && Logged(s, {id}, [this])
      modifies set n | n in net :: n.table
      ensures NetworkValid(net)
      ensures r.Success? ==> r.value == kAbsoluteClosest && log' == log + FinalQueries(kAbsoluteClosest, queriedIdentifiers, [this])
      ensures r.Success? ==> forall x :: x in r.value ==> x.id == id || x.id in Peers(log')
      ensures r.Success? ==> AllAnswered(log', target)
      ensures r.Failure? ==> ThrewAtLast(log', target) && r.error == IndexOutOfRange
      ensures DistinctPeers(log')
      ensures forall q :: q in log' ==> q.peer != id && q.traveled == [this] && q.peer.value < Pow2(M)
    {
      ghost var s := LookupState(kAbsoluteClosest, closestNode, alphaMaybeQueriedNodes, queriedIdentifiers, log, last, false);
      NetworkDistinctIds(net, Tables(net), kAbsoluteClosest);
      LookupQueriesResult(s, id, [this]);
      var flush;
      flush, log' := FinalRound(kAbsoluteClosest, target, [this], queriedIdentifiers, net, log);
      AnsweredFrom(log, log', target);
      if flush.Thrown? {
        return Failure(flush.error), log';
      }
      r := Success(kAbsoluteClosest);
    }
  }
}
