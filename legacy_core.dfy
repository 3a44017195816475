/** The older C# routing core (csharp/Kademlia/Core/RoutingTable.cs and
    csharp/Kademlia/Core/Node.cs). Its buckets follow Bucket.Insert as written
    (`Buckets.CsInsert`, with the head's Ping answering true as Node.Ping
    does), so a bucket may grow past K and repeat a contact. The bucket is
    found by a search over powers of two, and the lookup differs from the
    documented one: its queried set starts empty, its traveled list
    accumulates every answer, and an empty local table throws. */
module LegacyCore {
  import opened Constants
  import opened Identifiers
  import opened Wrappers
  import opened ListOps
  import opened Buckets
  import opened Expansion
  import opened LookupSteps

  /** What FindNode hands back (csharp/Kademlia/Models/FindNodeResponse.cs). */
  datatype FindNodeResponse = FindNodeResponse(traveledNodes: seq<Node>, closestNodes: seq<Node>)

  /** The state a batch update reaches, and whether it ran to the end. */
  datatype Batch = Batch(buckets: seq<seq<Node>>, outcome: Outcome)

  // ---------------------------------------------------------------------
  // Bucket placement

  /** GetClosestBucket on a table of m buckets: distance 0 (the owner's own
      id) selects bucket 0, which a table without buckets does not have;
      otherwise the bucket i with 2^i <= d < 2^(i+1), and a distance past the
      last bucket throws ArgumentException. */
  function ClosestBucket(owner: Identifier, target: Identifier, m: nat): (r: Result<nat>)
    ensures owner == target ==> r == (if m > 0 then Success(0) else Failure(IndexOutOfRange))
    ensures owner != target ==> (r.Success? <==> owner.DistanceTo(target) < Pow2(m))
    ensures owner != target && r.Success? ==> r.value < m && Pow2(r.value) <= owner.DistanceTo(target) < Pow2(r.value + 1)
    ensures owner != target && r.Failure? ==> r.error == ArgumentException
  {
    DistanceZeroIffEqual(owner, target);
    var d := owner.DistanceTo(target);
    if d == 0 then (if m > 0 then Success(0) else Failure(IndexOutOfRange))
    else if d < Pow2(m) then
      FloorLog2Below(d, m);
      Success(FloorLog2(d))
    else Failure(ArgumentException)
  }

  /** Node x belongs in bucket i of owner's table. */
  ghost predicate InBucket(owner: Identifier, x: Node, i: nat)
  {
    Pow2(i) <= owner.DistanceTo(x.id) < Pow2(i + 1)
  }

  /** What the legacy table keeps: M buckets, every node in the bucket its
      distance from the owner names. Neither the capacity nor the absence of
      repetitions survives Bucket.Insert as written. */
  ghost predicate Placed(owner: Identifier, buckets: seq<seq<Node>>)
  {
    |buckets| == M &&
    forall i, x :: 0 <= i < |buckets| && x in buckets[i] ==> InBucket(owner, x, i)
  }

  ghost predicate StoredIn(buckets: seq<seq<Node>>, x: Node)
  {
    exists i :: 0 <= i < |buckets| && x in buckets[i]
  }

  // ---------------------------------------------------------------------
  // Insert

  /** RoutingTable.Insert on the table's buckets: the owner's own id is
      ignored; otherwise the bucket GetClosestBucket finds gets the as-written
      Bucket.Insert, and a distance past the last bucket throws. */
  function Inserted(owner: Identifier, buckets: seq<seq<Node>>, target: Node): (r: Result<seq<seq<Node>>>)
    ensures target.id == owner ==> r == Success(buckets)
    ensures r.Failure? <==> target.id != owner && owner.DistanceTo(target.id) >= Pow2(|buckets|)
    ensures r.Failure? ==> r.error == ArgumentException
    ensures r.Success? ==> |r.value| == |buckets|
    ensures r.Success? ==> forall j :: 0 <= j < |buckets| && !InBucket(owner, target, j) ==> r.value[j] == buckets[j]
  {
    if target.id == owner then Success(buckets)
    else
      var idx := ClosestBucket(owner, target.id, |buckets|);
      if idx.Failure? then Failure(idx.error)
      else
        assert forall j :: 0 <= j < |buckets| && !InBucket(owner, target, j) ==> j != idx.value;
        Success(buckets[idx.value := CsInsert(buckets[idx.value], target, true, K)])
  }

  /** Insert keeps every node in its bucket and stores nothing but the target
      beyond what was stored. The target ends up stored unless its bucket is
      full and does not hold it: then the live head is appended a second time
      and the target is dropped. */
  lemma InsertedKeepsPlaced(owner: Identifier, buckets: seq<seq<Node>>, target: Node)
    requires Placed(owner, buckets) && Inserted(owner, buckets, target).Success?
    ensures Placed(owner, Inserted(owner, buckets, target).value)
    ensures forall x :: StoredIn(Inserted(owner, buckets, target).value, x) ==> StoredIn(buckets, x) || x == target
    ensures target.id != owner ==>
              var i := ClosestBucket(owner, target.id, |buckets|).value;
              var r := Inserted(owner, buckets, target).value;
              (target in buckets[i] || |buckets[i]| != K ==> target in r[i] && |r[i]| == |buckets[i]| + (if target in buckets[i] then 0 else 1)) &&
              (target !in buckets[i] && |buckets[i]| == K ==> r[i] == buckets[i] + [buckets[i][0]])
  {
    var r := Inserted(owner, buckets, target).value;
    if target.id != owner {
      var i := ClosestBucket(owner, target.id, |buckets|).value;
      forall x | x in r[i] ensures x in buckets[i] || x == target {
        if target in buckets[i] {
          assert x in RemoveFirst(buckets[i], target) || x == target;
        }
      }
      forall x | StoredIn(r, x) ensures StoredIn(buckets, x) || x == target {
        var j :| 0 <= j < |r| && x in r[j];
      }
    }
  }

  /** The batch UpdateRoutingTable: inserts in sequence order and stops at the
      first insert that throws, keeping the inserts made before it. */
  function InsertedAll(owner: Identifier, buckets: seq<seq<Node>>, nodes: seq<Node>): Batch
    decreases |nodes|
  {
    if nodes == [] then Batch(buckets, Done)
    else
      var r := Inserted(owner, buckets, nodes[0]);
      if r.Failure? then Batch(buckets, Thrown(r.error))
      else InsertedAll(owner, r.value, nodes[1..])
  }

  lemma {:induction false} InsertedAllKeepsPlaced(owner: Identifier, buckets: seq<seq<Node>>, nodes: seq<Node>)
    requires Placed(owner, buckets)
    ensures Placed(owner, InsertedAll(owner, buckets, nodes).buckets)
    ensures forall x :: StoredIn(InsertedAll(owner, buckets, nodes).buckets, x) ==> StoredIn(buckets, x) || x in nodes
    ensures InsertedAll(owner, buckets, nodes).outcome.Thrown? ==> InsertedAll(owner, buckets, nodes).outcome.error == ArgumentException
    decreases |nodes|
  {
    if nodes != [] {
      var r := Inserted(owner, buckets, nodes[0]);
      if r.Success? {
        InsertedKeepsPlaced(owner, buckets, nodes[0]);
        InsertedAllKeepsPlaced(owner, r.value, nodes[1..]);
      }
    }
  }

  /** Ids below 2^M are never rejected, so a batch of them runs to the end. */
  lemma {:induction false} InsertedAllCompletes(owner: Identifier, buckets: seq<seq<Node>>, nodes: seq<Node>)
    requires |buckets| == M && owner.value < Pow2(M)
    requires forall x :: x in nodes ==> x.id.value < Pow2(M)
    ensures InsertedAll(owner, buckets, nodes).outcome == Done
    decreases |nodes|
  {
    if nodes != [] {
      DistanceBounded(owner, nodes[0].id, M);
      var r := Inserted(owner, buckets, nodes[0]);
      InsertedAllCompletes(owner, r.value, nodes[1..]);
    }
  }

  // ---------------------------------------------------------------------
  // GetKClosestTo

  /** GetKClosestTo on the table's buckets: the zig-zag walk from the bucket
      GetClosestBucket finds (Buckets.IndexOf gives back its index, the
      buckets being distinct objects), or the exception of the search. */
  function KClosest(owner: Identifier, buckets: seq<seq<Node>>, target: Identifier): Result<seq<Node>>
  {
    var idx := ClosestBucket(owner, target, |buckets|);
    if idx.Failure? then Failure(idx.error)
    else Success(Collect(buckets, idx.value, K))
  }

  /** The walk fails only for a table without buckets asked for the owner's
      id, or for a distance past the last bucket. It returns stored nodes, never
      the owner, starting with the whole target bucket; it returns every stored
      node when fewer than K are stored, and it is empty exactly when the
      table is. */
  lemma KClosestProperties(owner: Identifier, buckets: seq<seq<Node>>, target: Identifier)
    requires Placed(owner, buckets)
    ensures KClosest(owner, buckets, target).Failure? <==>
              (target == owner && M == 0) || (target != owner && owner.DistanceTo(target) >= Pow2(M))
    ensures KClosest(owner, buckets, target).Failure? ==>
              KClosest(owner, buckets, target).error == (if target == owner then IndexOutOfRange else ArgumentException)
    ensures KClosest(owner, buckets, target).Success? ==>
              var r := KClosest(owner, buckets, target).value;
              (forall x :: x in r ==> StoredIn(buckets, x) && x.id != owner) &&
              buckets[ClosestBucket(owner, target, M).value] <= r &&
              (|Flatten(buckets)| < K ==> multiset(r) == multiset(Flatten(buckets))) &&
              (r == [] <==> forall i :: 0 <= i < |buckets| ==> buckets[i] == [])
  {
    var k := KClosest(owner, buckets, target);
    if k.Success? {
      var i := ClosestBucket(owner, target, M).value;
      forall x | x in k.value ensures StoredIn(buckets, x) && x.id != owner {
        CollectFromBuckets(buckets, i, K, x);
        var j :| 0 <= j < |buckets| && x in buckets[j];
        DistanceZeroIffEqual(owner, x.id);
      }
      if |Flatten(buckets)| < K {
        CollectAllWhenFew(buckets, i, K);
      }
      if forall j :: 0 <= j < |buckets| ==> buckets[j] == [] {
        CollectEmpty(buckets, i, K);
      }
      var lo, hi, last := CollectWindow(buckets, i, K);
      if k.value == [] {
        assert |multiset(Flatten(buckets[lo..hi + 1]))| == 0;
        assert buckets[lo..hi + 1] == buckets;
        forall j | 0 <= j < |buckets| ensures buckets[j] == [] {
          FlattenCovers(buckets, j);
        }
      }
    }
  }

  /** The sort key of Lookup: distance to the target. */
  function DistanceKey(target: Identifier): Node -> int
  {
    (n: Node) => n.id.DistanceTo(target)
  }

  // ---------------------------------------------------------------------
  // The traveled list of a lookup

  /** One FindNode sent during a lookup: the queried peer and the traveled
      list it was handed. */
  datatype Query = Query(peer: Node, traveled: seq<Node>)

  /** No peer id is queried twice. */
  ghost predicate DistinctPeers(log: seq<Query>)
  {
    forall i, j :: 0 <= i < j < |log| ==> log[i].peer.id != log[j].peer.id
  }

  /** The traveled list of Lookup after the queries of `log`: each answer is
      the list handed over plus the peer, and the whole answer is appended to
      the list, so the list handed over is repeated. */
  function Traveled(log: seq<Query>): seq<Node>
  {
    if log == [] then []
    else
      var t := Traveled(log[..|log| - 1]);
      t + t + [log[|log| - 1].peer]
  }

  /** Every query of `log` was handed the traveled list its predecessors
      built. */
  ghost predicate Chained(log: seq<Query>)
  {
    log == [] || (Chained(log[..|log| - 1]) && log[|log| - 1].traveled == Traveled(log[..|log| - 1]))
  }

  /** After n queries the traveled list holds 2^n - 1 entries. */
  lemma {:induction false} TraveledLength(log: seq<Query>)
    ensures |Traveled(log)| == Pow2(|log|) - 1
  {
    if log != [] {
      TraveledLength(log[..|log| - 1]);
    }
  }

  /** From the second query on, the traveled list repeats an entry. */
  lemma TraveledRepeats(log: seq<Query>)
    requires |log| >= 2
    ensures !NoDup(Traveled(log))
  {
    var t := Traveled(log[..|log| - 1]);
    assert log[..|log| - 1][..|log| - 2] == log[..|log| - 2];
    assert |t| >= 1;
    assert Traveled(log)[0] == t[0] == Traveled(log)[|t|];
  }

  /** The log of a lookup's main loop so far: each peer id queried once and
      recorded as queried, each handed the traveled list its predecessors
      built, and the current list is the one all of them built. */
  ghost predicate LogInvariant(log: seq<Query>, queried: set<Identifier>, traveled: seq<Node>)
  {
    DistinctPeers(log) &&
    (forall q :: q in log ==> q.peer.id in queried) &&
    Chained(log) && traveled == Traveled(log)
  }

  /** Querying a new peer and appending its answer, the traveled list handed
      over plus the peer, keeps the log invariant. */
  lemma LogExtend(log: seq<Query>, queried: set<Identifier>, traveled: seq<Node>, node: Node)
    requires LogInvariant(log, queried, traveled) && node.id !in queried
    ensures LogInvariant(log + [Query(node, traveled)], queried + {node.id}, traveled + (traveled + [node]))
  {
    assert (log + [Query(node, traveled)])[..|log|] == log;
  }

  // ---------------------------------------------------------------------
  // The network

  /** The buckets of every table in the network, keyed by node. */
  ghost function Tables(net: set<Node>): (t: map<Node, seq<seq<Node>>>)
    reads set n | n in net :: n.table
    ensures t.Keys == net
  {
    map n | n in net :: n.table.buckets
  }

  /** The network a lookup runs in, given the buckets of every table: every
      node's table is its own and keeps its nodes placed, every stored peer is
      itself in the network, ids are below 2^M, and there is one node object
      per id. */
  ghost predicate ValidAt(net: set<Node>, tables: map<Node, seq<seq<Node>>>)
  {
    (forall n :: n in net ==> n in tables && n.table.owner == n.id && Placed(n.id, tables[n]) && n.id.value < Pow2(M)) &&
    (forall n, i, x :: n in net && n in tables && 0 <= i < |tables[n]| && x in tables[n][i] ==> x in net) &&
    (forall n, m :: n in net && m in net && n.id == m.id ==> n == m)
  }

  ghost predicate NetworkValid(net: set<Node>)
    reads set n | n in net :: n.table
  {
    ValidAt(net, Tables(net))
  }

  /** Changing one node's table within the rules of FindNode keeps the
      network valid. */
  lemma TableUpdateKeepsNetwork(net: set<Node>, before: map<Node, seq<seq<Node>>>, after: map<Node, seq<seq<Node>>>,
                                p: Node, nodes: seq<Node>)
    requires ValidAt(net, before) && p in net && after.Keys == net
    requires forall x :: x in nodes ==> x in net
    requires Placed(p.id, after[p])
    requires forall x :: StoredIn(after[p], x) ==> StoredIn(before[p], x) || x in nodes
    requires forall n :: n in net && n != p ==> after[n] == before[n]
    ensures ValidAt(net, after)
  {
    forall n, i, x | n in net && n in after && 0 <= i < |after[n]| && x in after[n][i] ensures x in net {
      if n == p {
        assert StoredIn(after[p], x);
        if StoredIn(before[p], x) {
          var i' :| 0 <= i' < |before[p]| && x in before[p][i'];
        }
      } else {
        assert x in before[n][i];
      }
    }
  }

  /** The log of the final round after its first j steps: peers stay
      distinct, every query it added was handed `traveled`, and every peer
      queried was queried in the main loop or is among the first j nodes. */
  ghost predicate Flushed(log: seq<Query>, base: seq<Query>, queried: set<Identifier>, s: seq<Node>, j: nat, traveled: seq<Node>)
  {
    DistinctPeers(log) && base <= log &&
    (forall k :: |base| <= k < |log| ==> log[k].traveled == traveled) &&
    forall q :: q in log ==> q.peer.id in queried || exists i :: 0 <= i < j && i < |s| && s[i].id == q.peer.id
  }

  /** The nodes a log queried. */
  ghost function Peers(log: seq<Query>): set<Node>
  {
    set q | q in log :: q.peer
  }

  /** The ids of the members of `s`. */
  ghost function Ids(s: seq<Node>): set<Identifier>
  {
    set x | x in s :: x.id
  }

  /** The ids of the peers a log queried. */
  ghost function PeerIds(log: seq<Query>): set<Identifier>
  {
    set q | q in log :: q.peer.id
  }

  /** The queries one round of the main loop sends, in order: FindNode to
      each frontier node whose id is not queried yet, the queried set growing
      as the round goes, each handed the traveled list as it stands, which
      every answer extends by the list handed over plus the peer. */
  ghost function RoundQueries(frontier: seq<Node>, queried: set<Identifier>, traveled: seq<Node>): seq<Query>
  {
    if frontier == [] then []
    else if frontier[0].id in queried then RoundQueries(frontier[1..], queried, traveled)
    else [Query(frontier[0], traveled)] +
         RoundQueries(frontier[1..], queried + {frontier[0].id}, traveled + (traveled + [frontier[0]]))
  }

  /** The queries of the final round, in order: FindNode to each result node
      whose id was not queried in the main loop, each handed the same
      traveled list; the queried set does not grow. */
  ghost function FinalQueries(ks: seq<Node>, queried: set<Identifier>, traveled: seq<Node>): seq<Query>
  {
    if ks == [] then []
    else (if ks[0].id in queried then [] else [Query(ks[0], traveled)]) + FinalQueries(ks[1..], queried, traveled)
  }

  /** No two of the nodes not yet queried carry the same id. */
  ghost predicate DistinctUnqueried(s: seq<Node>, queried: set<Identifier>)
  {
    forall i, j :: 0 <= i < j < |s| && s[j].id !in queried ==> s[i].id != s[j].id
  }

  /** In a valid network, a result that is duplicate-free, or whose ids were
      all queried, has no repeated id among its unqueried members. */
  lemma UnqueriedDistinct(net: set<Node>, tables: map<Node, seq<seq<Node>>>, s: seq<Node>, queried: set<Identifier>)
    requires ValidAt(net, tables) && forall x :: x in s ==> x in net
    requires NoDup(s) || forall x :: x in s ==> x.id in queried
    ensures DistinctUnqueried(s, queried)
  {
    if NoDup(s) {
      forall i, j | 0 <= i < j < |s| ensures s[i].id != s[j].id {
        assert s[i] != s[j];
      }
    }
  }

  /** A query to a peer whose id no later query carries keeps the peers
      distinct. */
  lemma DistinctCons(q: Query, tail: seq<Query>)
    requires DistinctPeers(tail) && forall p :: p in tail ==> p.peer.id != q.peer.id
    ensures DistinctPeers([q] + tail)
  {
    var all := [q] + tail;
    forall i, j | 0 <= i < j < |all| ensures all[i].peer.id != all[j].peer.id {
      assert all[j] == tail[j - 1];
      if i == 0 {
        assert all[j] in tail;
      } else {
        assert all[i] == tail[i - 1];
      }
    }
  }

  /** A round asks exactly the frontier ids not queried before it, each
      once, each time a node of the frontier. */
  lemma {:induction false} RoundQueriesAsked(frontier: seq<Node>, queried: set<Identifier>, traveled: seq<Node>)
    ensures forall p :: p in PeerIds(RoundQueries(frontier, queried, traveled)) <==> p in Ids(frontier) && p !in queried
    ensures DistinctPeers(RoundQueries(frontier, queried, traveled))
    ensures forall q :: q in RoundQueries(frontier, queried, traveled) ==> q.peer in frontier
  {
    if frontier != [] {
      var x, rest := frontier[0], frontier[1..];
      assert frontier == [x] + rest;
      assert Ids(frontier) == {x.id} + Ids(rest);
      if x.id in queried {
        RoundQueriesAsked(rest, queried, traveled);
      } else {
        var tail := RoundQueries(rest, queried + {x.id}, traveled + (traveled + [x]));
        RoundQueriesAsked(rest, queried + {x.id}, traveled + (traveled + [x]));
        assert PeerIds([Query(x, traveled)] + tail) == {x.id} + PeerIds(tail);
        forall q | q in tail ensures q.peer.id != x.id {
          assert q.peer.id in PeerIds(tail);
        }
        DistinctCons(Query(x, traveled), tail);
      }
    }
  }

  /** The final round asks exactly the result nodes whose ids were not
      queried in the main loop, each id once, each handed the same traveled
      list. */
  lemma {:induction false} FinalQueriesAsked(ks: seq<Node>, queried: set<Identifier>, traveled: seq<Node>)
    requires DistinctUnqueried(ks, queried)
    ensures forall x :: x in Peers(FinalQueries(ks, queried, traveled)) <==> x in ks && x.id !in queried
    ensures DistinctPeers(FinalQueries(ks, queried, traveled))
    ensures forall q :: q in FinalQueries(ks, queried, traveled) ==> q.traveled == traveled
  {
    if ks != [] {
      var x, rest := ks[0], ks[1..];
      assert ks == [x] + rest;
      assert DistinctUnqueried(rest, queried) by {
        forall i, j | 0 <= i < j < |rest| && rest[j].id !in queried ensures rest[i].id != rest[j].id {
          assert rest[i] == ks[i + 1] && rest[j] == ks[j + 1];
        }
      }
      var tail := FinalQueries(rest, queried, traveled);
      FinalQueriesAsked(rest, queried, traveled);
      if x.id !in queried {
        var all := [Query(x, traveled)] + tail;
        assert Peers(all) == {x} + Peers(tail);
        forall q | q in tail ensures q.peer.id != x.id {
          assert q.peer in Peers(tail);
          var m :| 0 <= m < |rest| && rest[m] == q.peer;
          assert ks[m + 1] == q.peer;
        }
        DistinctCons(Query(x, traveled), tail);
      } else {
        assert FinalQueries(ks, queried, traveled) == tail;
      }
    }
  }

  // ---------------------------------------------------------------------
  // The main loop of Lookup as a function of the network

  /** The answers a run of FindNode calls gave, in order, and the buckets of
      every table once they have run. */
  datatype Replayed = Replayed(answers: seq<seq<Node>>, tables: map<Node, seq<seq<Node>>>)

  /** One more FindNode, sent to `q.peer` with the traveled list `q.traveled`:
      the peer answers with the closest nodes its buckets hold as they stand,
      then inserts the traveled list into them. A peer without buckets in
      `r.tables`, or whose GetKClosestTo throws, answers nothing and keeps
      its buckets. */
  ghost function Replay(r: Replayed, q: Query, target: Identifier): (r': Replayed)
    ensures |r'.answers| == |r.answers| + 1 && r'.answers[..|r.answers|] == r.answers
    ensures r'.tables.Keys == r.tables.Keys
  {
    if q.peer !in r.tables then Replayed(r.answers + [[]], r.tables)
    else
      var k := KClosest(q.peer.id, r.tables[q.peer], target);
      if k.Failure? then Replayed(r.answers + [[]], r.tables)
      else Replayed(r.answers + [k.value], r.tables[q.peer := InsertedAll(q.peer.id, r.tables[q.peer], q.traveled).buckets])
  }

  /** A run of FindNode calls over the network whose buckets `tables`
      records, one answer per query. */
  ghost function Replies(tables: map<Node, seq<seq<Node>>>, qs: seq<Query>, target: Identifier): (r: Replayed)
    ensures |r.answers| == |qs| && r.tables.Keys == tables.Keys
  {
    if qs == [] then Replayed([], tables)
    else Replay(Replies(tables, qs[..|qs| - 1], target), qs[|qs| - 1], target)
  }

  /** A query that continues a log continues the run of its answers. */
  lemma RepliesStep(tables: map<Node, seq<seq<Node>>>, log0: seq<Query>, log: seq<Query>, q: Query, target: Identifier)
    requires log0 <= log
    ensures Replies(tables, (log + [q])[|log0|..], target) == Replay(Replies(tables, log[|log0|..], target), q, target)
  {
    assert (log + [q])[|log0|..] == log[|log0|..] + [q];
    assert (log[|log0|..] + [q])[..|log| - |log0|] == log[|log0|..];
  }

  /** Where the main loop of Lookup stands between two rounds: the result so
      far, the node closest to the target found so far, the next frontier,
      the ids queried, the buckets of every table, the queries sent, the nodes
      the last round brought back, and whether another round follows. */
  datatype LookupState = LookupState(ks: seq<Node>, closest: Node, frontier: seq<Node>, queried: set<Identifier>,
                                     tables: map<Node, seq<seq<Node>>>, log: seq<Query>, last: seq<Node>, going: bool)

  /** The filter of the stop rule: strictly closer to the target than `closest`. */
  function CloserThan(target: Identifier, closest: Node): Node -> bool
  {
    (n: Node) => n.id.DistanceTo(target) < closest.id.DistanceTo(target)
  }

  /** The filter of the next frontier: not queried yet. */
  function Unqueried(queried: set<Identifier>): Node -> bool
  {
    (n: Node) => n.id !in queried
  }

  /** The state before the first round: the first frontier is the result,
      its head the closest node, and nothing is queried yet. */
  ghost function Start(first: seq<Node>, tables: map<Node, seq<seq<Node>>>): LookupState
    requires first != []
  {
    LookupState(first, first[0], first, {}, tables, [], [], true)
  }

  /** One round of the main loop of `owner`'s lookup: FindNode on each
      frontier member not queried yet, each handed the traveled list as it
      stands; the nodes they bring back are inserted into the owner's table;
      then the stop rule, the merge into the K nearest and the next frontier.
      A round that goes on found a strictly closer node; a round that stops
      found none, and leaves the result as it was. */
  ghost function Advance(s: LookupState, owner: Node, target: Identifier): (r: LookupState)
    ensures r.going ==> s.going && r.closest.id.DistanceTo(target) < s.closest.id.DistanceTo(target)
    ensures s.going && !r.going ==>
              r.ks == s.ks && r.closest == s.closest &&
              forall x :: x in r.last ==> r.closest.id.DistanceTo(target) <= x.id.DistanceTo(target)
  {
    if !s.going then s
    else
      var qs := RoundQueries(s.frontier, s.queried, Traveled(s.log));
      var round := Replies(s.tables, qs, target);
      var current := Flatten(round.answers);
      var tables := if owner in round.tables
                    then round.tables[owner := InsertedAll(owner.id, round.tables[owner], current).buckets]
                    else round.tables;
      var queried := s.queried + Ids(s.frontier);
      var run := FirstWhere(current, CloserThan(target, s.closest));
      if run.None? then LookupState(s.ks, s.closest, s.frontier, queried, tables, s.log + qs, current, false)
      else
        var ks := Merge(s.ks, current, DistanceKey(target));
        LookupState(ks, run.value, NextFrontier(ks, Unqueried(queried)), queried, tables, s.log + qs, current, true)
  }

  /** The main loop: rounds until one finds no closer node. It ends because
      every round that goes on moves strictly closer to the target. */
  ghost function MainLoop(s: LookupState, owner: Node, target: Identifier): (r: LookupState)
    ensures !r.going
    decreases if s.going then s.closest.id.DistanceTo(target) + 1 else 0
  {
    if !s.going then s else MainLoop(Advance(s, owner, target), owner, target)
  }

  /** The log of a state: the ids queried are those of the log's peers, each
      queried once. */
  ghost predicate Logged(s: LookupState)
  {
    s.queried == PeerIds(s.log) && DistinctPeers(s.log)
  }

  /** Two logs with no peer id in common, each with distinct peers, have
      distinct peers together. */
  lemma DistinctAppend(a: seq<Query>, b: seq<Query>)
    requires DistinctPeers(a) && DistinctPeers(b) && PeerIds(a) !! PeerIds(b)
    ensures DistinctPeers(a + b) && PeerIds(a + b) == PeerIds(a) + PeerIds(b)
  {
    forall i, j | 0 <= i < j < |a + b| ensures (a + b)[i].peer.id != (a + b)[j].peer.id {
      if j >= |a| && i < |a| {
        assert (a + b)[i] == a[i] && (a + b)[j] == b[j - |a|];
        assert a[i] in a && b[j - |a|] in b;
        assert a[i].peer.id in PeerIds(a) && b[j - |a|].peer.id in PeerIds(b);
      } else if j < |a| {
        assert (a + b)[i] == a[i] && (a + b)[j] == a[j];
      } else {
        assert (a + b)[i] == b[i - |a|] && (a + b)[j] == b[j - |a|];
      }
    }
  }

  /** A round keeps the log: it queries each frontier id not queried before,
      once, and records exactly those ids. */
  lemma AdvanceLogged(s: LookupState, owner: Node, target: Identifier)
    requires Logged(s)
    ensures Logged(Advance(s, owner, target))
  {
    if s.going {
      var qs := RoundQueries(s.frontier, s.queried, Traveled(s.log));
      RoundQueriesAsked(s.frontier, s.queried, Traveled(s.log));
      DistinctAppend(s.log, qs);
      assert s.queried + Ids(s.frontier) == PeerIds(s.log + qs);
    }
  }

  /** The whole main loop keeps the log. */
  lemma {:induction false} MainLoopLogged(s: LookupState, owner: Node, target: Identifier)
    requires Logged(s)
    ensures Logged(MainLoop(s, owner, target))
    decreases if s.going then s.closest.id.DistanceTo(target) + 1 else 0
  {
    if s.going {
      AdvanceLogged(s, owner, target);
      MainLoopLogged(Advance(s, owner, target), owner, target);
    }
  }

  /** The result is non-empty, sorted by distance to the target, and its head
      is at least as close as the closest node. */
  ghost predicate Nearest(s: LookupState, target: Identifier)
  {
    s.ks != [] && SortedBy(s.ks, DistanceKey(target)) &&
    s.ks[0].id.DistanceTo(target) <= s.closest.id.DistanceTo(target)
  }

  /** A round keeps the result nearest-first. */
  lemma AdvanceNearest(s: LookupState, owner: Node, target: Identifier)
    requires Nearest(s, target)
    ensures Nearest(Advance(s, owner, target), target)
  {
    var r := Advance(s, owner, target);
    if r.going {
      var key := DistanceKey(target);
      MergeProperties(s.ks, r.last, key);
      MergeKeepsNearest(s.ks, r.last, key);
      if r.closest in r.ks {
        var i :| 0 <= i < |r.ks| && r.ks[i] == r.closest;
        assert i == 0 || key(r.ks[0]) <= key(r.ks[i]);
      } else {
        assert key(r.ks[0]) <= key(r.closest);
      }
    }
  }

  /** The stop rule: the result's head is at least as close to the target
      as every node the last round brought back. */
  ghost predicate Settled(s: LookupState, target: Identifier)
  {
    s.ks != [] && forall x :: x in s.last ==> s.ks[0].id.DistanceTo(target) <= x.id.DistanceTo(target)
  }

  /** The whole main loop keeps the result nearest-first and ends on the
      stop rule. */
  lemma {:induction false} MainLoopStops(s: LookupState, owner: Node, target: Identifier)
    requires Nearest(s, target) && s.going
    ensures Nearest(MainLoop(s, owner, target), target)
    ensures Settled(MainLoop(s, owner, target), target)
    decreases s.closest.id.DistanceTo(target)
  {
    var s' := Advance(s, owner, target);
    AdvanceNearest(s, owner, target);
    if s'.going {
      MainLoopStops(s', owner, target);
    }
  }

  /** After the final round every member of the result has been sent
      FindNode, in the main loop or in the final round. */
  lemma LookupQueriesResult(s: LookupState, traveled: seq<Node>)
    requires Logged(s) && DistinctUnqueried(s.ks, s.queried)
    ensures forall x :: x in s.ks ==> x.id in PeerIds(s.log + FinalQueries(s.ks, s.queried, traveled))
  {
    var fq := FinalQueries(s.ks, s.queried, traveled);
    FinalQueriesAsked(s.ks, s.queried, traveled);
    forall x | x in s.ks ensures x.id in PeerIds(s.log + fq) {
      if x.id in s.queried {
        var q :| q in s.log && q.peer.id == x.id;
        assert q in s.log + fq;
      } else {
        assert x in Peers(fq);
        var q :| q in fq && q.peer == x;
        assert q in s.log + fq;
      }
    }
  }

  // ---------------------------------------------------------------------
  // Classes

  class RoutingTable {
    /** The id of the node this table belongs to. */
    const owner: Identifier
    var buckets: seq<seq<Node>>

    ghost predicate Valid()
      reads this
    {
      Placed(owner, buckets)
    }

    ghost predicate Stores(x: Node)
      reads this
    {
      StoredIn(buckets, x)
    }

    /** M empty buckets. */
    constructor(owner: Identifier)
      ensures this.owner == owner
      ensures |buckets| == M && forall i :: 0 <= i < M ==> buckets[i] == []
      ensures Valid()
    {
      this.owner := owner;
      var bs: seq<seq<Node>> := [];
      var i := 0;
      while i < M
        invariant 0 <= i <= M && |bs| == i
        invariant forall j :: 0 <= j < i ==> bs[j] == []
      {
        bs := bs + [[]];
        i := i + 1;
      }
      buckets := bs;
    }

    /** The search for the bucket of a target: every power of two up to the
        last bucket is tried in turn. */
    method GetClosestBucket(target: Identifier) returns (r: Result<nat>)
      ensures r == ClosestBucket(owner, target, |buckets|)
    {
      var distance := owner.DistanceTo(target);
      DistanceZeroIffEqual(owner, target);
      if distance == 0 {
        if |buckets| == 0 {
          return Failure(IndexOutOfRange);
        }
        return Success(0);
      }
      var i := 0;
      while i < |buckets|
        invariant 0 <= i <= |buckets|
        invariant Pow2(i) <= distance
      {
        if Pow2(i) <= distance < Pow2(i + 1) {
          FloorLog2Unique(distance, i);
          Pow2Monotone(i + 1, |buckets|);
          return Success(i);
        }
        i := i + 1;
      }
      r := Failure(ArgumentException);
    }

    method Insert(target: Node) returns (outcome: Outcome)
      modifies this
      ensures var r := Inserted(owner, old(buckets), target);
              (r.Success? ==> outcome == Done && buckets == r.value) &&
              (r.Failure? ==> outcome == Thrown(r.error) && buckets == old(buckets))
    {
      if owner == target.id {
        return Done;
      }
      var idx := GetClosestBucket(target.id);
      if idx.Failure? {
        return Thrown(idx.error);
      }
      var i := idx.value;
      buckets := buckets[i := CsInsert(buckets[i], target, true, K)];
      outcome := Done;
    }

    /** The zig-zag walk, as the loop over left, right and direction. */
    method GetKClosestTo(target: Identifier) returns (r: Result<seq<Node>>)
      ensures r == KClosest(owner, buckets, target)
      ensures Valid() && r.Success? ==> forall x :: x in r.value ==> Stores(x) && x.id != owner
    {
      var idx := GetClosestBucket(target);
      if idx.Failure? {
        return Failure(idx.error);
      }
      var bucketIndex := idx.value;
      var kClosestNodes := buckets[bucketIndex];
      var goingLeft := true;
      var left: int := bucketIndex as int - 1;
      var right := bucketIndex + 1;
      while |kClosestNodes| < K
        invariant -1 <= left < right <= |buckets|
        invariant Expand(buckets, kClosestNodes, left, right, goingLeft, K) == Collect(buckets, bucketIndex, K)
        decreases 2 * (left + 1 + |buckets| - right) + (if Idle(buckets, left, right, goingLeft) then 1 else 0)
      {
        if goingLeft && left >= 0 {
          kClosestNodes := kClosestNodes + buckets[left];
          left := left - 1;
        }
        if !goingLeft && right < |buckets| {
          kClosestNodes := kClosestNodes + buckets[right];
          right := right + 1;
        }
        goingLeft := !goingLeft;
        if left < 0 && right >= |buckets| {
          break;
        }
      }
      r := Success(kClosestNodes);
      if Valid() {
        KClosestProperties(owner, buckets, target);
      }
    }
  }

  class Node {
    const id: Identifier
    const table: RoutingTable

    /** The table belongs to this node and keeps its nodes placed. */
    ghost predicate Valid()
      reads table
    {
      table.owner == id && table.Valid()
    }

    constructor(id: Identifier)
      ensures this.id == id && fresh(table)
      ensures forall i :: 0 <= i < |table.buckets| ==> table.buckets[i] == []
      ensures Valid()
    {
      this.id := id;
      table := new RoutingTable(id);
    }

    /** The liveness probe; every node answers it. */
    function Ping(): (alive: bool)
      ensures alive
    {
      true
    }

    /** No check of its own: the table ignores the node's own id. */
    method UpdateRoutingTable(node: Node) returns (outcome: Outcome)
      requires Valid()
      modifies table
      ensures Valid()
      ensures var r := Inserted(id, old(table.buckets), node);
              (r.Success? ==> outcome == Done && table.buckets == r.value) &&
              (r.Failure? ==> outcome == Thrown(r.error) && table.buckets == old(table.buckets))
    {
      outcome := table.Insert(node);
      if outcome.Done? {
        InsertedKeepsPlaced(id, old(table.buckets), node);
      }
    }

    /** The batch overload: one insert per node, in order. */
    method UpdateRoutingTableAll(nodes: seq<Node>) returns (outcome: Outcome)
      requires Valid()
      modifies table
      ensures Valid()
      ensures Batch(table.buckets, outcome) == InsertedAll(id, old(table.buckets), nodes)
      ensures forall x :: table.Stores(x) ==> StoredIn(old(table.buckets), x) || x in nodes
    {
      ghost var start := table.buckets;
      outcome := Done;
      var i := 0;
      while i < |nodes|
        invariant 0 <= i <= |nodes| && Valid()
        invariant InsertedAll(id, table.buckets, nodes[i..]) == InsertedAll(id, start, nodes)
        invariant outcome == Done
      {
        assert nodes[i..][1..] == nodes[i + 1..];
        outcome := UpdateRoutingTable(nodes[i]);
        if outcome.Thrown? {
          break;
        }
        i := i + 1;
      }
      assert Batch(table.buckets, outcome) == InsertedAll(id, start, nodes);
      forall x | table.Stores(x) ensures StoredIn(start, x) || x in nodes {
        InsertedAllKeepsPlaced(id, start, nodes);
      }
    }

    /** FindNode(FindNodeRequest): the closest known nodes are read before the
        request's traveled nodes are merged into the table, and this node is
        appended to the traveled list handed back. */
    method FindNode(target: Identifier, traveledNodes: seq<Node>) returns (r: Result<FindNodeResponse>)
      requires Valid()
      modifies table
      ensures Valid()
      ensures var k := KClosest(id, old(table.buckets), target);
              var u := InsertedAll(id, old(table.buckets), traveledNodes);
              (k.Failure? ==> r == Failure(k.error) && table.buckets == old(table.buckets)) &&
              (k.Success? ==> table.buckets == u.buckets &&
                              (u.outcome.Done? ==> r == Success(FindNodeResponse(traveledNodes + [this], k.value))) &&
                              (u.outcome.Thrown? ==> r == Failure(u.outcome.error)))
      ensures forall x :: table.Stores(x) ==> StoredIn(old(table.buckets), x) || x in traveledNodes
    {
      var closest := table.GetKClosestTo(target);
      if closest.Failure? {
        return Failure(closest.error);
      }
      var o := UpdateRoutingTableAll(traveledNodes);
      if o.Thrown? {
        return Failure(o.error);
      }
      r := Success(FindNodeResponse(traveledNodes + [this], closest.value));
    }

    /** FindNode sent to a peer of the network: the network stays valid, what
        comes back lies inside it, and only the target can make it throw. */
    method FindNodeInNetwork(target: Identifier, traveledNodes: seq<Node>, ghost net: set<Node>)
      returns (r: Result<FindNodeResponse>)
      requires this in net && NetworkValid(net)
      requires forall x :: x in traveledNodes ==> x in net
      modifies table
      ensures NetworkValid(net)
      ensures target.value >= Pow2(M) ==> r == Failure(ArgumentException)
      ensures target.value < Pow2(M) && M > 0 ==> r.Success?
      ensures r.Success? ==> r.value.traveledNodes == traveledNodes + [this] &&
                             (forall x :: x in r.value.closestNodes ==> x in net) &&
                             (r.value.closestNodes == [] <==> forall i :: 0 <= i < |old(table.buckets)| ==> old(table.buckets)[i] == [])
      ensures r.Success? ==> KClosest(id, old(table.buckets), target).Success? &&
                             r.value.closestNodes == KClosest(id, old(table.buckets), target).value &&
                             Tables(net) == old(Tables(net))[this := InsertedAll(id, old(table.buckets), traveledNodes).buckets]
    {
      ghost var before := Tables(net);
      KClosestProperties(id, table.buckets, target);
      InsertedAllCompletes(id, table.buckets, traveledNodes);
      if target.value >= Pow2(M) {
        DistanceAbove(id, target, M);
      } else {
        DistanceBounded(id, target, M);
      }
      r := FindNode(target, traveledNodes);
      ghost var after := Tables(net);
      forall n | n in net && n != this ensures after[n] == before[n] {
        assert n.table != table;
      }
      TableUpdateKeepsNetwork(net, before, after, this, traveledNodes);
      if r.Success? {
        assert after == before[this := table.buckets];
        forall x | x in r.value.closestNodes ensures x in net {
          var i :| 0 <= i < |before[this]| && x in before[this][i];
        }
      }
    }

    /** UpdateRoutingTable over peers of the network: the network stays valid
        and no insert throws. */
    method UpdateRoutingTableAllInNetwork(nodes: seq<Node>, ghost net: set<Node>) returns (outcome: Outcome)
      requires this in net && NetworkValid(net)
      requires forall x :: x in nodes ==> x in net
      modifies table
      ensures NetworkValid(net)
      ensures outcome == Done
      ensures Tables(net) == old(Tables(net))[this := InsertedAll(id, old(table.buckets), nodes).buckets]
    {
      ghost var before := Tables(net);
      outcome := UpdateRoutingTableAll(nodes);
      InsertedAllCompletes(id, before[this], nodes);
      ghost var after := Tables(net);
      forall n | n in net && n != this ensures after[n] == before[n] {
        assert n.table != table;
      }
      TableUpdateKeepsNetwork(net, before, after, this, nodes);
      assert after == before[this := table.buckets];
    }

    /** Appending a query to a peer not in the log keeps peers distinct. */
    static lemma LogAppend(log: seq<Query>, q: Query)
      requires DistinctPeers(log) && forall p :: p in log ==> p.peer.id != q.peer.id
      ensures DistinctPeers(log + [q])
    {
      forall i, j | 0 <= i < j < |log + [q]| ensures (log + [q])[i].peer.id != (log + [q])[j].peer.id {
        if j == |log| {
          assert (log + [q])[i] == log[i] && log[i] in log;
        } else {
          assert (log + [q])[i] == log[i] && (log + [q])[j] == log[j];
        }
      }
    }

    /** FindNode sent to one not yet queried peer during the main loop,
        recorded in the log. */
    method QueryPeer(node: Node, target: Identifier, traveledNodes: seq<Node>, queried: set<Identifier>,
                     ghost net: set<Node>, ghost log: seq<Query>)
      returns (response: Result<FindNodeResponse>, ghost log': seq<Query>)
      requires NetworkValid(net) && node in net
      requires forall x :: x in traveledNodes ==> x in net
      requires LogInvariant(log, queried, traveledNodes) && node.id !in queried
      modifies node.table
      ensures NetworkValid(net)
      ensures log' == log + [Query(node, traveledNodes)]
      ensures LogInvariant(log', queried + {node.id}, traveledNodes + (traveledNodes + [node]))
      ensures target.value < Pow2(M) && M > 0 ==> response.Success?
      ensures response.Success? ==> response.value.traveledNodes == traveledNodes + [node] &&
                                    forall x :: x in response.value.closestNodes ==> x in net
      ensures response.Success? ==>
                Replay(Replayed([], old(Tables(net))), Query(node, traveledNodes), target) ==
                Replayed([response.value.closestNodes], Tables(net))
    {
      response := node.FindNodeInNetwork(target, traveledNodes, net);
      LogExtend(log, queried, traveledNodes, node);
      log' := log + [Query(node, traveledNodes)];
    }

    /** FindNode sent to one peer during the final round, recorded in the
        log. */
    method FlushPeer(node: Node, target: Identifier, traveledNodes: seq<Node>, ghost net: set<Node>, ghost log: seq<Query>)
      returns (response: Result<FindNodeResponse>, ghost log': seq<Query>)
      requires NetworkValid(net) && node in net
      requires forall x :: x in traveledNodes ==> x in net
      requires DistinctPeers(log) && forall q :: q in log ==> q.peer.id != node.id
      modifies node.table
      ensures NetworkValid(net)
      ensures log' == log + [Query(node, traveledNodes)] && DistinctPeers(log')
      ensures target.value < Pow2(M) && M > 0 ==> response.Success?
    {
      response := node.FindNodeInNetwork(target, traveledNodes, net);
      LogAppend(log, Query(node, traveledNodes));
      log' := log + [Query(node, traveledNodes)];
    }

    /** One step of a round: FindNode on a frontier member unless its id
        was queried already; the answer's traveled list is appended to the
        lookup's and its closest nodes to the round's collection. */
    method QueryIfUnqueried(frontier: seq<Node>, j: nat, target: Identifier, traveledNodes: seq<Node>, queried: set<Identifier>,
                            currentNodes: seq<Node>, ghost net: set<Node>, ghost log: seq<Query>, ghost answers: seq<seq<Node>>)
      returns (r: Result<seq<Node>>, traveled': seq<Node>, queried': set<Identifier>, ghost log': seq<Query>,
               ghost answers': seq<seq<Node>>)
      requires NetworkValid(net) && j < |frontier| && frontier[j] in net
      requires forall i :: 0 <= i < j ==> frontier[i].id in queried
      requires forall x :: x in traveledNodes ==> x in net
      requires forall x :: x in currentNodes ==> x in net
      requires LogInvariant(log, queried, traveledNodes)
      modifies set n | n in net :: n.table
      ensures NetworkValid(net)
      ensures log' == log + (if frontier[j].id in queried then [] else [Query(frontier[j], traveledNodes)])
      ensures queried' == if r.Success? then queried + {frontier[j].id} else queried
      ensures r.Success? ==> forall i :: 0 <= i < j + 1 ==> frontier[i].id in queried'
      ensures DistinctPeers(log') && Chained(log')
      ensures answers <= answers' && |answers'| - |answers| == |log'| - |log|
      ensures r.Success? ==> r.value == currentNodes + Flatten(answers'[|answers|..])
      ensures r.Success? ==> traveled' == if frontier[j].id in queried then traveledNodes
                                          else traveledNodes + (traveledNodes + [frontier[j]])
      ensures r.Success? ==> LogInvariant(log', queried', traveled') && forall x :: x in r.value ==> x in net
      ensures forall x :: x in traveled' ==> x in net
      ensures target.value < Pow2(M) && M > 0 ==> r.Success?
      ensures r.Success? ==> Replayed(answers', Tables(net)) ==
                               if frontier[j].id in queried then Replayed(answers, old(Tables(net)))
                               else Replay(Replayed(answers, old(Tables(net))), Query(frontier[j], traveledNodes), target)
    {
      if frontier[j].id in queried {
        traveled', queried', log', answers' := traveledNodes, queried, log, answers;
        assert answers'[|answers|..] == [];
        return Success(currentNodes), traveled', queried', log', answers';
      }
      r, traveled', queried', log', answers' :=
        QueryFresh(frontier, j, target, traveledNodes, queried, currentNodes, net, log, answers);
    }

    /** QueryIfUnqueried on a frontier member whose id is not queried yet. */
    method QueryFresh(frontier: seq<Node>, j: nat, target: Identifier, traveledNodes: seq<Node>, queried: set<Identifier>,
                      currentNodes: seq<Node>, ghost net: set<Node>, ghost log: seq<Query>, ghost answers: seq<seq<Node>>)
      returns (r: Result<seq<Node>>, traveled': seq<Node>, queried': set<Identifier>, ghost log': seq<Query>,
               ghost answers': seq<seq<Node>>)
      requires NetworkValid(net) && j < |frontier| && frontier[j] in net
      requires forall i :: 0 <= i < j ==> frontier[i].id in queried
      requires forall x :: x in traveledNodes ==> x in net
      requires forall x :: x in currentNodes ==> x in net
      requires LogInvariant(log, queried, traveledNodes) && frontier[j].id !in queried
      modifies set n | n in net :: n.table
      ensures NetworkValid(net)
      ensures log' == log + [Query(frontier[j], traveledNodes)]
      ensures queried' == if r.Success? then queried + {frontier[j].id} else queried
      ensures r.Success? ==> forall i :: 0 <= i < j + 1 ==> frontier[i].id in queried'
      ensures DistinctPeers(log') && Chained(log')
      ensures answers <= answers' && |answers'| == |answers| + 1
      ensures r.Success? ==> r.value == currentNodes + Flatten(answers'[|answers|..])
      ensures r.Success? ==> traveled' == traveledNodes + (traveledNodes + [frontier[j]])
      ensures r.Success? ==> LogInvariant(log', queried', traveled') && forall x :: x in r.value ==> x in net
      ensures forall x :: x in traveled' ==> x in net
      ensures target.value < Pow2(M) && M > 0 ==> r.Success?
      ensures r.Success? ==> Replayed(answers', Tables(net)) ==
                               Replay(Replayed(answers, old(Tables(net))), Query(frontier[j], traveledNodes), target)
    {
      var node := frontier[j];
      traveled', queried', log', answers' := traveledNodes, queried, log, answers;
      var response;
      response, log' := QueryPeer(node, target, traveledNodes, queried, net, log);
      if response.Failure? {
        answers' := answers + [[]];
        return Failure(response.error), traveled', queried', log', answers';
      }
      queried' := queried + {node.id};
      traveled' := traveledNodes + response.value.traveledNodes;
      answers' := answers + [response.value.closestNodes];
      assert answers'[|answers|..] == [response.value.closestNodes];
      r := Success(currentNodes + response.value.closestNodes);
    }

    /** The state of a round after its first j frontier nodes: the log
        followed by the queries still to come is `all`, the ids queried are
        those before the round plus those j nodes', and the nodes collected are
        the answers so far, one answer per query sent. */
    static ghost predicate RoundState(frontier: seq<Node>, j: nat, queried0: set<Identifier>, queried: set<Identifier>,
                               traveled: seq<Node>, log0: seq<Query>, log: seq<Query>, answers: seq<seq<Node>>,
                               currentNodes: seq<Node>, all: seq<Query>)
    {
      j <= |frontier| && log0 <= log &&
      log + RoundQueries(frontier[j..], queried, traveled) == all &&
      queried == queried0 + Ids(frontier[..j]) &&
      currentNodes == Flatten(answers) && |answers| == |log| - |log0|
    }

    /** After frontier node j, the round's state holds for j + 1; a throw
        leaves the log a prefix of the round's queries. */
    static lemma RoundAdvance(frontier: seq<Node>, j: nat, queried0: set<Identifier>, queried: set<Identifier>,
                              traveled: seq<Node>, traveled': seq<Node>, log0: seq<Query>, log: seq<Query>, log': seq<Query>,
                              answers: seq<seq<Node>>, answers': seq<seq<Node>>, currentNodes: seq<Node>,
                              currentNodes': seq<Node>, all: seq<Query>, done: bool)
      requires j < |frontier| && RoundState(frontier, j, queried0, queried, traveled, log0, log, answers, currentNodes, all)
      requires log' == log + (if frontier[j].id in queried then [] else [Query(frontier[j], traveled)])
      requires answers <= answers' && |answers'| - |answers| == |log'| - |log|
      requires done ==> currentNodes' == currentNodes + Flatten(answers'[|answers|..])
      requires done ==> traveled' == if frontier[j].id in queried then traveled else traveled + (traveled + [frontier[j]])
      ensures log0 <= log' <= all && |answers'| == |log'| - |log0|
      ensures done ==> RoundState(frontier, j + 1, queried0, queried + {frontier[j].id}, traveled', log0, log', answers',
                                  currentNodes', all)
    {
      var x := frontier[j];
      RoundLogStep(frontier, j, queried, traveled, log, log', all);
      assert frontier[..j + 1] == frontier[..j] + [x];
      if done {
        CollectStep(answers, answers', currentNodes, currentNodes');
      }
    }

    /** The log after frontier node j, followed by the round's remaining
        queries, is still the whole round. */
    static lemma RoundLogStep(frontier: seq<Node>, j: nat, queried: set<Identifier>, traveled: seq<Node>,
                              log: seq<Query>, log': seq<Query>, all: seq<Query>)
      requires j < |frontier| && log + RoundQueries(frontier[j..], queried, traveled) == all
      requires log' == log + (if frontier[j].id in queried then [] else [Query(frontier[j], traveled)])
      ensures log <= log' <= all
      ensures log' + RoundQueries(frontier[j + 1..], queried + {frontier[j].id},
                                  if frontier[j].id in queried then traveled else traveled + (traveled + [frontier[j]])) == all
    {
      var x, f := frontier[j], frontier[j..];
      assert f[0] == x && f[1..] == frontier[j + 1..];
      var head: seq<Query> := if x.id in queried then [] else [Query(x, traveled)];
      if x.id in queried {
        assert queried + {x.id} == queried;
      }
      var rest := RoundQueries(frontier[j + 1..], queried + {x.id},
                               if x.id in queried then traveled else traveled + (traveled + [x]));
      assert RoundQueries(f, queried, traveled) == head + rest;
      SplitPrefix(log, head, rest);
    }


    /** Nodes collected so far plus the answers of one more step are the
        flattening of all the answers. */
    static lemma CollectStep(answers: seq<seq<Node>>, answers': seq<seq<Node>>, currentNodes: seq<Node>, currentNodes': seq<Node>)
      requires answers <= answers' && currentNodes == Flatten(answers)
      requires currentNodes' == currentNodes + Flatten(answers'[|answers|..])
      ensures currentNodes' == Flatten(answers')
    {
      assert answers' == answers + answers'[|answers|..];
      FlattenAppend(answers, answers'[|answers|..]);
    }

    /** One round of Lookup: FindNode on every frontier member not queried
        yet; each answer's traveled list is appended to the lookup's. */
    method QueryRound(alphaMaybeQueriedNodes: seq<Node>, target: Identifier, traveledNodes: seq<Node>,
                      queried: set<Identifier>, ghost net: set<Node>, ghost log: seq<Query>)
      returns (r: Result<seq<Node>>, traveled': seq<Node>, queried': set<Identifier>, ghost log': seq<Query>,
               ghost answers: seq<seq<Node>>)
      requires NetworkValid(net)
      requires forall x :: x in alphaMaybeQueriedNodes ==> x in net
      requires forall x :: x in traveledNodes ==> x in net
      requires LogInvariant(log, queried, traveledNodes)
      modifies set n | n in net :: n.table
      ensures NetworkValid(net)
      ensures DistinctPeers(log') && Chained(log') && log <= log' && queried <= queried'
      ensures log' <= log + RoundQueries(alphaMaybeQueriedNodes, queried, traveledNodes)
      ensures |answers| == |log'| - |log|
      ensures r.Success? ==> log' == log + RoundQueries(alphaMaybeQueriedNodes, queried, traveledNodes)
      ensures r.Success? ==> queried' == queried + Ids(alphaMaybeQueriedNodes)
      ensures r.Success? ==> r.value == Flatten(answers)
      ensures r.Success? ==> LogInvariant(log', queried', traveled')
      ensures forall x :: x in traveled' ==> x in net
      ensures target.value < Pow2(M) && M > 0 ==> r.Success?
      ensures r.Success? ==> (forall x :: x in r.value ==> x in net) &&
                             forall x :: x in alphaMaybeQueriedNodes ==> x.id in queried'
      ensures r.Success? ==> Replies(old(Tables(net)), RoundQueries(alphaMaybeQueriedNodes, queried, traveledNodes), target) ==
                             Replayed(answers, Tables(net))
    {
      var currentNodes: seq<Node> := [];
      traveled', queried', log', answers := traveledNodes, queried, log, [];
      ghost var tables0 := Tables(net);
      ghost var all := log + RoundQueries(alphaMaybeQueriedNodes, queried, traveledNodes);
      RoundStart(alphaMaybeQueriedNodes, queried, traveledNodes, log, all);
      assert log[|log|..] == [];
      var j := 0;
      while j < |alphaMaybeQueriedNodes|
        invariant 0 <= j <= |alphaMaybeQueriedNodes|
        invariant NetworkValid(net)
        invariant LogInvariant(log', queried', traveled')
        invariant RoundState(alphaMaybeQueriedNodes, j, queried, queried', traveled', log, log', answers, currentNodes, all)
        invariant forall x :: x in traveled' ==> x in net
        invariant forall x :: x in currentNodes ==> x in net
        invariant forall i :: 0 <= i < j ==> alphaMaybeQueriedNodes[i].id in queried'
        invariant Replies(tables0, log'[|log|..], target) == Replayed(answers, Tables(net))
      {
        var step;
        step, traveled', queried', log', answers :=
          RoundMember(alphaMaybeQueriedNodes, j, target, traveled', queried', currentNodes, net, queried, log, log', answers, all, tables0);
        if step.Failure? {
          return Failure(step.error), traveled', queried', log', answers;
        }
        currentNodes := step.value;
        j := j + 1;
      }
      RoundEnd(alphaMaybeQueriedNodes, j, queried, queried', traveled', log, log', answers, currentNodes, all);
      assert log'[|log|..] == RoundQueries(alphaMaybeQueriedNodes, queried, traveledNodes);
      r := Success(currentNodes);
    }

    /** Frontier node j of a round, carrying the round's state to j + 1. */
    method RoundMember(frontier: seq<Node>, j: nat, target: Identifier, traveledNodes: seq<Node>, queried: set<Identifier>,
                       currentNodes: seq<Node>, ghost net: set<Node>, ghost queried0: set<Identifier>, ghost log0: seq<Query>,
                       ghost log: seq<Query>, ghost answers: seq<seq<Node>>, ghost all: seq<Query>,
                       ghost tables0: map<Node, seq<seq<Node>>>)
      returns (r: Result<seq<Node>>, traveled': seq<Node>, queried': set<Identifier>, ghost log': seq<Query>,
               ghost answers': seq<seq<Node>>)
      requires NetworkValid(net) && j < |frontier| && frontier[j] in net
      requires forall i :: 0 <= i < j ==> frontier[i].id in queried
      requires forall x :: x in traveledNodes ==> x in net
      requires forall x :: x in currentNodes ==> x in net
      requires LogInvariant(log, queried, traveledNodes)
      requires RoundState(frontier, j, queried0, queried, traveledNodes, log0, log, answers, currentNodes, all)
      requires Replies(tables0, log[|log0|..], target) == Replayed(answers, Tables(net))
      modifies set n | n in net :: n.table
      ensures NetworkValid(net)
      ensures DistinctPeers(log') && Chained(log') && queried <= queried'
      ensures log0 <= log' <= all && |answers'| == |log'| - |log0|
      ensures forall x :: x in traveled' ==> x in net
      ensures target.value < Pow2(M) && M > 0 ==> r.Success?
      ensures r.Success? ==> LogInvariant(log', queried', traveled') && (forall x :: x in r.value ==> x in net) &&
                             RoundState(frontier, j + 1, queried0, queried', traveled', log0, log', answers', r.value, all)
      ensures r.Success? ==> forall i :: 0 <= i < j + 1 ==> frontier[i].id in queried'
      ensures r.Success? ==> Replies(tables0, log'[|log0|..], target) == Replayed(answers', Tables(net))
    {
      ghost var before := Tables(net);
      r, traveled', queried', log', answers' :=
        QueryIfUnqueried(frontier, j, target, traveledNodes, queried, currentNodes, net, log, answers);
      if r.Success? {
        ReplayStep(tables0, log0, log, log', answers, answers', before, Tables(net), Query(frontier[j], traveledNodes),
                   frontier[j].id in queried, target);
      }
      RoundAdvance(frontier, j, queried0, queried, traveledNodes, traveled', log0, log, log', answers, answers',
                   currentNodes, if r.Success? then r.value else [], all, r.Success?);
    }

    /** A step of a round that skipped its node or sent one query carries
        the run of the round's answers along. */
    static lemma ReplayStep(tables0: map<Node, seq<seq<Node>>>, log0: seq<Query>, log: seq<Query>, log': seq<Query>,
                            answers: seq<seq<Node>>, answers': seq<seq<Node>>, before: map<Node, seq<seq<Node>>>,
                            after: map<Node, seq<seq<Node>>>, q: Query, skipped: bool, target: Identifier)
      requires log0 <= log && Replies(tables0, log[|log0|..], target) == Replayed(answers, before)
      requires log' == log + (if skipped then [] else [q])
      requires Replayed(answers', after) == if skipped then Replayed(answers, before) else Replay(Replayed(answers, before), q, target)
      ensures Replies(tables0, log'[|log0|..], target) == Replayed(answers', after)
    {
      if skipped {
        assert log' == log;
      } else {
        RepliesStep(tables0, log0, log, q, target);
      }
    }

    /** A round starts with nothing sent and nothing collected. */
    static lemma RoundStart(frontier: seq<Node>, queried: set<Identifier>, traveled: seq<Node>, log: seq<Query>, all: seq<Query>)
      requires all == log + RoundQueries(frontier, queried, traveled)
      ensures RoundState(frontier, 0, queried, queried, traveled, log, log, [], [], all)
    {
      assert frontier[0..] == frontier && frontier[..0] == [];
    }

    /** A round that reaches the end of its frontier has sent all its
        queries. */
    static lemma RoundEnd(frontier: seq<Node>, j: nat, queried0: set<Identifier>, queried: set<Identifier>, traveled: seq<Node>,
                          log0: seq<Query>, log: seq<Query>, answers: seq<seq<Node>>, currentNodes: seq<Node>, all: seq<Query>)
      requires j == |frontier| && RoundState(frontier, j, queried0, queried, traveled, log0, log, answers, currentNodes, all)
      ensures log == all && queried == queried0 + Ids(frontier)
    {
      assert frontier[j..] == [] && frontier[..j] == frontier;
    }

    /** The final round: FindNode on every member of the result not queried
        yet, handing each the lookup's traveled list; the queried set is not
        updated and the answers are discarded. */
    method FinalRound(kAbsoluteClosest: seq<Node>, target: Identifier, traveledNodes: seq<Node>,
                      queried: set<Identifier>, ghost net: set<Node>, ghost log: seq<Query>)
      returns (outcome: Outcome, ghost log': seq<Query>)
      requires NetworkValid(net) && DistinctUnqueried(kAbsoluteClosest, queried)
      requires forall x :: x in kAbsoluteClosest ==> x in net
      requires forall x :: x in traveledNodes ==> x in net
      requires DistinctPeers(log) && forall q :: q in log ==> q.peer.id in queried
      modifies set n | n in net :: n.table
      ensures NetworkValid(net)
      ensures DistinctPeers(log') && log <= log'
      ensures forall k :: |log| <= k < |log'| ==> log'[k].traveled == traveledNodes
      ensures log' <= log + FinalQueries(kAbsoluteClosest, queried, traveledNodes)
      ensures outcome == Done ==> log' == log + FinalQueries(kAbsoluteClosest, queried, traveledNodes)
      ensures target.value < Pow2(M) && M > 0 ==> outcome == Done
    {
      log' := log;
      ghost var all := log + FinalQueries(kAbsoluteClosest, queried, traveledNodes);
      assert kAbsoluteClosest[0..] == kAbsoluteClosest;
      var j := 0;
      while j < |kAbsoluteClosest|
        invariant 0 <= j <= |kAbsoluteClosest|
        invariant NetworkValid(net)
        invariant Flushed(log', log, queried, kAbsoluteClosest, j, traveledNodes)
        invariant log' + FinalQueries(kAbsoluteClosest[j..], queried, traveledNodes) == all
      {
        ghost var before := log';
        outcome, log' := FlushIfUnqueried(kAbsoluteClosest, j, target, traveledNodes, queried, net, log, log');
        FinalAdvance(kAbsoluteClosest, j, queried, traveledNodes, before, log', all);
        if outcome.Thrown? {
          return outcome, log';
        }
        j := j + 1;
      }
      assert kAbsoluteClosest[j..] == [];
      outcome := Done;
    }

    /** Node j of the final round, in terms of the round's queries. */
    static lemma FinalStep(ks: seq<Node>, j: nat, queried: set<Identifier>, traveled: seq<Node>)
      requires j < |ks|
      ensures FinalQueries(ks[j..], queried, traveled) ==
                (if ks[j].id in queried then [] else [Query(ks[j], traveled)]) + FinalQueries(ks[j + 1..], queried, traveled)
    {
      assert ks[j..][0] == ks[j] && ks[j..][1..] == ks[j + 1..];
    }

    /** After node j of the final round, the log followed by the queries
        still to come is still the whole round's log. */
    static lemma FinalAdvance(ks: seq<Node>, j: nat, queried: set<Identifier>, traveled: seq<Node>,
                              log: seq<Query>, log': seq<Query>, all: seq<Query>)
      requires j < |ks| && log + FinalQueries(ks[j..], queried, traveled) == all
      requires log' == log + (if ks[j].id in queried then [] else [Query(ks[j], traveled)])
      ensures log' + FinalQueries(ks[j + 1..], queried, traveled) == all && log' <= all
    {
      FinalStep(ks, j, queried, traveled);
    }

    /** One step of the final round: FindNode on the j-th result node unless
        its id was queried in the main loop. */
    method FlushIfUnqueried(kAbsoluteClosest: seq<Node>, j: nat, target: Identifier, traveledNodes: seq<Node>,
                            queried: set<Identifier>, ghost net: set<Node>, ghost base: seq<Query>, ghost log: seq<Query>)
      returns (outcome: Outcome, ghost log': seq<Query>)
      requires j < |kAbsoluteClosest| && NetworkValid(net) && DistinctUnqueried(kAbsoluteClosest, queried)
      requires forall x :: x in kAbsoluteClosest ==> x in net
      requires forall x :: x in traveledNodes ==> x in net
      requires Flushed(log, base, queried, kAbsoluteClosest, j, traveledNodes)
      modifies set n | n in net :: n.table
      ensures NetworkValid(net)
      ensures Flushed(log', base, queried, kAbsoluteClosest, j + 1, traveledNodes)
      ensures log' == log + (if kAbsoluteClosest[j].id in queried then [] else [Query(kAbsoluteClosest[j], traveledNodes)])
      ensures target.value < Pow2(M) && M > 0 ==> outcome == Done
    {
      var node := kAbsoluteClosest[j];
      log', outcome := log, Done;
      if node.id !in queried {
        forall q | q in log ensures q.peer.id != node.id {
          if q.peer.id !in queried {
            var i :| 0 <= i < j && kAbsoluteClosest[i].id == q.peer.id;
          }
        }
        var response;
        response, log' := FlushPeer(node, target, traveledNodes, net, log);
        if response.Failure? {
          outcome := Thrown(response.error);
        }
      }
      forall q | q in log' ensures q.peer.id in queried || exists i :: 0 <= i < j + 1 && kAbsoluteClosest[i].id == q.peer.id {
        if q.peer.id !in queried && q !in log {
          assert kAbsoluteClosest[j].id == q.peer.id;
        }
      }
    }

    /** Where the main loop of this node's lookup stands, in a valid network:
        the state's tables are the network's, its log and the traveled list
        agree, the result is non-empty, sorted, bounded and inside the
        network, and it repeats no node unless it is still the first frontier
        (while going on) or all of its ids were queried (once stopped). */
    ghost predicate Exploring(s: LookupState, traveled: seq<Node>, net: set<Node>, target: Identifier)
      reads set n | n in net :: n.table
    {
      NetworkValid(net) && this in net && Tables(net) == s.tables &&
      LogInvariant(s.log, s.queried, traveled) && (forall x :: x in traveled ==> x in net) &&
      s.ks != [] && SortedBy(s.ks, DistanceKey(target)) && (|s.ks| <= K || |s.ks| <= Alpha) &&
      (forall x :: x in s.ks ==> x in net) && (forall x :: x in s.frontier ==> x in net) && s.closest in net &&
      if s.going then NoDup(s.ks) || s.ks == s.frontier
      else NoDup(s.ks) || forall x :: x in s.ks ==> x.id in s.queried
    }

    /** One round of the main loop: query the frontier, insert what comes
        back into this node's table, and merge it into the result when it
        holds a strictly closer node. It takes the state where Advance does. */
    method MainRound(kAbsoluteClosest: seq<Node>, closestNode: Node, alphaMaybeQueriedNodes: seq<Node>, traveledNodes: seq<Node>,
                     queriedIdentifiers: set<Identifier>, target: Identifier, ghost net: set<Node>,
                     ghost tables: map<Node, seq<seq<Node>>>, ghost log: seq<Query>, ghost last: seq<Node>)
      returns (kAbsoluteClosest': seq<Node>, closestNode': Node, alphaMaybeQueriedNodes': seq<Node>, traveledNodes': seq<Node>,
               queriedIdentifiers': set<Identifier>, hasCloserNodes: bool,
               ghost tables': map<Node, seq<seq<Node>>>, ghost log': seq<Query>, ghost last': seq<Node>)
      requires target.value < Pow2(M) && M > 0
      requires Exploring(LookupState(kAbsoluteClosest, closestNode, alphaMaybeQueriedNodes, queriedIdentifiers, tables, log, last, true),
                         traveledNodes, net, target)
      modifies set n | n in net :: n.table
      ensures var s' := LookupState(kAbsoluteClosest', closestNode', alphaMaybeQueriedNodes', queriedIdentifiers', tables', log', last',
                                    hasCloserNodes);
              s' == Advance(LookupState(kAbsoluteClosest, closestNode, alphaMaybeQueriedNodes, queriedIdentifiers, tables, log, last,
                                        true), this, target) &&
              Exploring(s', traveledNodes', net, target)
    {
      var round;
      ghost var answers;
      round, traveledNodes', queriedIdentifiers', log', answers :=
        QueryRound(alphaMaybeQueriedNodes, target, traveledNodes, queriedIdentifiers, net, log);
      var currentNodes := round.value;
      var _ := UpdateRoutingTableAllInNetwork(currentNodes, net);
      var runClosestNode := FirstWhere(currentNodes, CloserThan(target, closestNode));
      kAbsoluteClosest', closestNode', alphaMaybeQueriedNodes' := kAbsoluteClosest, closestNode, alphaMaybeQueriedNodes;
      if runClosestNode.Some? {
        closestNode' := runClosestNode.value;
        MergeProperties(kAbsoluteClosest, currentNodes, DistanceKey(target));
        kAbsoluteClosest' := Merge(kAbsoluteClosest, currentNodes, DistanceKey(target));
        alphaMaybeQueriedNodes' := NextFrontier(kAbsoluteClosest', Unqueried(queriedIdentifiers'));
        hasCloserNodes := true;
      } else {
        hasCloserNodes := false;
      }
      tables', last' := Tables(net), currentNodes;
    }

    /** The main loop of Lookup, from the first frontier on: query the
        frontier, merge what comes back while it holds a strictly closer node,
        and stop at the first round that does not. It computes MainLoop over
        the network as it stood. */
    method Converge(myClosestNodes: seq<Node>, target: Identifier, ghost net: set<Node>)
      returns (kAbsoluteClosest: seq<Node>, traveledNodes: seq<Node>, queriedIdentifiers: set<Identifier>, ghost log: seq<Query>,
               ghost last: seq<Node>)
      requires this in net && NetworkValid(net)
      requires target.value < Pow2(M) && M > 0
      requires myClosestNodes != [] && SortedBy(myClosestNodes, DistanceKey(target)) && |myClosestNodes| <= Alpha
      requires forall x :: x in myClosestNodes ==> x in net
      modifies set n | n in net :: n.table
      ensures var s := MainLoop(Start(myClosestNodes, old(Tables(net))), this, target);
              kAbsoluteClosest == s.ks && queriedIdentifiers == s.queried && log == s.log && last == s.last &&
              Exploring(s, traveledNodes, net, target)
      ensures NetworkValid(net)
      ensures LogInvariant(log, queriedIdentifiers, traveledNodes)
      ensures forall x :: x in traveledNodes ==> x in net
      ensures kAbsoluteClosest != [] && SortedBy(kAbsoluteClosest, DistanceKey(target))
      ensures |kAbsoluteClosest| <= K || |kAbsoluteClosest| <= Alpha
      ensures forall x :: x in kAbsoluteClosest ==> x in net
      ensures NoDup(kAbsoluteClosest) || forall x :: x in kAbsoluteClosest ==> x.id in queriedIdentifiers
    {
      ghost var tables := Tables(net);
      ghost var s0 := Start(myClosestNodes, tables);
      log, traveledNodes, last := [], [], [];
      kAbsoluteClosest := myClosestNodes;
      var closestNode := myClosestNodes[0];
      var alphaMaybeQueriedNodes := myClosestNodes;
      queriedIdentifiers := {};
      var hasCloserNodes := true;
      while hasCloserNodes
        invariant Exploring(LookupState(kAbsoluteClosest, closestNode, alphaMaybeQueriedNodes, queriedIdentifiers, tables, log, last,
                                        hasCloserNodes), traveledNodes, net, target)
        invariant MainLoop(s0, this, target) ==
                    MainLoop(LookupState(kAbsoluteClosest, closestNode, alphaMaybeQueriedNodes, queriedIdentifiers, tables, log, last,
                                         hasCloserNodes), this, target)
        decreases if hasCloserNodes then closestNode.id.DistanceTo(target) + 1 else 0
      {
        kAbsoluteClosest, closestNode, alphaMaybeQueriedNodes, traveledNodes, queriedIdentifiers, hasCloserNodes, tables, log, last :=
          MainRound(kAbsoluteClosest, closestNode, alphaMaybeQueriedNodes, traveledNodes, queriedIdentifiers, target, net,
                    tables, log, last);
      }
    }

    /** The iterative lookup. `net` is the network the peers belong to; `log`
        records each FindNode sent to a peer, the first `rounds` of them from
        the main loop. A lookup that succeeds returns the result MainLoop
        reaches from the nearest Alpha nodes of this node's table, over the
        network as it stood; every node of the result was sent FindNode. */
    method Lookup(target: Identifier, ghost net: set<Node>)
      returns (r: Result<seq<Node>>, ghost log: seq<Query>, ghost rounds: nat)
      requires this in net && NetworkValid(net)
      modifies set n | n in net :: n.table
      ensures NetworkValid(net)
      ensures target.value >= Pow2(M) ==> r == Failure(ArgumentException) && log == []
      ensures target.value < Pow2(M) && M > 0 ==>
                (r.Failure? <==> forall i :: 0 <= i < |old(table.buckets)| ==> old(table.buckets)[i] == []) &&
                (r.Failure? ==> r.error == InvalidOperation && log == [])
      ensures r.Success? ==> r.value != [] && SortedBy(r.value, DistanceKey(target)) &&
                             (|r.value| <= K || |r.value| <= Alpha) &&
                             forall x :: x in r.value ==> x in net
      ensures r.Success? ==>
                KClosest(id, old(table.buckets), target).Success? &&
                var first := NearestAlpha(KClosest(id, old(table.buckets), target).value, DistanceKey(target));
                first != [] &&
                (var s := MainLoop(Start(first, old(Tables(net))), this, target);
                 r.value == s.ks && rounds == |s.log| &&
                 log == s.log + FinalQueries(s.ks, s.queried, Traveled(s.log)) && Settled(s, target))
      ensures r.Success? ==> forall x :: x in r.value ==> x.id in PeerIds(log)
      ensures DistinctPeers(log)
      ensures rounds <= |log| && Chained(log[..rounds])
      ensures forall k :: rounds <= k < |log| ==> log[k].traveled == Traveled(log[..rounds])
    {
      log, rounds := [], 0;
      var traveledNodes: seq<Node> := [];
      var findNodeResponse := FindNodeInNetwork(target, traveledNodes, net);
      if findNodeResponse.Failure? {
        return Failure(findNodeResponse.error), log, rounds;
      }
      assert Tables(net) == old(Tables(net)) by {
        assert InsertedAll(id, old(table.buckets), []).buckets == old(table.buckets);
      }
      var myClosestNodes := NearestAlpha(findNodeResponse.value.closestNodes, DistanceKey(target));
      NearestAlphaProperties(findNodeResponse.value.closestNodes, DistanceKey(target));
      if |myClosestNodes| == 0 {
        // First() on an empty list
        return Failure(InvalidOperation), log, rounds;
      }
      var kAbsoluteClosest;
      kAbsoluteClosest, log, rounds := LookupRounds(myClosestNodes, target, net);
      // kAbsoluteClosest is never empty here, so the "Lookup cannot return
      // empty list!" exception is unreachable.
      r := Success(kAbsoluteClosest);
    }

    /** Lookup once the first frontier is known: the main loop, then the
        final round, which sends FindNode to every member of the result the
        main loop did not query. The main loop ends on the stop rule. */
    method LookupRounds(myClosestNodes: seq<Node>, target: Identifier, ghost net: set<Node>)
      returns (kAbsoluteClosest: seq<Node>, ghost log: seq<Query>, ghost rounds: nat)
      requires this in net && NetworkValid(net)
      requires target.value < Pow2(M) && M > 0
      requires myClosestNodes != [] && SortedBy(myClosestNodes, DistanceKey(target)) && |myClosestNodes| <= Alpha
      requires forall x :: x in myClosestNodes ==> x in net
      modifies set n | n in net :: n.table
      ensures NetworkValid(net)
      ensures kAbsoluteClosest != [] && SortedBy(kAbsoluteClosest, DistanceKey(target)) &&
              (|kAbsoluteClosest| <= K || |kAbsoluteClosest| <= Alpha) &&
              forall x :: x in kAbsoluteClosest ==> x in net
      ensures var s := MainLoop(Start(myClosestNodes, old(Tables(net))), this, target);
              kAbsoluteClosest == s.ks && rounds == |s.log| &&
              log == s.log + FinalQueries(s.ks, s.queried, Traveled(s.log)) && Settled(s, target)
      ensures forall x :: x in kAbsoluteClosest ==> x.id in PeerIds(log)
      ensures DistinctPeers(log)
      ensures rounds <= |log| && Chained(log[..rounds])
      ensures forall k :: rounds <= k < |log| ==> log[k].traveled == Traveled(log[..rounds])
    {
      ghost var s0 := Start(myClosestNodes, Tables(net));
      var traveledNodes, queriedIdentifiers;
      ghost var last;
      kAbsoluteClosest, traveledNodes, queriedIdentifiers, log, last := Converge(myClosestNodes, target, net);
      ghost var s := MainLoop(s0, this, target);
      MainLoopLogged(s0, this, target);
      MainLoopStops(s0, this, target);
      rounds := |log|;
      log := Conclude(kAbsoluteClosest, traveledNodes, queriedIdentifiers, target, net, s);
      assert log[..rounds] == s.log;
    }

    /** The final round, once the main loop has stopped in state `s`: FindNode
        to every member of the result the main loop did not query, each handed
        the traveled list as the main loop left it. Afterwards every member of
        the result has been sent FindNode. */
    method Conclude(kAbsoluteClosest: seq<Node>, traveledNodes: seq<Node>, queriedIdentifiers: set<Identifier>,
                    target: Identifier, ghost net: set<Node>, ghost s: LookupState)
      returns (ghost log: seq<Query>)
      requires target.value < Pow2(M) && M > 0
      requires !s.going && Exploring(s, traveledNodes, net, target) && Logged(s)
      requires s.ks == kAbsoluteClosest && s.queried == queriedIdentifiers
      modifies set n | n in net :: n.table
      ensures NetworkValid(net)
      ensures log == s.log + FinalQueries(s.ks, s.queried, Traveled(s.log))
      ensures forall x :: x in kAbsoluteClosest ==> x.id in PeerIds(log)
      ensures DistinctPeers(log)
      ensures forall k :: |s.log| <= k < |log| ==> log[k].traveled == Traveled(s.log)
    {
      UnqueriedDistinct(net, Tables(net), kAbsoluteClosest, queriedIdentifiers);
      LookupQueriesResult(s, traveledNodes);
      var flush;
      flush, log := FinalRound(kAbsoluteClosest, target, traveledNodes, queriedIdentifiers, net, s.log);
      assert flush == Done;
    }
  }
}
