/** The TypeScript tree (src/bucket.model.ts, src/routing-table.model.ts,
    src/node.model.ts). Nodes compare by identifier, and distances use
    JavaScript's 32-bit `^`. A bucket's array can end up holding `undefined`.
    Buckets, tables and nodes are objects that are updated in place. */
module TsKademlia {
  import opened Wrappers
  import opened Identifiers
  import opened ListOps
  import opened LookupSteps

  /** An element of a bucket's array: a node, or `undefined`. */
  datatype Slot = Held(node: TsNode) | Undefined

  predicate IsHeld(x: Slot) { x.Held? }

  predicate IsUndefined(x: Slot) { x.Undefined? }

  /** The default predicate of getNodes, `() => true`. */
  predicate KeepAll(x: Slot) { true }

  /** Every slot holds a node, and none of them has identifier `id`. */
  ghost predicate Misses(s: seq<Slot>, id: Identifier) {
    forall j :: 0 <= j < |s| ==> s[j].Held? && s[j].node.identifier != id
  }

  /** Some slot holds a node with identifier `id`. */
  ghost predicate Stores(s: seq<Slot>, id: Identifier) {
    exists x :: x in s && x.Held? && x.node.identifier == id
  }

  /** A bucket as the TypeScript code means it to be: at most k nodes, no
      `undefined`, no node twice and no two nodes with the same identifier. */
  ghost predicate SlotsValid(s: seq<Slot>, k: nat) {
    && |s| <= k
    && (forall x :: x in s ==> x.Held?)
    && NoDup(s)
    && (forall x, y :: x in s && y in s && x.Held? && y.Held? && x.node.identifier == y.node.identifier ==> x == y)
  }

  /** `nodes.find(n => n.equals(target))` together with the `findIndex` that
      follows it. The callback reads a property of each element in turn, so an
      `undefined` met before a match throws a TypeError. */
  function FindById(nodes: seq<Slot>, id: Identifier): (r: Result<Option<nat>>)
    ensures r.Success? && r.value.Some? ==> r.value.value < |nodes|
  {
    if nodes == [] then Success(None)
    else if nodes[0].Undefined? then Failure(TypeError)
    else if nodes[0].node.identifier == id then Success(Some(0))
    else
      match FindById(nodes[1..], id)
      case Failure(e) => Failure(e)
      case Success(None) => Success(None)
      case Success(Some(i)) => Success(Some(i + 1))
  }

  /** FindById returns the first match, finds nothing only when every slot
      holds a node with another identifier, and otherwise throws on the first
      `undefined`. */
  lemma {:induction false} FindByIdMeaning(nodes: seq<Slot>, id: Identifier)
    ensures FindById(nodes, id).Success? && FindById(nodes, id).value.Some? ==>
              var i := FindById(nodes, id).value.value;
              i < |nodes| && nodes[i].Held? && nodes[i].node.identifier == id && Misses(nodes[..i], id)
    ensures FindById(nodes, id) == Success(None) <==> Misses(nodes, id)
    ensures FindById(nodes, id).Failure? ==>
              FindById(nodes, id).error == TypeError &&
              exists j :: 0 <= j < |nodes| && nodes[j].Undefined? && Misses(nodes[..j], id)
  {
    if nodes != [] {
      assert Misses(nodes[..0], id);
      if nodes[0].Held? && nodes[0].node.identifier != id {
        var rest := nodes[1..];
        FindByIdMeaning(rest, id);
        match FindById(rest, id)
        case Failure(_) => {
          var j :| 0 <= j < |rest| && rest[j].Undefined? && Misses(rest[..j], id);
          assert nodes[j + 1].Undefined? && Misses(nodes[..j + 1], id) by {
            assert nodes[..j + 1] == [nodes[0]] + rest[..j];
          }
        }
        case Success(None) => {
          assert Misses(nodes, id) by {
            assert nodes == [nodes[0]] + rest;
          }
        }
        case Success(Some(i)) => {
          assert Misses(nodes[..i + 1], id) && nodes[i + 1] == rest[i] by {
            assert nodes[..i + 1] == [nodes[0]] + rest[..i];
          }
        }
      } else if nodes[0].Held? {
        assert !Misses(nodes, id);
      } else {
        assert !Misses(nodes, id);
      }
    }
  }

  /** The same, element-wise: a match means the node is stored, no match
      means neither the node nor `undefined` is there, and a throw means some
      slot is `undefined`. */
  lemma FindByIdCases(nodes: seq<Slot>, id: Identifier)
    ensures FindById(nodes, id).Success? && FindById(nodes, id).value.Some? ==> Stores(nodes, id)
    ensures FindById(nodes, id) == Success(None) ==> Undefined !in nodes && !Stores(nodes, id)
    ensures FindById(nodes, id).Failure? ==> FindById(nodes, id).error == TypeError && Undefined in nodes
  {
    FindByIdMeaning(nodes, id);
    if FindById(nodes, id).Success? && FindById(nodes, id).value.Some? {
      var i := FindById(nodes, id).value.value;
      assert nodes[i] in nodes;
    }
    if FindById(nodes, id) == Success(None) {
      forall x | x in nodes ensures x.Held? && x.node.identifier != id {
        var j :| 0 <= j < |nodes| && nodes[j] == x;
      }
    }
    if FindById(nodes, id).Failure? {
      var j :| 0 <= j < |nodes| && nodes[j].Undefined? && Misses(nodes[..j], id);
      assert nodes[j] == Undefined;
    }
  }

  /** Bucket.insert as written, on the bucket's array: `headAlive` is what the
      shifted head's ping answered. A known node moves to the tail as the
      stored object; a new one is pushed when the length is not k; a full
      bucket shifts its head and pushes it back when it answers, and pushes
      `targetNode`, which is undefined on that path, when it does not. */
  function Inserted(nodes: seq<Slot>, target: TsNode, headAlive: bool, k: nat): Result<seq<Slot>> {
    match FindById(nodes, target.identifier)
    case Failure(e) => Failure(e)
    case Success(Some(i)) => Success(nodes[..i] + nodes[i + 1..] + [nodes[i]])
    case Success(None) =>
      if |nodes| != k then Success(nodes + [Held(target)])
      // shift() of an empty array gives undefined, whose ping() throws
      else if nodes == [] then Failure(TypeError)
      else if headAlive then Success(nodes[1..] + [nodes[0]])
      else Success(nodes[1..] + [Undefined])
  }

  /** The evidently intended insert: a head that does not answer is evicted
      and the new node takes its place at the tail. */
  function CorrectedInserted(nodes: seq<Slot>, target: TsNode, headAlive: bool, k: nat): Result<seq<Slot>> {
    if FindById(nodes, target.identifier) == Success(None) && |nodes| == k && nodes != [] && !headAlive then
      Success(nodes[1..] + [Held(target)])
    else
      Inserted(nodes, target, headAlive, k)
  }

  lemma RotateKeepsElements(s: seq<Slot>, i: nat)
    requires i < |s|
    ensures multiset(s[..i] + s[i + 1..] + [s[i]]) == multiset(s)
  {
    assert s == s[..i] + [s[i]] + s[i + 1..];
  }

  /** A permutation of a valid bucket is a valid bucket. */
  lemma PermutedSlotsValid(s: seq<Slot>, r: seq<Slot>, k: nat)
    requires SlotsValid(s, k) && multiset(r) == multiset(s)
    ensures SlotsValid(r, k)
  {
    assert |r| == |multiset(r)| == |s|;
    forall x ensures x in r <==> x in s {
      assert x in r <==> x in multiset(r);
    }
    PermutationNoDup(r, s);
  }

  /** With the head answering, an insert keeps a valid bucket valid: a known
      node is refreshed to the tail, a new node joins while there is room,
      and a full bucket keeps its contacts and drops the newcomer. With k = 0
      the bucket is empty and full at once, and the insert throws. */
  lemma {:induction false} InsertedKeepsBucket(nodes: seq<Slot>, target: TsNode, k: nat)
    requires SlotsValid(nodes, k)
    ensures Inserted(nodes, target, true, k).Success? <==> k >= 1
    ensures Inserted(nodes, target, true, k).Failure? ==> Inserted(nodes, target, true, k).error == TypeError
    ensures Inserted(nodes, target, true, k).Success? ==>
              var r := Inserted(nodes, target, true, k).value;
              && SlotsValid(r, k)
              && (forall x :: x in r ==> x in nodes || x == Held(target))
              && (Stores(r, target.identifier) <==> Stores(nodes, target.identifier) || |nodes| < k)
              && |r| == (if Stores(nodes, target.identifier) || |nodes| == k then |nodes| else |nodes| + 1)
              && (Stores(nodes, target.identifier) || |nodes| < k ==>
                    r[|r| - 1].Held? && r[|r| - 1].node.identifier == target.identifier)
              && (!Stores(nodes, target.identifier) && |nodes| == k ==>
                    multiset(r) == multiset(nodes) && r[|r| - 1] == nodes[0])
  {
    var id := target.identifier;
    FindByIdMeaning(nodes, id);
    FindByIdCases(nodes, id);
    assert FindById(nodes, id).Success?;
    if FindById(nodes, id).value.Some? {
      var i := FindById(nodes, id).value.value;
      var r := nodes[..i] + nodes[i + 1..] + [nodes[i]];
      RotateKeepsElements(nodes, i);
      PermutedSlotsValid(nodes, r, k);
      assert nodes[i] in nodes;
      assert Stores(r, id) by { assert r[|r| - 1] in r; }
      forall x | x in r ensures x in nodes {
        assert x in multiset(r);
      }
    } else {
      if |nodes| < k {
        var r := nodes + [Held(target)];
        assert Held(target) !in nodes;
        NoDupAppend(nodes, [Held(target)]);
        assert r[|r| - 1] in r;
        forall x, y | x in r && y in r && x.Held? && y.Held? && x.node.identifier == y.node.identifier
          ensures x == y
        {
        }
      } else if k >= 1 {
        var r := nodes[1..] + [nodes[0]];
        assert nodes == [nodes[0]] + nodes[1..];
        assert multiset(r) == multiset(nodes);
        PermutedSlotsValid(nodes, r, k);
        assert !Stores(r, id) by {
          forall x | x in r && x.Held? ensures x.node.identifier != id {
            assert x in multiset(r);
          }
        }
      }
    }
  }

  /** As written, a full bucket whose head does not answer loses both the head
      and the newcomer: it shifts the head off and pushes `undefined`. */
  lemma InsertedDeadHeadPushesUndefined(nodes: seq<Slot>, target: TsNode, k: nat)
    requires SlotsValid(nodes, k) && |nodes| == k >= 1 && !Stores(nodes, target.identifier)
    ensures Inserted(nodes, target, false, k) == Success(nodes[1..] + [Undefined])
    ensures !Stores(Inserted(nodes, target, false, k).value, target.identifier)
    ensures !SlotsValid(Inserted(nodes, target, false, k).value, k)
  {
    FindByIdCases(nodes, target.identifier);
    var r := nodes[1..] + [Undefined];
    assert r[|r| - 1] in r;
    assert !Stores(r, target.identifier) by {
      forall x | x in r && x.Held? ensures x.node.identifier != target.identifier {
        assert x in nodes[1..];
      }
    }
  }

  /** Once an `undefined` sits in a bucket, every insert of a node the bucket
      does not hold throws: the find callback reaches the hole first. */
  lemma UndefinedBlocksNewcomers(nodes: seq<Slot>, target: TsNode, headAlive: bool, k: nat)
    requires Undefined in nodes && !Stores(nodes, target.identifier)
    ensures Inserted(nodes, target, headAlive, k) == Failure(TypeError)
  {
    FindByIdCases(nodes, target.identifier);
  }

  /** The corrected insert keeps a valid bucket valid whatever the head
      answers, stores the newcomer unless a live full bucket turns it away,
      and agrees with the code as written when the head answers. */
  lemma CorrectedInsertedKeepsBucket(nodes: seq<Slot>, target: TsNode, headAlive: bool, k: nat)
    requires SlotsValid(nodes, k) && k >= 1
    ensures headAlive ==> CorrectedInserted(nodes, target, headAlive, k) == Inserted(nodes, target, headAlive, k)
    ensures CorrectedInserted(nodes, target, headAlive, k).Success?
    ensures SlotsValid(CorrectedInserted(nodes, target, headAlive, k).value, k)
    ensures Stores(CorrectedInserted(nodes, target, headAlive, k).value, target.identifier) <==>
              Stores(nodes, target.identifier) || |nodes| < k || !headAlive
  {
    InsertedKeepsBucket(nodes, target, k);
    FindByIdCases(nodes, target.identifier);
    if FindById(nodes, target.identifier) == Success(None) && |nodes| == k && !headAlive {
      var rest := nodes[1..];
      var r := rest + [Held(target)];
      assert nodes == [nodes[0]] + rest;
      assert !Stores(nodes, target.identifier) by {
        forall x | x in nodes && x.Held? ensures x.node.identifier != target.identifier {
          var j :| 0 <= j < |nodes| && nodes[j] == x;
        }
      }
      assert Held(target) !in rest;
      assert NoDup(rest) by {
        forall i, j | 0 <= i < j < |rest| ensures rest[i] != rest[j] {
          assert rest[i] == nodes[i + 1] && rest[j] == nodes[j + 1];
        }
      }
      NoDupAppend(rest, [Held(target)]);
      assert r[|r| - 1] in r;
    } else if !headAlive {
      assert Inserted(nodes, target, false, k) == Inserted(nodes, target, true, k);
    }
  }

  /** src/bucket.model.ts: an array of nodes from least to most recently seen. */
  class TsBucket {
    const k: nat
    var nodes: seq<Slot>

    constructor (k: nat)
      ensures this.k == k && nodes == []
    {
      this.k := k;
      nodes := [];
    }

    /** The number of array entries, `undefined` ones included. */
    function Length(): (n: nat)
      reads this
      ensures n == |nodes|
      ensures SlotsValid(nodes, k) ==> n <= k
    {
      |nodes|
    }

    /** A valid bucket is full exactly when it has no room left. */
    function IsFull(): (full: bool)
      reads this
      ensures full <==> Length() == k
      ensures SlotsValid(nodes, k) ==> (full <==> !(Length() < k))
    {
      Length() == k
    }

    /** A filtered copy in recency order; the bucket itself is untouched. */
    function GetNodes(keep: Slot -> bool): (r: seq<Slot>)
      reads this
      ensures forall x :: x in r ==> x in nodes && keep(x)
      ensures forall x :: x in nodes && keep(x) ==> x in r
      ensures multiset(r) <= multiset(nodes)
    {
      Filter(nodes, keep)
    }

    /** With the default predicate, getNodes copies the whole array. */
    lemma GetNodesKeepsAll()
      ensures GetNodes(KeepAll) == nodes
    {
      FilterKeepsAll(nodes, KeepAll);
    }

    /** `headAlive` is what the shifted head's ping answered. */
    method Insert(target: TsNode, headAlive: bool) returns (outcome: Outcome)
      modifies this
      ensures Inserted(old(nodes), target, headAlive, k).Failure? ==>
                outcome == Thrown(Inserted(old(nodes), target, headAlive, k).error) && nodes == old(nodes)
      ensures Inserted(old(nodes), target, headAlive, k).Success? ==>
                outcome == Done && nodes == Inserted(old(nodes), target, headAlive, k).value
    {
      var found := FindById(nodes, target.identifier);
      if found.Failure? {
        return Thrown(found.error);
      }
      if found.value.Some? {
        // the node exists in the bucket: move the stored node to the tail
        var index := found.value.value;
        var targetNode := nodes[index];
        nodes := nodes[..index] + nodes[index + 1..];
        nodes := nodes + [targetNode];
        return Done;
      }
      if !IsFull() {
        nodes := nodes + [Held(target)];
        return Done;
      }
      if nodes == [] {
        // shift() gives undefined, and undefined.ping() throws
        return Thrown(TypeError);
      }
      var leastSeenNode := nodes[0];
      nodes := nodes[1..];
      if headAlive {
        nodes := nodes + [leastSeenNode];
      } else {
        // `targetNode` is undefined on this path
        nodes := nodes + [Undefined];
      }
      return Done;
    }
  }

  /** getClosestBucket: the index of the bucket i with 2^i <= d < 2^(i+1), or
      null (None) when d is not positive or not below 2^m. */
  function ClosestBucket(d: int, m: nat): (r: Option<nat>)
    ensures r.Some? <==> 0 < d < Pow2(m)
    ensures r.Some? ==> r.value < m && Pow2(r.value) <= d < Pow2(r.value + 1)
  {
    if 0 < d < Pow2(m) then
      FloorLog2Below(d, m);
      Some(FloorLog2(d))
    else None
  }

  /** The bucket the owner keeps `id` in, by the JavaScript distance. */
  function BucketOf(owner: Identifier, id: Identifier, m: nat): Option<nat> {
    ClosestBucket(owner.JsDistanceTo(id), m)
  }

  /** Between distinct identifiers below 2^m, with m <= 31, there is always a
      bucket: the JavaScript distance is then the integer XOR. */
  lemma BucketOfInRange(owner: Identifier, id: Identifier, m: nat)
    requires owner != id && owner.value < Pow2(m) && id.value < Pow2(m) && m <= 31
    ensures BucketOf(owner, id, m).Some?
  {
    Pow2Monotone(m, 31);
    JsXorAgreesBelow31(owner.value, id.value);
    XorBounded(owner.value, id.value, m);
    XorZeroIff(owner.value, id.value);
  }

  /** A stored node sits in bucket i of its owner. */
  ghost predicate InBucket(owner: Identifier, id: Identifier, i: nat) {
    Pow2(i) <= owner.JsDistanceTo(id) < Pow2(i + 1)
  }

  /** The table of a node, as bucket contents: each bucket valid, and each
      node in the bucket its distance from the owner selects. */
  ghost predicate Placed(c: seq<seq<Slot>>, owner: Identifier, k: nat) {
    forall i :: 0 <= i < |c| ==>
      SlotsValid(c[i], k) && forall x :: x in c[i] ==> x.Held? && InBucket(owner, x.node.identifier, i)
  }

  /** RoutingTable.insert on the bucket contents: nothing for the owner's own
      identifier, a TypeError when getClosestBucket gives null, and otherwise
      the bucket insert (the head's ping always answers true). */
  function TableInserted(c: seq<seq<Slot>>, owner: Identifier, target: TsNode, k: nat): Result<seq<seq<Slot>>> {
    if owner == target.identifier then Success(c)
    else match BucketOf(owner, target.identifier, |c|)
      case None => Failure(TypeError)
      case Some(i) =>
        match Inserted(c[i], target, true, k)
        case Failure(e) => Failure(e)
        case Success(b) => Success(c[i := b])
  }

  /** Insert keeps a table placed and changes at most the one bucket the
      distance selects; it throws exactly when there is no such bucket, or
      when k = 0. */
  lemma TableInsertedKeepsPlaced(c: seq<seq<Slot>>, owner: Identifier, target: TsNode, k: nat)
    requires Placed(c, owner, k)
    ensures owner == target.identifier ==> TableInserted(c, owner, target, k) == Success(c)
    ensures TableInserted(c, owner, target, k).Failure? <==>
              owner != target.identifier && (BucketOf(owner, target.identifier, |c|).None? || k == 0)
    ensures TableInserted(c, owner, target, k).Failure? ==> TableInserted(c, owner, target, k).error == TypeError
    ensures TableInserted(c, owner, target, k).Success? ==>
              var r := TableInserted(c, owner, target, k).value;
              && |r| == |c|
              && Placed(r, owner, k)
              && (owner != target.identifier ==>
                    var b := BucketOf(owner, target.identifier, |c|).value;
                    && (forall j :: 0 <= j < |c| && j != b ==> r[j] == c[j])
                    && (Stores(r[b], target.identifier) <==> Stores(c[b], target.identifier) || |c[b]| < k))
  {
    if owner != target.identifier && BucketOf(owner, target.identifier, |c|).Some? {
      var b := BucketOf(owner, target.identifier, |c|).value;
      InsertedKeepsBucket(c[b], target, k);
      if k >= 1 {
        var r := TableInserted(c, owner, target, k).value;
        forall x: Slot | x in r[b] ensures x.Held? && InBucket(owner, x.node.identifier, b) {
          if x != Held(target) {
            assert x in c[b];
          }
        }
      }
    } else if owner != target.identifier && k == 0 {
    }
  }

  /** The part of TableInsertedKeepsPlaced a caller needs to keep a node valid. */
  lemma TableInsertedPlaced(c: seq<seq<Slot>>, owner: Identifier, target: TsNode, k: nat)
    requires Placed(c, owner, k)
    ensures TableInserted(c, owner, target, k).Failure? ==>
              owner != target.identifier && (BucketOf(owner, target.identifier, |c|).None? || k == 0)
    ensures TableInserted(c, owner, target, k).Success? ==>
              |TableInserted(c, owner, target, k).value| == |c| && Placed(TableInserted(c, owner, target, k).value, owner, k)
  {
    TableInsertedKeepsPlaced(c, owner, target, k);
  }

  /** findNode on a placed table: the insertion keeps the table placed, and
      with both identifiers below 2^m, m <= 31 and k >= 1 both the insertion
      and the query succeed. */
  lemma FindNodeOutcome(c: seq<seq<Slot>>, owner: Identifier, node: TsNode, k: nat, m: nat)
    requires Placed(c, owner, k) && |c| == m
    ensures TableInserted(c, owner, node, k).Success? ==>
              |TableInserted(c, owner, node, k).value| == m && Placed(TableInserted(c, owner, node, k).value, owner, k)
    ensures (owner != node.identifier && k >= 1 && m <= 31 && owner.value < Pow2(m) && node.identifier.value < Pow2(m)) ==>
              TableInserted(c, owner, node, k).Success? &&
              KClosest(TableInserted(c, owner, node, k).value, owner, node.identifier, k).Success?
  {
    TableInsertedPlaced(c, owner, node, k);
    if owner != node.identifier && m <= 31 && owner.value < Pow2(m) && node.identifier.value < Pow2(m) {
      BucketOfInRange(owner, node.identifier, m);
    }
  }

  /** The candidates of getKClosestTo: the selected bucket, and when it holds
      fewer than k nodes, the buckets right before and right after it. */
  function Candidates(c: seq<seq<Slot>>, i: nat, k: nat): (r: seq<Slot>)
    requires i < |c|
    ensures forall x :: x in r ==>
              x in c[i] || (|c[i]| < k && ((i > 0 && x in c[i - 1]) || (i + 1 < |c| && x in c[i + 1])))
    ensures forall x :: x in c[i] ==> x in r
    ensures |c[i]| < k ==> (forall x :: i > 0 && x in c[i - 1] ==> x in r) && (forall x :: i + 1 < |c| && x in c[i + 1] ==> x in r)
    ensures |c[i]| >= k ==> r == c[i]
  {
    if |c[i]| < k then
      c[i] + (if i > 0 then c[i - 1] else []) + (if i + 1 < |c| then c[i + 1] else [])
    else c[i]
  }

  lemma CandidatesHeld(c: seq<seq<Slot>>, owner: Identifier, k: nat, i: nat)
    requires Placed(c, owner, k) && i < |c|
    ensures forall x :: x in Candidates(c, i, k) ==> x.Held?
  {
    forall x | x in Candidates(c, i, k) ensures x.Held? {
      if x in c[i] {
      } else if i > 0 && x in c[i - 1] {
      } else {
        assert x in c[i + 1];
      }
    }
  }

  /** Sort key for `(a, b) => b.distance(source) - a.distance(source)`:
      ascending in this key is descending in distance. */
  function Farness(source: Identifier): Slot -> int {
    (x: Slot) => if x.Held? then -x.node.identifier.JsDistanceTo(source) else 0
  }

  /** Array.prototype.sort: the `undefined` entries go to the end without
      reaching the comparator, the rest is stably sorted by it. */
  function SortFarthestFirst(s: seq<Slot>, source: Identifier): seq<Slot> {
    SortBy(Filter(s, IsHeld), Farness(source)) + Filter(s, IsUndefined)
  }

  /** Without `undefined` entries the sort is the stable sort by the key. */
  lemma SortFarthestFirstAllHeld(s: seq<Slot>, source: Identifier)
    requires forall x :: x in s ==> x.Held?
    ensures SortFarthestFirst(s, source) == SortBy(s, Farness(source))
  {
    FilterKeepsAll(s, IsHeld);
    FilterKeepsNone(s, IsUndefined);
  }

  /** getKClosestTo as written: the candidates sorted by distance to the
      SOURCE, farthest first, cut to k; a TypeError when getClosestBucket
      gives null. */
  function KClosest(c: seq<seq<Slot>>, source: Identifier, target: Identifier, k: nat): Result<seq<Slot>> {
    match BucketOf(source, target, |c|)
    case None => Failure(TypeError)
    case Some(i) => Success(Take(SortFarthestFirst(Candidates(c, i, k), source), k))
  }

  /** What getKClosestTo returns: at most k candidates, farthest from the
      source first, and none left out is farther from the source than one
      kept. All candidates come back when there are at most k of them. Asking
      for the owner's own identifier throws. */
  lemma KClosestProperties(c: seq<seq<Slot>>, source: Identifier, target: Identifier, k: nat)
    requires Placed(c, source, k)
    ensures KClosest(c, source, target, k).Failure? <==> BucketOf(source, target, |c|).None?
    ensures KClosest(c, source, target, k).Failure? ==> KClosest(c, source, target, k).error == TypeError
    ensures source == target ==> KClosest(c, source, target, k).Failure?
    ensures KClosest(c, source, target, k).Success? ==>
              var cand := Candidates(c, BucketOf(source, target, |c|).value, k);
              var r := KClosest(c, source, target, k).value;
              && |r| <= k
              && (forall x :: x in r ==> x in cand && x.Held?)
              && SortedBy(r, Farness(source))
              && (forall x, y :: x in cand && x !in r && y in r ==>
                    y.node.identifier.JsDistanceTo(source) >= x.node.identifier.JsDistanceTo(source))
              && (|cand| <= k ==> multiset(r) == multiset(cand))
  {
    if source == target {
      JsXorSelf(source.value);
    }
    if BucketOf(source, target, |c|).Some? {
      var i := BucketOf(source, target, |c|).value;
      CandidatesHeld(c, source, k, i);
      FarthestCut(Candidates(c, i, k), source, k);
    }
  }

  /** The farthest-first cut of held candidates. */
  lemma FarthestCut(cand: seq<Slot>, source: Identifier, k: nat)
    requires forall x :: x in cand ==> x.Held?
    ensures var r := Take(SortFarthestFirst(cand, source), k);
              && |r| <= k
              && (forall x :: x in r ==> x in cand && x.Held?)
              && SortedBy(r, Farness(source))
              && (forall x, y :: x in cand && x !in r && y in r ==>
                    y.node.identifier.JsDistanceTo(source) >= x.node.identifier.JsDistanceTo(source))
              && (|cand| <= k ==> multiset(r) == multiset(cand))
  {
    SortFarthestFirstAllHeld(cand, source);
    NearestCut(cand, Farness(source), k);
    var r := Take(SortBy(cand, Farness(source)), k);
    forall x, y | x in cand && x !in r && y in r
      ensures y.node.identifier.JsDistanceTo(source) >= x.node.identifier.JsDistanceTo(source)
    {
      assert Farness(source)(y) <= Farness(source)(x);
    }
  }


  /** Sort key of the evidently intended order: nearest to the target first. */
  function Nearness(target: Identifier): Slot -> int {
    (x: Slot) => if x.Held? then x.node.identifier.JsDistanceTo(target) else 0
  }

  /** The evidently intended getKClosestTo: the k candidates nearest to the
      target. */
  function CorrectedKClosest(c: seq<seq<Slot>>, source: Identifier, target: Identifier, k: nat): Result<seq<Slot>> {
    match BucketOf(source, target, |c|)
    case None => Failure(TypeError)
    case Some(i) => Success(Take(SortBy(Filter(Candidates(c, i, k), IsHeld), Nearness(target)), k))
  }

  /** The corrected lookup answers with at most k candidates, nearest to the
      target first, and leaves out none nearer than one it keeps. */
  lemma CorrectedKClosestNearest(c: seq<seq<Slot>>, source: Identifier, target: Identifier, k: nat)
    requires Placed(c, source, k)
    ensures CorrectedKClosest(c, source, target, k).Failure? <==> BucketOf(source, target, |c|).None?
    ensures CorrectedKClosest(c, source, target, k).Success? ==>
              var cand := Candidates(c, BucketOf(source, target, |c|).value, k);
              var r := CorrectedKClosest(c, source, target, k).value;
              && |r| <= k
              && (forall x :: x in r ==> x in cand && x.Held?)
              && SortedBy(r, Nearness(target))
              && (forall x, y :: x in cand && x !in r && y in r ==>
                    y.node.identifier.JsDistanceTo(target) <= x.node.identifier.JsDistanceTo(target))
              && (|cand| <= k ==> multiset(r) == multiset(cand))
  {
    if BucketOf(source, target, |c|).Some? {
      var cand := Candidates(c, BucketOf(source, target, |c|).value, k);
      CandidatesHeld(c, source, k, BucketOf(source, target, |c|).value);
      FilterKeepsAll(cand, IsHeld);
      NearestCut(cand, Nearness(target), k);
      var r := Take(SortBy(cand, Nearness(target)), k);
      forall x, y | x in cand && x !in r && y in r
        ensures y.node.identifier.JsDistanceTo(target) <= x.node.identifier.JsDistanceTo(target)
      {
        assert Nearness(target)(y) <= Nearness(target)(x);
      }
    }
  }

  lemma SmallJsDistance(a: nat, b: nat)
    requires a < 8 && b < 8
    ensures Identifier(a).JsDistanceTo(Identifier(b)) == Xor(a, b)
  {
    Pow2Monotone(3, 31);
    JsXorAgreesBelow31(a, b);
  }

  /** As written, getKClosestTo can return the candidate farthest from the
      target. Take owner 0, m = 3, k = 1 and target 3, with node 1 in bucket 0,
      nothing in bucket 1 and nodes 4 and 5 in bucket 2. Bucket 1 is short, so
      all three nodes are candidates; sorting them farthest from the owner
      first gives 5, at distance 6 from the target, where the nearest is 1, at
      distance 2. */
  lemma KClosestCounterexample(n1: TsNode, n4: TsNode, n5: TsNode)
    requires n1.identifier == Identifier(1)
    requires n4.identifier == Identifier(4) && n5.identifier == Identifier(5)
    ensures KClosest([[Held(n1)], [], [Held(n4), Held(n5)]], Identifier(0), Identifier(3), 1)
              == Success([Held(n5)])
    ensures CorrectedKClosest([[Held(n1)], [], [Held(n4), Held(n5)]], Identifier(0), Identifier(3), 1)
              == Success([Held(n1)])
  {
    var c := [[Held(n1)], [], [Held(n4), Held(n5)]];
    CounterexampleAsWritten(n1, n4, n5, c, Identifier(0), Identifier(3));
    CounterexampleCorrected(n1, n4, n5, c, Identifier(0), Identifier(3));
  }

  /** The as-written half of KClosestCounterexample. */
  lemma CounterexampleAsWritten(n1: TsNode, n4: TsNode, n5: TsNode, c: seq<seq<Slot>>, owner: Identifier, target: Identifier)
    requires n1.identifier == Identifier(1)
    requires n4.identifier == Identifier(4) && n5.identifier == Identifier(5)
    requires c == [[Held(n1)], [], [Held(n4), Held(n5)]]
    requires owner == Identifier(0) && target == Identifier(3)
    ensures KClosest(c, owner, target, 1) == Success([Held(n5)])
  {
    var cand := [Held(n1), Held(n4), Held(n5)];
    CounterexampleCandidates(c, cand);
    assert |c| == 3;
    assert BucketOf(owner, target, |c|) == Some(1);
    CounterexampleFar(n1, n4, n5, cand, owner);
    assert KClosest(c, owner, target, 1) == Success(Take(SortFarthestFirst(cand, owner), 1));
  }

  /** The corrected half of KClosestCounterexample. */
  lemma CounterexampleCorrected(n1: TsNode, n4: TsNode, n5: TsNode, c: seq<seq<Slot>>, owner: Identifier, target: Identifier)
    requires n1.identifier == Identifier(1)
    requires n4.identifier == Identifier(4) && n5.identifier == Identifier(5)
    requires c == [[Held(n1)], [], [Held(n4), Held(n5)]]
    requires owner == Identifier(0) && target == Identifier(3)
    ensures CorrectedKClosest(c, owner, target, 1) == Success([Held(n1)])
  {
    var cand := [Held(n1), Held(n4), Held(n5)];
    CounterexampleCandidates(c, cand);
    assert |c| == 3;
    assert BucketOf(owner, target, |c|) == Some(1);
    CounterexampleNear(n1, n4, n5, cand, target);
    assert CorrectedKClosest(c, owner, target, 1) == Success(Take(SortBy(Filter(cand, IsHeld), Nearness(target)), 1));
  }

  /** Target 3 falls in bucket 1 of owner 0; that bucket is empty, so the
      candidates are buckets 0 and 2. */
  lemma CounterexampleCandidates(c: seq<seq<Slot>>, cand: seq<Slot>)
    requires |c| == 3 && c[1] == [] && cand == c[0] + c[2]
    ensures BucketOf(Identifier(0), Identifier(3), 3) == Some(1)
    ensures Candidates(c, 1, 1) == cand
  {
    SmallJsDistance(0, 3);
    assert Xor(0, 3) == 3;
    assert Pow2(1) == 2 && Pow2(2) == 4 && Pow2(3) == 8;
    FloorLog2Unique(3, 1);
  }

  /** Of nodes 1, 4 and 5, node 5 is farthest from 0. */
  lemma CounterexampleFar(n1: TsNode, n4: TsNode, n5: TsNode, cand: seq<Slot>, owner: Identifier)
    requires n1.identifier == Identifier(1)
    requires n4.identifier == Identifier(4) && n5.identifier == Identifier(5)
    requires cand == [Held(n1), Held(n4), Held(n5)] && owner == Identifier(0)
    ensures Take(SortFarthestFirst(cand, owner), 1) == [Held(n5)]
  {
    FarKeys(n1, n4, n5, cand, owner);
    assert forall x :: x in cand ==> x.Held?;
    FarthestOfHeld(cand, owner, Held(n5));
  }

  /** Among held slots, one strictly farthest from the owner is the one kept
      when a single slot is asked for. */
  lemma FarthestOfHeld(cand: seq<Slot>, owner: Identifier, y: Slot)
    requires y in cand && forall x :: x in cand ==> x.Held?
    requires forall x :: x in cand && x != y ==> Farness(owner)(y) < Farness(owner)(x)
    ensures Take(SortFarthestFirst(cand, owner), 1) == [y]
  {
    TakeOneMin(cand, Farness(owner), y);
    SortFarthestFirstAllHeld(cand, owner);
  }

  lemma FarKeys(n1: TsNode, n4: TsNode, n5: TsNode, cand: seq<Slot>, owner: Identifier)
    requires n1.identifier == Identifier(1)
    requires n4.identifier == Identifier(4) && n5.identifier == Identifier(5)
    requires cand == [Held(n1), Held(n4), Held(n5)] && owner == Identifier(0)
    ensures Held(n5) in cand
    ensures forall x :: x in cand && x != Held(n5) ==> Farness(owner)(Held(n5)) < Farness(owner)(x)
  {
    SmallJsDistance(1, 0);
    SmallJsDistance(4, 0);
    SmallJsDistance(5, 0);
    assert Xor(1, 0) == 1 && Xor(4, 0) == 4 && Xor(5, 0) == 5;
    assert Farness(owner)(Held(n1)) == -1 && Farness(owner)(Held(n4)) == -4;
    assert Farness(owner)(Held(n5)) == -5;
  }

  /** Of nodes 1, 4 and 5, node 1 is nearest to 3. */
  lemma CounterexampleNear(n1: TsNode, n4: TsNode, n5: TsNode, cand: seq<Slot>, target: Identifier)
    requires n1.identifier == Identifier(1)
    requires n4.identifier == Identifier(4) && n5.identifier == Identifier(5)
    requires cand == [Held(n1), Held(n4), Held(n5)] && target == Identifier(3)
    ensures Take(SortBy(Filter(cand, IsHeld), Nearness(target)), 1) == [Held(n1)]
  {
    NearKeys(n1, n4, n5, cand, target);
    assert forall x :: x in cand ==> IsHeld(x);
    NearestOfHeld(cand, target, Held(n1));
  }

  /** Among held slots, one strictly nearest to the target is the one kept
      when a single slot is asked for. */
  lemma NearestOfHeld(cand: seq<Slot>, target: Identifier, y: Slot)
    requires y in cand && forall x :: x in cand ==> IsHeld(x)
    requires forall x :: x in cand && x != y ==> Nearness(target)(y) < Nearness(target)(x)
    ensures Take(SortBy(Filter(cand, IsHeld), Nearness(target)), 1) == [y]
  {
    TakeOneMin(cand, Nearness(target), y);
    FilterKeepsAll(cand, IsHeld);
  }

  lemma NearKeys(n1: TsNode, n4: TsNode, n5: TsNode, cand: seq<Slot>, target: Identifier)
    requires n1.identifier == Identifier(1)
    requires n4.identifier == Identifier(4) && n5.identifier == Identifier(5)
    requires cand == [Held(n1), Held(n4), Held(n5)] && target == Identifier(3)
    ensures Held(n1) in cand
    ensures forall x :: x in cand && x != Held(n1) ==> Nearness(target)(Held(n1)) < Nearness(target)(x)
  {
    SmallJsDistance(1, 3);
    SmallJsDistance(4, 3);
    SmallJsDistance(5, 3);
    assert Xor(1, 3) == 2 && Xor(4, 3) == 7 && Xor(5, 3) == 6;
    assert Nearness(target)(Held(n1)) == 2 && Nearness(target)(Held(n4)) == 7;
    assert Nearness(target)(Held(n5)) == 6;
  }

  /** The bucket arrays of a table, in bucket order. */
  class TsRoutingTable {
    const m: nat
    const k: nat
    var buckets: seq<TsBucket>

    ghost predicate Valid()
      reads this, buckets
    {
      && |buckets| == m
      && (forall i, j :: 0 <= i < j < |buckets| ==> buckets[i] != buckets[j])
      && (forall i :: 0 <= i < |buckets| ==> buckets[i].k == k)
    }

    /** The arrays of the buckets, in bucket order. */
    function Contents(): (c: seq<seq<Slot>>)
      reads this, buckets
      ensures |c| == |buckets|
      ensures forall i :: 0 <= i < |buckets| ==> c[i] == buckets[i].nodes
    {
      seq(|buckets|, i reads this, buckets requires 0 <= i < |buckets| => buckets[i].nodes)
    }

    /** m fresh, empty buckets of capacity k. */
    constructor (m: nat, k: nat)
      ensures this.m == m && this.k == k && Valid()
      ensures forall i :: 0 <= i < m ==> Contents()[i] == []
      ensures forall b :: b in buckets ==> fresh(b)
    {
      this.m := m;
      this.k := k;
      var bs: seq<TsBucket> := [];
      var i := 0;
      while i < m
        invariant 0 <= i <= m && |bs| == i
        invariant forall j :: 0 <= j < i ==> fresh(bs[j]) && bs[j].k == k && bs[j].nodes == []
        invariant forall j, l :: 0 <= j < l < i ==> bs[j] != bs[l]
      {
        var b := new TsBucket(k);
        bs := bs + [b];
        i := i + 1;
      }
      buckets := bs;
    }

    /** The first bucket i whose range [2^i, 2^(i+1)) holds the distance. */
    method GetClosestBucket(source: TsNode, target: Identifier) returns (r: Option<nat>)
      ensures r == BucketOf(source.identifier, target, |buckets|)
    {
      var distance := source.identifier.JsDistanceTo(target);
      var i := 0;
      while i < |buckets|
        invariant 0 <= i <= |buckets|
        invariant distance <= 0 || distance >= Pow2(i)
      {
        if Pow2(i) <= distance < Pow2(i + 1) {
          FloorLog2Unique(distance, i);
          Pow2Monotone(i + 1, |buckets|);
          return Some(i);
        }
        i := i + 1;
      }
      return None;
    }

    method Insert(source: TsNode, target: TsNode) returns (outcome: Outcome)
      requires Valid()
      modifies buckets
      ensures Valid()
      ensures TableInserted(old(Contents()), source.identifier, target, k).Failure? ==>
                outcome == Thrown(TableInserted(old(Contents()), source.identifier, target, k).error) &&
                Contents() == old(Contents())
      ensures TableInserted(old(Contents()), source.identifier, target, k).Success? ==>
                outcome == Done && Contents() == TableInserted(old(Contents()), source.identifier, target, k).value
    {
      if source.Equals(target) {
        return Done;
      }
      var index := GetClosestBucket(source, target.identifier);
      if index.None? {
        // bucket.insert on null
        return Thrown(TypeError);
      }
      ghost var before := Contents();
      var bucket := buckets[index.value];
      // Node.ping always answers true
      outcome := bucket.Insert(target, true);
      assert Contents() == before[index.value := bucket.nodes];
    }

    /** Reads the buckets and sorts a fresh array; no bucket changes. */
    method GetKClosestTo(source: TsNode, target: Identifier) returns (r: Result<seq<Slot>>)
      requires Valid()
      ensures r == KClosest(Contents(), source.identifier, target, k)
    {
      var closest := GetClosestBucket(source, target);
      if closest.None? {
        // closestBucket.length() on null
        return Failure(TypeError);
      }
      // findIndex(b => b === closestBucket) gives back this index: the buckets are distinct objects
      var bucketIndex := closest.value;
      var kClosestNodes := GatherCandidates(bucketIndex);
      kClosestNodes := SortFarthestFirst(kClosestNodes, source.identifier);
      if |kClosestNodes| > k {
        return Success(kClosestNodes[..k]);
      }
      return Success(kClosestNodes);
    }

    /** The evidently intended getKClosestTo: the same candidates, nearest to
        the target first, cut to k. */
    method GetKClosestToCorrected(source: TsNode, target: Identifier) returns (r: Result<seq<Slot>>)
      requires Valid()
      ensures r == CorrectedKClosest(Contents(), source.identifier, target, k)
    {
      var closest := GetClosestBucket(source, target);
      if closest.None? {
        return Failure(TypeError);
      }
      var kClosestNodes := GatherCandidates(closest.value);
      kClosestNodes := SortBy(Filter(kClosestNodes, IsHeld), Nearness(target));
      if |kClosestNodes| > k {
        return Success(kClosestNodes[..k]);
      }
      return Success(kClosestNodes);
    }

    /** The gathering step of getKClosestTo: the closest bucket's nodes, and
        when it holds fewer than k, those of the buckets on either side. */
    method GatherCandidates(bucketIndex: nat) returns (kClosestNodes: seq<Slot>)
      requires Valid() && bucketIndex < |buckets|
      ensures kClosestNodes == Candidates(Contents(), bucketIndex, k)
    {
      var closestBucket := buckets[bucketIndex];
      ghost var c := Contents();
      ghost var prev := if bucketIndex > 0 then c[bucketIndex - 1] else [];
      ghost var next := if bucketIndex + 1 < |c| then c[bucketIndex + 1] else [];
      closestBucket.GetNodesKeepsAll();
      assert closestBucket.Length() == |c[bucketIndex]|;
      if closestBucket.Length() < k {
        kClosestNodes := closestBucket.GetNodes(KeepAll);
        if bucketIndex > 0 {
          buckets[bucketIndex - 1].GetNodesKeepsAll();
          kClosestNodes := kClosestNodes + buckets[bucketIndex - 1].GetNodes(KeepAll);
        }
        assert kClosestNodes == c[bucketIndex] + prev;
        if bucketIndex < |buckets| - 1 {
          buckets[bucketIndex + 1].GetNodesKeepsAll();
          kClosestNodes := kClosestNodes + buckets[bucketIndex + 1].GetNodes(KeepAll);
        }
        assert kClosestNodes == c[bucketIndex] + prev + next;
      } else {
        kClosestNodes := closestBucket.GetNodes(KeepAll);
      }
    }
  }

  /** updateRoutingTable: the nodes are inserted in order, and the first
      insert that throws ends the call with the earlier inserts kept. */
  function InsertedAll(c: seq<seq<Slot>>, owner: Identifier, nodes: seq<TsNode>, k: nat): (Outcome, seq<seq<Slot>>)
    decreases |nodes|
  {
    if nodes == [] then (Done, c)
    else match TableInserted(c, owner, nodes[0], k)
      case Failure(e) => (Thrown(e), c)
      case Success(next) => InsertedAll(next, owner, nodes[1..], k)
  }

  /** The batch from position i on: the insertion of nodes[i], then the rest
      of the batch unless it threw. */
  lemma InsertedAllStep(c: seq<seq<Slot>>, owner: Identifier, nodes: seq<TsNode>, i: nat, k: nat)
    requires i < |nodes|
    ensures TableInserted(c, owner, nodes[i], k).Failure? ==>
              InsertedAll(c, owner, nodes[i..], k) == (Thrown(TableInserted(c, owner, nodes[i], k).error), c)
    ensures TableInserted(c, owner, nodes[i], k).Success? ==>
              InsertedAll(c, owner, nodes[i..], k) == InsertedAll(TableInserted(c, owner, nodes[i], k).value, owner, nodes[i + 1..], k)
  {
    assert nodes[i..][0] == nodes[i] && nodes[i..][1..] == nodes[i + 1..];
  }

  /** A batch keeps the table placed, and completes when every identifier is
      below 2^m, m <= 31 and k >= 1. */
  lemma {:induction false} InsertedAllKeepsPlaced(c: seq<seq<Slot>>, owner: Identifier, nodes: seq<TsNode>, k: nat)
    requires Placed(c, owner, k)
    ensures |InsertedAll(c, owner, nodes, k).1| == |c|
    ensures Placed(InsertedAll(c, owner, nodes, k).1, owner, k)
    ensures k >= 1 && |c| <= 31 && owner.value < Pow2(|c|) && (forall n :: n in nodes ==> n.identifier.value < Pow2(|c|)) ==>
              InsertedAll(c, owner, nodes, k).0 == Done
    decreases |nodes|
  {
    if nodes != [] {
      TableInsertedKeepsPlaced(c, owner, nodes[0], k);
      if owner != nodes[0].identifier && k >= 1 && |c| <= 31 && owner.value < Pow2(|c|) && nodes[0].identifier.value < Pow2(|c|) {
        BucketOfInRange(owner, nodes[0].identifier, |c|);
      }
      if TableInserted(c, owner, nodes[0], k).Success? {
        InsertedAllKeepsPlaced(TableInserted(c, owner, nodes[0], k).value, owner, nodes[1..], k);
      }
    }
  }

  /** src/node.model.ts: a node, its identifier and its routing table. */
  class TsNode {
    const identifier: Identifier
    const k: nat
    const m: nat
    const table: TsRoutingTable

    ghost predicate Valid()
      reads table, table.buckets
    {
      table.Valid() && table.k == k && table.m == m && Placed(table.Contents(), identifier, k)
    }

    /** The identifier wraps `id`; the table has m empty buckets of capacity k. */
    constructor (id: nat, k: nat, m: nat)
      ensures identifier == Identifier(id) && this.k == k && this.m == m
      ensures Valid() && fresh(table)
      ensures forall i :: 0 <= i < m ==> table.Contents()[i] == []
    {
      identifier := Identifier(id);
      this.k := k;
      this.m := m;
      table := new TsRoutingTable(m, k);
    }

    /** The caller is inserted first, then the table answers for the caller's
        identifier. */
    method FindNode(node: TsNode) returns (r: Result<seq<Slot>>)
      requires Valid()
      modifies table.buckets
      ensures Valid()
      ensures TableInserted(old(table.Contents()), identifier, node, k).Failure? ==>
                r == Failure(TableInserted(old(table.Contents()), identifier, node, k).error) &&
                table.Contents() == old(table.Contents())
      ensures TableInserted(old(table.Contents()), identifier, node, k).Success? ==>
                table.Contents() == TableInserted(old(table.Contents()), identifier, node, k).value &&
                r == KClosest(table.Contents(), identifier, node.identifier, k)
      ensures (identifier != node.identifier && k >= 1 && m <= 31 &&
               identifier.value < Pow2(m) && node.identifier.value < Pow2(m)) ==> r.Success?
    {
      ghost var c := table.Contents();
      FindNodeOutcome(c, identifier, node, k, m);
      var outcome := table.Insert(this, node);
      if outcome.Thrown? {
        return Failure(outcome.error);
      }
      assert table.Contents() == TableInserted(c, identifier, node, k).value;
      r := table.GetKClosestTo(this, node.identifier);
    }

    function Ping(): (alive: bool)
      ensures alive
    {
      true
    }

    method UpdateRoutingTable(nodes: seq<TsNode>) returns (outcome: Outcome)
      requires Valid()
      modifies table.buckets
      ensures Valid()
      ensures (outcome, table.Contents()) == InsertedAll(old(table.Contents()), identifier, nodes, k)
    {
      var i := 0;
      while i < |nodes|
        invariant 0 <= i <= |nodes| && Valid()
        invariant InsertedAll(old(table.Contents()), identifier, nodes, k) ==
                  InsertedAll(table.Contents(), identifier, nodes[i..], k)
      {
        ghost var c := table.Contents();
        TableInsertedPlaced(c, identifier, nodes[i], k);
        InsertedAllStep(c, identifier, nodes, i, k);
        var o := table.Insert(this, nodes[i]);
        if o.Thrown? {
          return o;
        }
        assert table.Contents() == TableInserted(c, identifier, nodes[i], k).value;
        i := i + 1;
      }
      return Done;
    }

    /** Identifier equality; below 2^31 it is the same as distance 0. */
    function Equals(other: TsNode): (r: bool)
      ensures r <==> identifier == other.identifier
      ensures r ==> GetDistanceTo(other) == 0
      ensures identifier.value < Pow2(31) && other.identifier.value < Pow2(31) ==> (r <==> GetDistanceTo(other) == 0)
    {
      JsXorSelf(identifier.value);
      if identifier.value < Pow2(31) && other.identifier.value < Pow2(31) then
        JsXorAgreesBelow31(identifier.value, other.identifier.value);
        XorZeroIff(identifier.value, other.identifier.value);
        identifier.value == other.identifier.value
      else
        identifier.value == other.identifier.value
    }

    /** The JavaScript XOR of the identifiers: a signed 32-bit value, equal to
        the integer XOR for identifiers below 2^31. */
    function GetDistanceTo(other: TsNode): (d: int)
      ensures -(Pow2(31) as int) <= d < Pow2(31)
      ensures identifier.value < Pow2(31) && other.identifier.value < Pow2(31) ==> d == identifier.DistanceTo(other.identifier)
    {
      JsXorRange(identifier.value, other.identifier.value);
      if identifier.value < Pow2(31) && other.identifier.value < Pow2(31) then
        JsXorAgreesBelow31(identifier.value, other.identifier.value);
        identifier.JsDistanceTo(other.identifier)
      else
        identifier.JsDistanceTo(other.identifier)
    }
  }

  /** The distance between two nodes does not depend on the direction. */
  lemma DistanceSymmetric(a: TsNode, b: TsNode)
    ensures a.GetDistanceTo(b) == b.GetDistanceTo(a)
  {
    JsXorSymmetric(a.identifier.value, b.identifier.value);
  }
}
