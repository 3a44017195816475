/** NodeArrayHelper and its ConfigurableArray builder (src/array-helper.helper.ts
    and array-helper.helper.ts): list combinators over the nodes of a lookup.
    The builder holds one array; `limit` and `selectDistinct` replace it with a
    new array, `removeAnyInside` and `sortByXorDistanceTo` change it in place,
    and each returns the builder itself. */
module TsArrayHelper {
  import opened Wrappers
  import opened Identifiers
  import opened ListOps
  import opened TsKademlia

  /** Array.prototype.slice(0, end): a negative end counts from the back. */
  function SliceTo<T>(s: seq<T>, end: int): (r: seq<T>)
    ensures r <= s
  {
    if end >= 0 then (if end <= |s| then s[..end] else s)
    else if |s| + end >= 0 then s[..|s| + end]
    else []
  }

  /** What `limit` leaves in the array. */
  function Limited(s: seq<TsNode>, limit: int): seq<TsNode> {
    if |s| > limit then SliceTo(s, limit) else s
  }

  /** `limit(n)` keeps a prefix: the first min(|s|, n) nodes for n >= 0, and
      for a negative n it drops the last -n nodes (slice counts a negative end
      from the back). A second limit with the same n >= 0 changes nothing. */
  lemma LimitedPrefix(s: seq<TsNode>, limit: int)
    ensures Limited(s, limit) <= s
    ensures limit >= 0 ==> |Limited(s, limit)| == if |s| <= limit then |s| else limit
    ensures limit < 0 ==> |Limited(s, limit)| == if |s| + limit >= 0 then |s| + limit else 0
    ensures limit >= 0 ==> Limited(Limited(s, limit), limit) == Limited(s, limit)
  {
  }

  /** The callback of selectDistinct's map, with the Map as the set of
      identifiers met so far, followed by the filter that drops the nulls. */
  function DistinctById(s: seq<TsNode>, seen: set<Identifier>): (r: seq<TsNode>)
    ensures forall x :: x in r ==> x in s && x.identifier !in seen
    ensures |r| <= |s|
  {
    if s == [] then []
    else if s[0].identifier in seen then DistinctById(s[1..], seen)
    else [s[0]] + DistinctById(s[1..], seen + {s[0].identifier})
  }

  /** No two nodes share an identifier. */
  ghost predicate UniqueIds(s: seq<TsNode>) {
    forall i, j :: 0 <= i < j < |s| ==> s[i].identifier != s[j].identifier
  }

  /** The predicate `node => node.identifier.id == id`. */
  function HasId(id: Identifier): TsNode -> bool {
    (n: TsNode) => n.identifier == id
  }

  /** selectDistinct leaves identifiers unique. */
  lemma {:induction false} DistinctByIdUnique(s: seq<TsNode>, seen: set<Identifier>)
    ensures UniqueIds(DistinctById(s, seen))
  {
    if s != [] && s[0].identifier !in seen {
      var t := DistinctById(s[1..], seen + {s[0].identifier});
      DistinctByIdUnique(s[1..], seen + {s[0].identifier});
      forall i, j | 0 <= i < j < |[s[0]] + t|
        ensures ([s[0]] + t)[i].identifier != ([s[0]] + t)[j].identifier
      {
        assert ([s[0]] + t)[j] == t[j - 1] && t[j - 1] in t;
        if i > 0 {
          assert ([s[0]] + t)[i] == t[i - 1];
        }
      }
    } else if s != [] {
      DistinctByIdUnique(s[1..], seen);
    }
  }

  /** Every identifier of the input that was not met before survives. */
  lemma {:induction false} DistinctByIdKeepsEveryId(s: seq<TsNode>, seen: set<Identifier>, x: TsNode)
    requires x in s && x.identifier !in seen
    ensures exists y :: y in DistinctById(s, seen) && y.identifier == x.identifier
  {
    if s[0].identifier in seen {
      DistinctByIdKeepsEveryId(s[1..], seen, x);
    } else if x.identifier == s[0].identifier {
      assert s[0] in DistinctById(s, seen);
    } else {
      DistinctByIdKeepsEveryId(s[1..], seen + {s[0].identifier}, x);
      var y :| y in DistinctById(s[1..], seen + {s[0].identifier}) && y.identifier == x.identifier;
      assert y in DistinctById(s, seen);
    }
  }

  /** Each kept node is the first node of the input with its identifier. */
  lemma {:induction false} DistinctByIdKeepsFirst(s: seq<TsNode>, seen: set<Identifier>, x: TsNode)
    requires x in DistinctById(s, seen)
    ensures FirstWhere(s, HasId(x.identifier)) == Some(x)
  {
    if s[0].identifier in seen {
      assert x.identifier != s[0].identifier;
      DistinctByIdKeepsFirst(s[1..], seen, x);
    } else if x != s[0] {
      var t := DistinctById(s[1..], seen + {s[0].identifier});
      assert x in t;
      assert x.identifier != s[0].identifier;
      DistinctByIdKeepsFirst(s[1..], seen + {s[0].identifier}, x);
    }
  }

  /** The kept nodes keep their relative order. */
  lemma {:induction false} DistinctByIdSubsequence(s: seq<TsNode>, seen: set<Identifier>)
    ensures Subsequence(DistinctById(s, seen), s)
  {
    if s != [] {
      if s[0].identifier in seen {
        DistinctByIdSubsequence(s[1..], seen);
        SubsequenceSkip(DistinctById(s[1..], seen), s[1..], s[0]);
        assert [s[0]] + s[1..] == s;
      } else {
        var t := DistinctById(s[1..], seen + {s[0].identifier});
        DistinctByIdSubsequence(s[1..], seen + {s[0].identifier});
        assert ([s[0]] + t)[1..] == t;
      }
    }
  }

  /** Nodes with unique identifiers none of which was met are left alone. */
  lemma {:induction false} DistinctByIdOfUnique(s: seq<TsNode>, seen: set<Identifier>)
    requires UniqueIds(s) && forall x :: x in s ==> x.identifier !in seen
    ensures DistinctById(s, seen) == s
  {
    if s != [] {
      forall x | x in s[1..] ensures x.identifier !in seen + {s[0].identifier} {
        var j :| 0 <= j < |s[1..]| && s[1..][j] == x;
        assert s[j + 1] == x;
      }
      assert UniqueIds(s[1..]) by {
        forall i, j | 0 <= i < j < |s[1..]| ensures s[1..][i].identifier != s[1..][j].identifier {
          assert s[1..][i] == s[i + 1] && s[1..][j] == s[j + 1];
        }
      }
      DistinctByIdOfUnique(s[1..], seen + {s[0].identifier});
    }
  }

  /** selectDistinct is idempotent. */
  lemma SelectDistinctIdempotent(s: seq<TsNode>)
    ensures DistinctById(DistinctById(s, {}), {}) == DistinctById(s, {})
  {
    DistinctByIdUnique(s, {});
    DistinctByIdOfUnique(DistinctById(s, {}), {});
  }

  /** The filter `node => !!node`: the nodes among the map's results. */
  function Present(mapped: seq<Option<TsNode>>): (r: seq<TsNode>)
    ensures |r| <= |mapped|
  {
    if mapped == [] then []
    else (if mapped[0].Some? then [mapped[0].value] else []) + Present(mapped[1..])
  }

  lemma {:induction false} PresentAppend(mapped: seq<Option<TsNode>>, x: Option<TsNode>)
    ensures Present(mapped + [x]) == Present(mapped) + (if x.Some? then [x.value] else [])
  {
    if mapped != [] {
      assert (mapped + [x])[1..] == mapped[1..] + [x];
      PresentAppend(mapped[1..], x);
    }
  }

  /** One step of selectDistinct's map: a node whose identifier is new is
      mapped to itself, and the nodes still to come are deduplicated
      against one more identifier. */
  lemma {:induction false} SelectKeeps(s: seq<TsNode>, i: nat, seen: set<Identifier>, mapped: seq<Option<TsNode>>)
    requires i < |s| && s[i].identifier !in seen
    ensures Present(mapped + [Some(s[i])]) + DistinctById(s[i + 1..], seen + {s[i].identifier}) ==
            Present(mapped) + DistinctById(s[i..], seen)
  {
    assert s[i..][0] == s[i] && s[i..][1..] == s[i + 1..];
    PresentAppend(mapped, Some(s[i]));
    var rest := DistinctById(s[i + 1..], seen + {s[i].identifier});
    assert DistinctById(s[i..], seen) == [s[i]] + rest;
    assert Present(mapped) + [s[i]] + rest == Present(mapped) + ([s[i]] + rest);
  }

  /** One step of selectDistinct's map: a node whose identifier was met is
      mapped to null. */
  lemma {:induction false} SelectSkips(s: seq<TsNode>, i: nat, seen: set<Identifier>, mapped: seq<Option<TsNode>>)
    requires i < |s| && s[i].identifier in seen
    ensures Present(mapped + [None]) + DistinctById(s[i + 1..], seen) ==
            Present(mapped) + DistinctById(s[i..], seen)
  {
    assert s[i..][0] == s[i] && s[i..][1..] == s[i + 1..];
    PresentAppend(mapped, None);
    assert Present(mapped) + [] == Present(mapped);
  }

  /** The first `id` in `s`: Array.prototype.findIndex, or -1. */
  function IndexOfId(s: seq<TsNode>, id: int): (i: int)
    ensures -1 <= i < |s|
    ensures i >= 0 ==> s[i].identifier.value == id && forall j :: 0 <= j < i ==> s[j].identifier.value != id
    ensures i == -1 ==> forall j :: 0 <= j < |s| ==> s[j].identifier.value != id
  {
    if s == [] then -1
    else if s[0].identifier.value == id then 0
    else
      var i := IndexOfId(s[1..], id);
      if i == -1 then -1 else i + 1
  }

  /** The effect of one iteration of removeAnyInside: the first node with
      identifier `id`, if any, is removed. */
  function RemoveFirst(s: seq<TsNode>, id: int): (r: seq<TsNode>)
    ensures |s| - 1 <= |r| <= |s|
  {
    if s == [] then []
    else if s[0].identifier.value == id then s[1..]
    else [s[0]] + RemoveFirst(s[1..], id)
  }

  /** RemoveFirst is the splice at findIndex's answer, and it removes exactly
      one node when some node has identifier `id`. */
  lemma {:induction false} RemoveFirstIsSplice(s: seq<TsNode>, id: int)
    ensures IndexOfId(s, id) >= 0 ==>
              RemoveFirst(s, id) == s[..IndexOfId(s, id)] + s[IndexOfId(s, id) + 1..] &&
              |RemoveFirst(s, id)| == |s| - 1
    ensures IndexOfId(s, id) == -1 ==> RemoveFirst(s, id) == s
  {
    if s != [] && s[0].identifier.value != id {
      var t := s[1..];
      RemoveFirstIsSplice(t, id);
      var i := IndexOfId(t, id);
      assert IndexOfId(s, id) == if i == -1 then -1 else i + 1;
      assert RemoveFirst(s, id) == [s[0]] + RemoveFirst(t, id);
      if i >= 0 {
        SpliceCons(s, i);
      }
    } else if s != [] {
      assert IndexOfId(s, id) == 0 && s[..0] + s[1..] == s[1..];
    }
  }

  /** Splicing position i + 1 out of s is splicing position i out of its
      tail, behind the head. */
  lemma SpliceCons<T>(s: seq<T>, i: nat)
    requires i + 1 < |s|
    ensures [s[0]] + (s[1..][..i] + s[1..][i + 1..]) == s[..i + 1] + s[i + 2..]
  {
    assert s[..i + 1] == [s[0]] + s[1..][..i];
    assert s[i + 2..] == s[1..][i + 1..];
  }

  /** Other nodes keep their order. */
  lemma {:induction false} RemoveFirstSubsequence(s: seq<TsNode>, id: int)
    ensures Subsequence(RemoveFirst(s, id), s)
  {
    if s != [] {
      if s[0].identifier.value == id {
        SubsequenceRefl(s[1..]);
        SubsequenceSkip(s[1..], s[1..], s[0]);
        assert [s[0]] + s[1..] == s;
      } else {
        RemoveFirstSubsequence(s[1..], id);
        assert ([s[0]] + RemoveFirst(s[1..], id))[1..] == RemoveFirst(s[1..], id);
      }
    }
  }

  /** Nodes with another identifier keep their number of occurrences. */
  lemma {:induction false} RemoveFirstKeepsOthers(s: seq<TsNode>, id: int)
    ensures multiset(RemoveFirst(s, id)) <= multiset(s)
    ensures forall x: TsNode :: x.identifier.value != id ==> multiset(RemoveFirst(s, id))[x] == multiset(s)[x]
  {
    if s != [] {
      assert s == [s[0]] + s[1..];
      if s[0].identifier.value != id {
        RemoveFirstKeepsOthers(s[1..], id);
      }
    }
  }

  lemma {:induction false} SubsequenceRefl<T>(s: seq<T>)
    ensures Subsequence(s, s)
  {
    if s != [] {
      SubsequenceRefl(s[1..]);
    }
  }

  /** A subsequence of a subsequence of c is a subsequence of c. */
  lemma {:induction false} SubsequenceTransitive<T>(a: seq<T>, b: seq<T>, c: seq<T>)
    requires Subsequence(a, b) && Subsequence(b, c)
    ensures Subsequence(a, c)
    decreases |c|
  {
    if a != [] {
      if b[0] == c[0] {
        if a[0] == b[0] {
          SubsequenceTransitive(a[1..], b[1..], c[1..]);
        } else {
          SubsequenceTransitive(a, b[1..], c[1..]);
        }
      } else {
        SubsequenceTransitive(a, b, c[1..]);
        if a[0] == c[0] {
          SubsequenceDropHead(a, c[1..]);
        }
      }
    }
  }

  /** The array after removeAnyInside has walked through `ids`. */
  function RemovedAll(s: seq<TsNode>, ids: seq<int>): (r: seq<TsNode>)
    ensures |s| - |ids| <= |r| <= |s|
  {
    if ids == [] then s
    else RemoveFirst(RemovedAll(s, ids[..|ids| - 1]), ids[|ids| - 1])
  }

  /** removeAnyInside only deletes: the rest keep their order, and a node
      whose identifier is not among `ids` keeps all its occurrences. */
  lemma {:induction false} RemovedAllProperties(s: seq<TsNode>, ids: seq<int>)
    ensures Subsequence(RemovedAll(s, ids), s)
    ensures multiset(RemovedAll(s, ids)) <= multiset(s)
    ensures forall x: TsNode :: x.identifier.value !in ids ==> multiset(RemovedAll(s, ids))[x] == multiset(s)[x]
  {
    if ids == [] {
      SubsequenceRefl(s);
    } else {
      var init := ids[..|ids| - 1];
      var before := RemovedAll(s, init);
      RemovedAllProperties(s, init);
      RemoveFirstSubsequence(before, ids[|ids| - 1]);
      SubsequenceTransitive(RemovedAll(s, ids), before, s);
      RemoveFirstKeepsOthers(before, ids[|ids| - 1]);
      forall x: TsNode | x.identifier.value !in ids
        ensures multiset(RemovedAll(s, ids))[x] == multiset(s)[x]
      {
        forall j | 0 <= j < |init| ensures init[j] != x.identifier.value {
          assert init[j] == ids[j];
        }
      }
    }
  }

  /** Sort key of the comparator the code means, `b.d - a.d` with d the
      JavaScript XOR distance to the target: descending distance. */
  function FartherFirst(target: Identifier): TsNode -> int {
    (n: TsNode) => -n.identifier.JsDistanceTo(target)
  }

  /** The evidently intended sortByXorDistanceTo: a stable sort by descending
      distance to the target. */
  function SortedByDistanceDesc(s: seq<TsNode>, target: Identifier): seq<TsNode> {
    SortBy(s, FartherFirst(target))
  }

  /** The intended sort is a permutation with non-increasing distance. */
  lemma SortedByDistanceDescProperties(s: seq<TsNode>, target: Identifier)
    ensures multiset(SortedByDistanceDesc(s, target)) == multiset(s)
    ensures forall i, j :: 0 <= i < j < |SortedByDistanceDesc(s, target)| ==>
              SortedByDistanceDesc(s, target)[i].identifier.JsDistanceTo(target) >=
              SortedByDistanceDesc(s, target)[j].identifier.JsDistanceTo(target)
  {
    var r := SortedByDistanceDesc(s, target);
    forall i, j | 0 <= i < j < |r|
      ensures r[i].identifier.JsDistanceTo(target) >= r[j].identifier.JsDistanceTo(target)
    {
      assert FartherFirst(target)(r[i]) <= FartherFirst(target)(r[j]);
    }
  }

  /** As written, the comparator hands the target Identifier to
      Node.getDistanceTo, which reads `.identifier` from it; that is
      `undefined`, and Identifier.getDistanceTo then reads `.id` of
      `undefined`. Array.prototype.sort calls the comparator as soon as the
      array has two elements. */
  function SortOutcomeAsWritten(s: seq<TsNode>): (o: Outcome) {
    if |s| >= 2 then Thrown(TypeError) else Done
  }

  /** The as-written sort throws on every array with two nodes, and agrees
      with the intended sort only on arrays that need no sorting. */
  lemma SortAsWrittenThrows(s: seq<TsNode>, target: Identifier)
    ensures SortOutcomeAsWritten(s).Thrown? <==> |s| >= 2
    ensures SortOutcomeAsWritten(s) == Done ==> SortedByDistanceDesc(s, target) == s
  {
    if |s| == 1 {
      assert s[1..] == [];
    }
  }

  /** `NodeArrayHelper.from` and the builder it returns. */
  class ConfigurableArray {
    /** The private `array` field. */
    var nodes: seq<TsNode>

    constructor (nodes: seq<TsNode>)
      ensures this.nodes == nodes
    {
      this.nodes := nodes;
    }

    /** `limit(limit)`: keep the nodes when it is short enough, otherwise
        `slice(0, limit)`. */
    method Limit(limit: int) returns (self: ConfigurableArray)
      modifies this
      ensures nodes == Limited(old(nodes), limit) && self == this
    {
      if |nodes| > limit {
        nodes := SliceTo(nodes, limit);
      }
      return this;
    }

    /** `selectDistinct()`: map each node to itself the first time its
        identifier is met and to null afterwards, then drop the nulls. */
    method SelectDistinct() returns (self: ConfigurableArray)
      modifies this
      ensures nodes == DistinctById(old(nodes), {}) && self == this
    {
      var seen: set<Identifier> := {};
      var mapped: seq<Option<TsNode>> := [];
      var s := nodes;
      var i := 0;
      while i < |s|
        invariant 0 <= i <= |s|
        invariant Present(mapped) + DistinctById(s[i..], seen) == DistinctById(s, {})
      {
        var node := s[i];
        if node.identifier !in seen {
          SelectKeeps(s, i, seen, mapped);
          seen := seen + {node.identifier};
          mapped := mapped + [Some(node)];
        } else {
          SelectSkips(s, i, seen, mapped);
          mapped := mapped + [None];
        }
        i := i + 1;
      }
      assert s[i..] == [] && DistinctById([], seen) == [];
      assert Present(mapped) + [] == Present(mapped);
      nodes := Present(mapped);
      return this;
    }

    /** `removeAnyInside(alreadyQueried)`: for each identifier in turn,
        splice out the first node that has it. */
    method RemoveAnyInside(alreadyQueried: seq<int>) returns (self: ConfigurableArray)
      modifies this
      ensures nodes == RemovedAll(old(nodes), alreadyQueried) && self == this
    {
      var k := 0;
      while k < |alreadyQueried|
        invariant 0 <= k <= |alreadyQueried|
        invariant nodes == RemovedAll(old(nodes), alreadyQueried[..k])
      {
        var id := alreadyQueried[k];
        var index := IndexOfId(nodes, id);
        RemoveFirstIsSplice(nodes, id);
        if index >= 0 {
          nodes := nodes[..index] + nodes[index + 1..];
        }
        assert alreadyQueried[..k + 1][..k] == alreadyQueried[..k];
        k := k + 1;
      }
      assert alreadyQueried[..k] == alreadyQueried;
      return this;
    }

    /** `sortByXorDistanceTo(target)` as written: the array is left as it
        was, and the sort throws once there are two nodes to compare. */
    method SortByXorDistanceTo(target: Identifier) returns (outcome: Outcome, self: ConfigurableArray)
      modifies this
      ensures outcome == SortOutcomeAsWritten(old(nodes)) && nodes == old(nodes) && self == this
    {
      if |nodes| >= 2 {
        return Thrown(TypeError), this;
      }
      return Done, this;
    }

    /** The sort the comparator means: descending XOR distance to the
        target, in place. */
    method SortByXorDistanceToCorrected(target: Identifier) returns (self: ConfigurableArray)
      modifies this
      ensures nodes == SortedByDistanceDesc(old(nodes), target) && self == this
    {
      nodes := SortBy(nodes, FartherFirst(target));
      return this;
    }

    /** `get()`: the current array. */
    function Get(): (r: seq<TsNode>)
      reads this
      ensures r == nodes
    {
      nodes
    }
  }

  /** `NodeArrayHelper.from(source)`: a builder over the source. */
  method From(source: seq<TsNode>) returns (c: ConfigurableArray)
    ensures fresh(c) && c.nodes == source
  {
    c := new ConfigurableArray(source);
  }

  /** `NodeArrayHelper.fromMerge(first, second)`: a builder over the first
      nodes followed by the second. */
  method FromMerge(first: seq<TsNode>, second: seq<TsNode>) returns (c: ConfigurableArray)
    ensures fresh(c) && c.nodes == first + second
  {
    c := new ConfigurableArray(first + second);
  }
}
