/** The list steps of the iterative lookup, shared by both C# trees
    (Kademlia/Core/Node.cs and csharp/Kademlia/Core/Node.cs): LINQ OrderBy,
    Take, Concat, Distinct and Where over the nodes of a round. `key` is the
    distance of a node to the lookup target. */
module LookupSteps {
  import opened Constants
  import opened ListOps

  /** The first frontier: the known nodes nearest the target (smallest key),
      nearest first,
      cut to Alpha (OrderBy, then Take(Alpha)). */
  function NearestAlpha<T>(closest: seq<T>, key: T -> int): seq<T>
  {
    Take(SortBy(closest, key), Alpha)
  }

  /** The first frontier is sorted, at most Alpha long, drawn from the known
      nodes, empty only when they are, and nothing it leaves out is nearer
      than what it keeps. */
  lemma NearestAlphaProperties<T>(closest: seq<T>, key: T -> int)
    ensures SortedBy(NearestAlpha(closest, key), key)
    ensures |NearestAlpha(closest, key)| <= Alpha
    ensures forall x :: x in NearestAlpha(closest, key) ==> x in closest
    ensures NoDup(closest) ==> NoDup(NearestAlpha(closest, key))
    ensures |NearestAlpha(closest, key)| == 0 <==> |closest| == 0
    ensures forall x, y :: x in closest && x !in NearestAlpha(closest, key) && y in NearestAlpha(closest, key) ==>
              key(y) <= key(x)
  {
    var sorted := SortBy(closest, key);
    var r := Take(sorted, Alpha);
    PrefixSorted(r, sorted, key);
    if NoDup(closest) {
      PermutationNoDup(sorted, closest);
      PrefixNoDup(r, sorted);
    }
    assert |sorted| == |multiset(sorted)| == |closest|;
    SameElements(sorted, closest);
    PrefixDropsFarther(r, sorted, key);
  }

  /** The first n after a sort by key: sorted, drawn from s, no dropped
      element with a smaller key than a kept one, and all of s when s has at
      most n elements. */
  lemma NearestCut<T>(s: seq<T>, key: T -> int, n: nat)
    ensures SortedBy(Take(SortBy(s, key), n), key)
    ensures |Take(SortBy(s, key), n)| <= n
    ensures forall x :: x in Take(SortBy(s, key), n) ==> x in s
    ensures forall x, y :: x in s && x !in Take(SortBy(s, key), n) && y in Take(SortBy(s, key), n) ==>
              key(y) <= key(x)
    ensures |s| <= n ==> multiset(Take(SortBy(s, key), n)) == multiset(s)
  {
    var sorted := SortBy(s, key);
    var r := Take(sorted, n);
    PrefixSorted(r, sorted, key);
    assert |sorted| == |multiset(sorted)| == |s|;
    SameElements(sorted, s);
    PrefixDropsFarther(r, sorted, key);
  }

  /** A permutation has the same elements. */
  lemma SameElements<T>(a: seq<T>, b: seq<T>)
    requires multiset(a) == multiset(b)
    ensures forall x :: x in a <==> x in b
  {
    forall x ensures x in a <==> x in b {
      assert x in a <==> x in multiset(a);
      assert x in b <==> x in multiset(b);
    }
  }

  /** The merge of a round: the K nearest distinct nodes among the current
      result and the nodes returned this round (Concat, Distinct, OrderBy,
      Take(K)). */
  function Merge<T(==)>(kAbsoluteClosest: seq<T>, currentNodes: seq<T>, key: T -> int): seq<T>
  {
    Take(SortBy(Distinct(kAbsoluteClosest + currentNodes), key), K)
  }

  /** The merge is sorted, distinct and at most K long, draws only on its
      two inputs, and stays non-empty once the result is. */
  lemma MergeProperties<T>(kAbsoluteClosest: seq<T>, currentNodes: seq<T>, key: T -> int)
    ensures SortedBy(Merge(kAbsoluteClosest, currentNodes, key), key)
    ensures NoDup(Merge(kAbsoluteClosest, currentNodes, key))
    ensures |Merge(kAbsoluteClosest, currentNodes, key)| <= K
    ensures forall x :: x in Merge(kAbsoluteClosest, currentNodes, key) ==> x in kAbsoluteClosest || x in currentNodes
    ensures kAbsoluteClosest != [] ==> Merge(kAbsoluteClosest, currentNodes, key) != []
  {
    var all := kAbsoluteClosest + currentNodes;
    var distinct := Distinct(all);
    var sorted := SortBy(distinct, key);
    var r := Take(sorted, K);
    PrefixSorted(r, sorted, key);
    PermutationNoDup(sorted, distinct);
    PrefixNoDup(r, sorted);
    SameElements(sorted, distinct);
    assert forall x :: x in r ==> x in sorted by {
      forall x | x in r ensures x in sorted {
        var k :| 0 <= k < |r| && r[k] == x;
        assert sorted[k] == x;
      }
    }
    if kAbsoluteClosest != [] {
      assert all[0] in sorted;
    }
  }

  /** The merge keeps the K nearest: nothing it drops is nearer than what it
      keeps. */
  lemma MergeKeepsNearest<T>(kAbsoluteClosest: seq<T>, currentNodes: seq<T>, key: T -> int)
    ensures forall x, y ::
              (x in kAbsoluteClosest || x in currentNodes) && x !in Merge(kAbsoluteClosest, currentNodes, key) && y in Merge(kAbsoluteClosest, currentNodes, key)
              ==> key(y) <= key(x)
  {
    var all := kAbsoluteClosest + currentNodes;
    var distinct := Distinct(all);
    var sorted := SortBy(distinct, key);
    SameElements(sorted, distinct);
    assert forall x :: x in kAbsoluteClosest || x in currentNodes ==> x in sorted;
    PrefixDropsFarther(Take(sorted, K), sorted, key);
  }

  /** In a list sorted by distance, what the prefix leaves out is no nearer
      than anything the prefix keeps. */
  lemma PrefixDropsFarther<T>(r: seq<T>, sorted: seq<T>, key: T -> int)
    requires r <= sorted && SortedBy(sorted, key)
    ensures forall x, y :: x in sorted && x !in r && y in r ==> key(y) <= key(x)
  {
    forall x, y | x in sorted && x !in r && y in r ensures key(y) <= key(x) {
      var a :| 0 <= a < |sorted| && sorted[a] == x;
      var b :| 0 <= b < |r| && r[b] == y;
      assert sorted[b] == y;
      assert forall k :: 0 <= k < |r| ==> r[k] == sorted[k];
      assert a >= |r|;
    }
  }

  /** The next frontier: up to Alpha members of the result not yet queried,
      in result order (Where, then Take(Alpha)). */
  function NextFrontier<T>(kAbsoluteClosest: seq<T>, unqueried: T -> bool): (r: seq<T>)
    ensures |r| <= Alpha
    ensures forall x :: x in r ==> x in kAbsoluteClosest && unqueried(x)
  {
    Take(Filter(kAbsoluteClosest, unqueried), Alpha)
  }
}
