/** k-buckets (csharp/Kademlia/Core/Bucket.cs): a list of at most k contacts
    ordered from least to most recently seen, with the replacement rule of
    section 2.2 of the Kademlia paper (Maymounkov and Mazieres, 2002). */
module Buckets {
  import opened Wrappers
  import opened ListOps

  /** List.Remove(x): drops the first occurrence of x, if any. */
  function RemoveFirst<T(==)>(s: seq<T>, x: T): (r: seq<T>)
    ensures x in s ==> |r| == |s| - 1
    ensures x !in s ==> r == s
    ensures multiset(r) == multiset(s) - multiset{x}
    ensures forall y :: y in r ==> y in s
  {
    if s == [] then []
    else
      assert s == [s[0]] + s[1..];
      if s[0] == x then s[1..]
      else
        var t := RemoveFirst(s[1..], x);
        RemoveFirstCons(s[0], s[1..], t, x);
        [s[0]] + t
  }

  /** The step of RemoveFirst past a head that is not x. */
  lemma RemoveFirstCons<T>(h: T, tail: seq<T>, t: seq<T>, x: T)
    requires h != x
    requires x in tail ==> |t| == |tail| - 1
    requires x !in tail ==> t == tail
    requires multiset(t) == multiset(tail) - multiset{x}
    requires forall y :: y in t ==> y in tail
    ensures x in [h] + tail ==> |[h] + t| == |[h] + tail| - 1
    ensures x !in [h] + tail ==> [h] + t == [h] + tail
    ensures multiset([h] + t) == multiset([h] + tail) - multiset{x}
    ensures forall y :: y in [h] + t ==> y in [h] + tail
  {
    assert multiset([h] + t) == multiset{h} + multiset(t);
    assert multiset([h] + tail) == multiset{h} + multiset(tail);
  }

  /** In a list without repetitions, removing x keeps every other element in
      its relative order: it is the same as filtering x out. */
  lemma {:induction false} RemoveFirstIsFilter<T>(s: seq<T>, x: T)
    requires NoDup(s)
    ensures RemoveFirst(s, x) == Filter(s, y => y != x)
  {
    if s != [] {
      if s[0] == x {
        assert x !in s[1..] by {
          forall j | 1 <= j < |s| ensures s[j] != x { }
        }
        FilterAllKept(s[1..], x);
      } else {
        RemoveFirstIsFilter(s[1..], x);
      }
    }
  }

  lemma {:induction false} FilterAllKept<T>(s: seq<T>, x: T)
    requires x !in s
    ensures Filter(s, y => y != x) == s
  {
    if s != [] {
      FilterAllKept(s[1..], x);
      assert s == [s[0]] + s[1..];
    }
  }

  /** Bucket.Insert as written in csharp/Kademlia/Core/Bucket.cs, for a bucket
      whose head exists (the full branch reads Nodes[0]); `headAlive` is what
      the head's Ping answered. */
  function CsInsert<T(==)>(nodes: seq<T>, target: T, headAlive: bool, k: int): seq<T>
    requires target in nodes || |nodes| != k || |nodes| > 0
  {
    if target in nodes then RemoveFirst(nodes, target) + [target]
    else if |nodes| != k then nodes + [target]
    else if headAlive then nodes + [nodes[0]]
    else nodes + [target]
  }

  /** The replacement rule as the paper states it, and as the comments of
      Bucket.Insert describe it: a known contact moves to the tail; a new one is
      appended while there is room; when the bucket is full the least recently
      seen contact (the head) is pinged, and either it moves to the tail and the
      newcomer is dropped, or it is evicted and the newcomer appended. */
  function Touch<T(==)>(nodes: seq<T>, target: T, headAlive: bool, k: nat): (r: seq<T>)
    ensures forall x :: x in r ==> x in nodes || x == target
  {
    if target in nodes then RemoveFirst(nodes, target) + [target]
    else if |nodes| < k then nodes + [target]
    else if nodes == [] then nodes
    else if headAlive then nodes[1..] + [nodes[0]]
    else nodes[1..] + [target]
  }

  /** Touch keeps a bucket within capacity and free of repetitions. */
  lemma TouchKeepsBucket<T>(nodes: seq<T>, target: T, headAlive: bool, k: nat)
    requires NoDup(nodes) && |nodes| <= k
    ensures NoDup(Touch(nodes, target, headAlive, k))
    ensures |Touch(nodes, target, headAlive, k)| <= k
    ensures target in nodes || |nodes| < k ==> Touch(nodes, target, headAlive, k)[|Touch(nodes, target, headAlive, k)| - 1] == target
  {
    var r := Touch(nodes, target, headAlive, k);
    if target in nodes {
      RemoveFirstIsFilter(nodes, target);
      FilterNoDup(nodes, y => y != target);
    } else if |nodes| == k && nodes != [] {
      assert nodes[0] !in nodes[1..] by {
        forall j | 1 <= j < |nodes| ensures nodes[j] != nodes[0] { }
      }
    }
  }

  lemma {:induction false} FilterNoDup<T>(s: seq<T>, p: T -> bool)
    requires NoDup(s)
    ensures NoDup(Filter(s, p))
  {
    if s != [] {
      FilterNoDup(s[1..], p);
      assert s[0] !in s[1..] by {
        forall j | 1 <= j < |s| ensures s[j] != s[0] { }
      }
    }
  }

  /** A known contact moves to the tail; the others keep their relative order. */
  lemma TouchKnown<T>(nodes: seq<T>, target: T, headAlive: bool, k: nat)
    requires NoDup(nodes) && target in nodes
    ensures Touch(nodes, target, headAlive, k) == Filter(nodes, y => y != target) + [target]
  {
    RemoveFirstIsFilter(nodes, target);
  }

  /** In a full bucket a live head is kept (moved to the tail) and the newcomer
      dropped; a dead head is evicted and the newcomer appended. */
  lemma TouchFull<T>(nodes: seq<T>, target: T, headAlive: bool, k: nat)
    requires |nodes| == k > 0 && target !in nodes
    ensures headAlive ==> Touch(nodes, target, headAlive, k) == nodes[1..] + [nodes[0]]
    ensures !headAlive ==> Touch(nodes, target, headAlive, k) == nodes[1..] + [target]
    ensures target in Touch(nodes, target, headAlive, k) <==> !headAlive
  {
    if headAlive {
      assert target !in nodes[1..] + [nodes[0]] by {
        forall j | 0 <= j < |nodes| - 1 ensures (nodes[1..] + [nodes[0]])[j] != target {
          assert nodes[1..][j] == nodes[j + 1];
        }
      }
    }
  }

  /** The legacy bucket, Insert exactly as written. */
  class Bucket<T(==)> {
    /** The capacity. */
    const k: int
    /** Contacts from least to most recently seen. */
    var nodes: seq<T>

    constructor (k: int)
      ensures this.k == k && nodes == []
    {
      this.k := k;
      nodes := [];
    }

    function IsFull(): (full: bool)
      reads this
      ensures full <==> |nodes| == k
    {
      |nodes| == k
    }

    /** A full bucket with nothing in it (k = 0) makes Nodes[0] throw. */
    method Insert(target: T, headAlive: bool) returns (outcome: Outcome)
      modifies this
      ensures target !in old(nodes) && |old(nodes)| == k && old(nodes) == [] ==>
                outcome == Thrown(IndexOutOfRange) && nodes == old(nodes)
      ensures target in old(nodes) || |old(nodes)| != k || old(nodes) != [] ==>
                outcome == Done && nodes == CsInsert(old(nodes), target, headAlive, k)
    {
      if target in nodes {
        nodes := RemoveFirst(nodes, target);
        nodes := nodes + [target];
        return Done;
      }
      if !IsFull() {
        nodes := nodes + [target];
        return Done;
      }
      if |nodes| == 0 {
        return Thrown(IndexOutOfRange);
      }
      var leastSeenNode := nodes[0];
      if headAlive {
        nodes := nodes + [leastSeenNode];
      } else {
        nodes := nodes + [target];
      }
      return Done;
    }
  }

  /** While only the first two branches run (a known contact, or room left),
      the legacy insert keeps a bucket within capacity and free of repetitions,
      and agrees with Touch. */
  lemma CsInsertAgreesBelowCapacity<T>(nodes: seq<T>, target: T, headAlive: bool, k: nat)
    requires NoDup(nodes) && |nodes| <= k
    requires target in nodes || |nodes| < k
    ensures CsInsert(nodes, target, headAlive, k) == Touch(nodes, target, headAlive, k)
    ensures NoDup(CsInsert(nodes, target, headAlive, k)) && |CsInsert(nodes, target, headAlive, k)| <= k
  {
    TouchKeepsBucket(nodes, target, headAlive, k);
  }

  /** Full bucket, live head, as written: the head is appended again without
      being removed from index 0, so the bucket holds k + 1 entries, the head
      twice, and it no longer counts as full. */
  lemma CsInsertLiveHeadDuplicates<T>(nodes: seq<T>, target: T, k: nat)
    requires |nodes| == k > 0 && target !in nodes
    ensures var r := CsInsert(nodes, target, true, k);
            |r| == k + 1 && !NoDup(r) && r[0] == r[k] && target !in r && |r| != k
  {
    var r := CsInsert(nodes, target, true, k);
    assert r[0] == r[k];
  }

  /** Full bucket, dead head, as written: the newcomer is appended but the head
      is not evicted, so the bucket holds k + 1 entries and keeps the dead head. */
  lemma CsInsertDeadHeadKeepsHead<T>(nodes: seq<T>, target: T, k: nat)
    requires |nodes| == k > 0 && target !in nodes
    ensures var r := CsInsert(nodes, target, false, k);
            |r| == k + 1 && r[0] == nodes[0] && r[k] == target
  {
  }

  /** Once past capacity the bucket never counts as full again, so every new
      contact is appended: the size is unbounded. */
  lemma CsInsertPastCapacityGrows<T>(nodes: seq<T>, target: T, headAlive: bool, k: nat)
    requires |nodes| > k && target !in nodes
    ensures CsInsert(nodes, target, headAlive, k) == nodes + [target]
  {
  }

  /** A concrete run: k = 1, bucket [a], newcomer b. */
  lemma CsInsertCounterexample(a: int, b: int)
    requires a != b
    ensures CsInsert([a], b, true, 1) == [a, a]
    ensures CsInsert([a], b, false, 1) == [a, b]
    ensures Touch([a], b, true, 1) == [a] && Touch([a], b, false, 1) == [b]
  {
  }
}
