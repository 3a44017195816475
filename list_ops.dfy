/** Sequence combinators shared by the lookup (LINQ Take, Distinct, OrderBy,
    Where, FirstOrDefault, Concat in Kademlia/Core/Node.cs) and by the
    TypeScript NodeArrayHelper (limit, selectDistinct, filter, sort). */
module ListOps {
  import opened Wrappers

  ghost predicate NoDup<T>(s: seq<T>) {
    forall i, j :: 0 <= i < j < |s| ==> s[i] != s[j]
  }

  /** Concatenating two duplicate-free, disjoint sequences. */
  lemma NoDupAppend<T>(a: seq<T>, b: seq<T>)
    requires NoDup(a) && NoDup(b)
    requires forall x :: x in a ==> x !in b
    ensures NoDup(a + b)
  {
    forall i, j | 0 <= i < j < |a + b| ensures (a + b)[i] != (a + b)[j] {
      if i < |a| && j >= |a| {
        assert (a + b)[i] in a && (a + b)[j] == b[j - |a|];
      }
    }
  }

  /** Without repetitions, every element occurs at most once in the multiset. */
  lemma {:induction false} NoDupCount<T>(s: seq<T>)
    requires NoDup(s)
    ensures forall x :: multiset(s)[x] <= 1
  {
    if s != [] {
      assert s == [s[0]] + s[1..];
      assert NoDup(s[1..]) by {
        forall i, j | 0 <= i < j < |s[1..]| ensures s[1..][i] != s[1..][j] {
          assert s[1..][i] == s[i + 1] && s[1..][j] == s[j + 1];
        }
      }
      NoDupCount(s[1..]);
      assert s[0] !in s[1..] by {
        forall j | 0 <= j < |s[1..]| ensures s[1..][j] != s[0] {
          assert s[1..][j] == s[j + 1];
        }
      }
    }
  }

  /** A value at two distinct positions occurs at least twice. */
  lemma TwoPositions<T>(s: seq<T>, i: nat, j: nat)
    requires i < j < |s|
    ensures multiset(s)[s[i]] >= if s[i] == s[j] then 2 else 1
  {
    assert s == s[..i] + [s[i]] + s[i + 1..j] + [s[j]] + s[j + 1..];
  }

  /** A sequence whose elements each occur at most once has no repetitions. */
  lemma CountNoDup<T>(s: seq<T>)
    requires forall x :: multiset(s)[x] <= 1
    ensures NoDup(s)
  {
    forall i, j | 0 <= i < j < |s| ensures s[i] != s[j] {
      TwoPositions(s, i, j);
    }
  }

  /** A permutation of a sequence without repetitions has none either. */
  lemma PermutationNoDup<T>(a: seq<T>, b: seq<T>)
    requires multiset(a) == multiset(b) && NoDup(b)
    ensures NoDup(a)
  {
    NoDupCount(b);
    CountNoDup(a);
  }

  /** Take(n) / slice(0, n): the prefix of length min(|s|, n). */
  function Take<T>(s: seq<T>, n: nat): (r: seq<T>)
    ensures r <= s
    ensures |r| == if |s| <= n then |s| else n
  {
    if |s| <= n then s else s[..n]
  }

  /** A prefix of a duplicate-free sequence is duplicate-free. */
  lemma PrefixNoDup<T>(r: seq<T>, s: seq<T>)
    requires r <= s && NoDup(s)
    ensures NoDup(r)
  {
    forall i, j | 0 <= i < j < |r| ensures r[i] != r[j] {
      assert r[i] == s[i] && r[j] == s[j];
    }
  }

  /** A prefix of a sorted sequence is sorted. */
  lemma PrefixSorted<T>(r: seq<T>, s: seq<T>, key: T -> int)
    requires r <= s && SortedBy(s, key)
    ensures SortedBy(r, key)
  {
    forall i, j | 0 <= i < j < |r| ensures key(r[i]) <= key(r[j]) {
      assert r[i] == s[i] && r[j] == s[j];
    }
  }

  /** Keeps the first occurrence of each element, in order; `seen` holds the
      elements met so far (the Map of selectDistinct, the set inside LINQ
      Distinct). */
  function DistinctFrom<T(==)>(s: seq<T>, seen: set<T>): (r: seq<T>)
    ensures NoDup(r)
    ensures forall x :: x in r ==> x in s && x !in seen
    ensures forall x :: x in s && x !in seen ==> x in r
    ensures |r| <= |s|
  {
    if s == [] then []
    else if s[0] in seen then DistinctFrom(s[1..], seen)
    else [s[0]] + DistinctFrom(s[1..], seen + {s[0]})
  }

  function Distinct<T(==)>(s: seq<T>): seq<T> {
    DistinctFrom(s, {})
  }

  /** A sequence without repetitions is left as it is. */
  lemma {:induction false} DistinctFromNoDup<T>(s: seq<T>, seen: set<T>)
    requires NoDup(s)
    requires forall x :: x in s ==> x !in seen
    ensures DistinctFrom(s, seen) == s
  {
    if s != [] {
      assert forall x :: x in s[1..] ==> x !in seen + {s[0]} by {
        forall x | x in s[1..] ensures x !in seen + {s[0]} {
          var k :| 1 <= k < |s| && s[k] == x;
        }
      }
      DistinctFromNoDup(s[1..], seen + {s[0]});
    }
  }

  /** Deduplication is idempotent. */
  lemma DistinctIdempotent<T>(s: seq<T>)
    ensures Distinct(Distinct(s)) == Distinct(s)
  {
    DistinctFromNoDup(Distinct(s), {});
  }

  /** Index of the first occurrence of x in s. */
  function FirstIndex<T(==)>(s: seq<T>, x: T): (i: nat)
    requires x in s
    ensures i < |s| && s[i] == x && forall k :: 0 <= k < i ==> s[k] != x
  {
    if s[0] == x then 0 else 1 + FirstIndex(s[1..], x)
  }

  /** The kept elements appear in the order of their first occurrences. */
  lemma {:induction false} DistinctFromKeepsFirstOrder<T>(s: seq<T>, seen: set<T>, i: nat, j: nat)
    requires i < j < |DistinctFrom(s, seen)|
    ensures FirstIndex(s, DistinctFrom(s, seen)[i]) < FirstIndex(s, DistinctFrom(s, seen)[j])
    decreases |s|, 2
  {
    if s[0] in seen {
      OrderPastSkippedHead(s, seen, i, j);
    } else {
      OrderPastKeptHead(s, seen, i, j);
    }
  }

  lemma {:induction false} OrderPastSkippedHead<T>(s: seq<T>, seen: set<T>, i: nat, j: nat)
    requires s != [] && s[0] in seen
    requires i < j < |DistinctFrom(s, seen)|
    ensures FirstIndex(s, DistinctFrom(s, seen)[i]) < FirstIndex(s, DistinctFrom(s, seen)[j])
    decreases |s|, 1
  {
    var t := DistinctFrom(s[1..], seen);
    assert DistinctFrom(s, seen) == t;
    DistinctFromKeepsFirstOrder(s[1..], seen, i, j);
    SkippedHeadOrder(s, seen, t[i], t[j]);
  }

  lemma {:induction false} OrderPastKeptHead<T>(s: seq<T>, seen: set<T>, i: nat, j: nat)
    requires s != [] && s[0] !in seen
    requires i < j < |DistinctFrom(s, seen)|
    ensures FirstIndex(s, DistinctFrom(s, seen)[i]) < FirstIndex(s, DistinctFrom(s, seen)[j])
    decreases |s|, 1
  {
    var r := DistinctFrom(s, seen);
    var t := DistinctFrom(s[1..], seen + {s[0]});
    assert r[j] == t[j - 1];
    if i == 0 {
      assert r[i] == s[0];
      KeptHeadLater(s, seen, t[j - 1]);
      HeadFirst(s, t[j - 1]);
      assert FirstIndex(s, r[i]) < FirstIndex(s, r[j]);
    } else {
      assert r[i] == t[i - 1];
      KeptTailOrder(s, seen, t, i - 1, j - 1);
      assert FirstIndex(s, r[i]) < FirstIndex(s, r[j]);
    }
  }

  lemma HeadFirst<T>(s: seq<T>, y: T)
    requires s != [] && y in s && y != s[0]
    ensures FirstIndex(s, s[0]) == 0 < FirstIndex(s, y)
  {
  }

  /** Two elements kept from the tail t after the head was taken keep their
      order of first occurrence in s. */
  lemma {:induction false} KeptTailOrder<T>(s: seq<T>, seen: set<T>, t: seq<T>, i: nat, j: nat)
    requires s != [] && t == DistinctFrom(s[1..], seen + {s[0]}) && i < j < |t|
    ensures t[i] in s && t[j] in s && FirstIndex(s, t[i]) < FirstIndex(s, t[j])
    decreases |s|, 0
  {
    DistinctFromKeepsFirstOrder(s[1..], seen + {s[0]}, i, j);
    KeptHeadLater(s, seen, t[i]);
    KeptHeadLater(s, seen, t[j]);
  }

  /** When the head of s was seen before, first indices in s are those in its
      tail shifted by one. */
  lemma SkippedHeadOrder<T>(s: seq<T>, seen: set<T>, x: T, y: T)
    requires s != [] && s[0] in seen
    requires x in DistinctFrom(s[1..], seen) && y in DistinctFrom(s[1..], seen)
    requires FirstIndex(s[1..], x) < FirstIndex(s[1..], y)
    ensures x in s && y in s && FirstIndex(s, x) < FirstIndex(s, y)
  {
    FirstIndexTail(s, x);
    FirstIndexTail(s, y);
  }

  /** An element kept from the tail after the head was taken lies after the
      head in s. */
  lemma KeptHeadLater<T>(s: seq<T>, seen: set<T>, x: T)
    requires s != [] && x in DistinctFrom(s[1..], seen + {s[0]})
    ensures x in s && x != s[0] && FirstIndex(s, x) == 1 + FirstIndex(s[1..], x)
  {
    FirstIndexTail(s, x);
  }

  lemma FirstIndexTail<T>(s: seq<T>, x: T)
    requires |s| > 0 && x in s[1..] && x != s[0]
    ensures FirstIndex(s, x) == 1 + FirstIndex(s[1..], x)
  {
  }

  /** Where / filter: the elements satisfying p, in their original order. */
  function Filter<T>(s: seq<T>, p: T -> bool): (r: seq<T>)
    ensures forall x :: x in r ==> x in s && p(x)
    ensures forall x :: x in s && p(x) ==> x in r
    ensures |r| <= |s|
    ensures multiset(r) <= multiset(s)
  {
    if s == [] then []
    else
      assert s == [s[0]] + s[1..];
      (if p(s[0]) then [s[0]] else []) + Filter(s[1..], p)
  }

  /** Filtering with a predicate every element satisfies gives the list back. */
  lemma {:induction false} FilterKeepsAll<T>(s: seq<T>, p: T -> bool)
    requires forall x :: x in s ==> p(x)
    ensures Filter(s, p) == s
  {
    if s != [] {
      FilterKeepsAll(s[1..], p);
      assert s == [s[0]] + s[1..];
    }
  }

  /** Filtering with a predicate no element satisfies gives the empty list. */
  lemma {:induction false} FilterKeepsNone<T>(s: seq<T>, p: T -> bool)
    requires forall x :: x in s ==> !p(x)
    ensures Filter(s, p) == []
  {
    if s != [] {
      FilterKeepsNone(s[1..], p);
    }
  }

  /** r is obtained from s by deleting elements: the kept ones stay in order. */
  ghost predicate Subsequence<T>(r: seq<T>, s: seq<T>)
    decreases |s|
  {
    if r == [] then true
    else if s == [] then false
    else if r[0] == s[0] then Subsequence(r[1..], s[1..])
    else Subsequence(r, s[1..])
  }

  lemma {:induction false} SubsequenceDropHead<T>(r: seq<T>, s: seq<T>)
    requires r != [] && Subsequence(r, s)
    ensures Subsequence(r[1..], s)
    decreases |s|, 0
  {
    if r[0] != s[0] {
      SubsequenceDropHead(r, s[1..]);
      SubsequenceSkip(r[1..], s[1..], s[0]);
      assert s == [s[0]] + s[1..];
    } else {
      SubsequenceSkip(r[1..], s[1..], s[0]);
      assert s == [s[0]] + s[1..];
    }
  }

  /** Putting an element in front of s keeps every subsequence of s one. */
  lemma {:induction false} SubsequenceSkip<T>(r: seq<T>, s: seq<T>, x: T)
    requires Subsequence(r, s)
    ensures Subsequence(r, [x] + s)
    decreases |s|, 1
  {
    if r != [] && r[0] == x {
      assert ([x] + s)[1..] == s;
      SubsequenceDropHead(r, s);
    }
  }

  /** FirstOrDefault(p): the first element satisfying p, if any. */
  function FirstWhere<T>(s: seq<T>, p: T -> bool): (r: Option<T>)
    ensures r.None? <==> forall x :: x in s ==> !p(x)
    ensures r.Some? ==> r.value in s && p(r.value)
  {
    if s == [] then None
    else if p(s[0]) then Some(s[0])
    else FirstWhere(s[1..], p)
  }

  /** FirstWhere returns the earliest match. */
  lemma {:induction false} FirstWhereIsFirst<T>(s: seq<T>, p: T -> bool, k: nat)
    requires k < |s| && p(s[k])
    ensures FirstWhere(s, p).Some?
    ensures forall i :: 0 <= i < k && s[i] == FirstWhere(s, p).value ==> p(s[i])
    ensures exists i :: 0 <= i <= k && s[i] == FirstWhere(s, p).value && forall j :: 0 <= j < i ==> !p(s[j])
  {
    if !p(s[0]) {
      FirstWhereIsFirst(s[1..], p, k - 1);
      var i :| 0 <= i <= k - 1 && s[1..][i] == FirstWhere(s[1..], p).value && forall j :: 0 <= j < i ==> !p(s[1..][j]);
      assert s[i + 1] == FirstWhere(s, p).value;
      assert forall j :: 0 <= j < i + 1 ==> !p(s[j]) by {
        forall j | 0 <= j < i + 1 ensures !p(s[j]) {
          if j > 0 { assert s[j] == s[1..][j - 1]; }
        }
      }
    } else {
      assert s[0] == FirstWhere(s, p).value;
    }
  }

  ghost predicate SortedBy<T>(s: seq<T>, key: T -> int) {
    forall i, j :: 0 <= i < j < |s| ==> key(s[i]) <= key(s[j])
  }

  /** Inserts x before the first element whose key is not smaller, which
      keeps equal keys in their original order (a stable sort). */
  function InsertBy<T>(x: T, s: seq<T>, key: T -> int): (r: seq<T>)
    ensures multiset(r) == multiset(s) + multiset{x}
    ensures |r| == |s| + 1 && (r[0] == x || (|s| > 0 && r[0] == s[0]))
  {
    if s == [] || key(x) <= key(s[0]) then
      [x] + s
    else
      assert s == [s[0]] + s[1..];
      [s[0]] + InsertBy(x, s[1..], key)
  }

  /** Inserting into a sorted sequence keeps it sorted. */
  lemma {:induction false} InsertBySorted<T>(x: T, s: seq<T>, key: T -> int)
    requires SortedBy(s, key)
    ensures SortedBy(InsertBy(x, s, key), key)
  {
    if s == [] || key(x) <= key(s[0]) {
      ConsSorted(x, s, key);
    } else {
      var t := InsertBy(x, s[1..], key);
      assert SortedBy(s[1..], key);
      InsertBySorted(x, s[1..], key);
      assert key(s[0]) <= key(t[0]);
      ConsSorted(s[0], t, key);
    }
  }

  /** A sorted sequence stays sorted when an element no larger than its head
      is put in front. */
  lemma ConsSorted<T>(h: T, t: seq<T>, key: T -> int)
    requires SortedBy(t, key) && (|t| > 0 ==> key(h) <= key(t[0]))
    ensures SortedBy([h] + t, key)
  {
    forall i, j | 0 <= i < j < |t| + 1
      ensures key(([h] + t)[i]) <= key(([h] + t)[j])
    {
      if i > 0 {
        assert ([h] + t)[i] == t[i - 1] && ([h] + t)[j] == t[j - 1];
      } else {
        assert ([h] + t)[j] == t[j - 1];
      }
    }
  }

  /** OrderBy(key): a stable sort by ascending key. */
  function SortBy<T>(s: seq<T>, key: T -> int): (r: seq<T>)
    ensures SortedBy(r, key)
    ensures multiset(r) == multiset(s)
  {
    if s == [] then []
    else
      assert s == [s[0]] + s[1..];
      InsertBySorted(s[0], SortBy(s[1..], key), key);
      InsertBy(s[0], SortBy(s[1..], key), key)
  }

  /** An element whose key is strictly below every other element's comes
      first after sorting. */
  lemma SortByHeadMin<T>(s: seq<T>, key: T -> int, y: T)
    requires y in s
    requires forall x :: x in s && x != y ==> key(y) < key(x)
    ensures |SortBy(s, key)| == |s| && SortBy(s, key)[0] == y
  {
    var r := SortBy(s, key);
    assert multiset(r) == multiset(s);
    assert |r| == |multiset(r)| == |multiset(s)| == |s|;
    assert r[0] in multiset(r);
    assert y in multiset(r);
    var j :| 0 <= j < |r| && r[j] == y;
    assert key(r[0]) <= key(r[j]);
  }

  /** So the first element kept after sorting is that element. */
  lemma TakeOneMin<T>(s: seq<T>, key: T -> int, y: T)
    requires y in s
    requires forall x :: x in s && x != y ==> key(y) < key(x)
    ensures Take(SortBy(s, key), 1) == [y]
  {
    SortByHeadMin(s, key, y);
    var r := SortBy(s, key);
    assert Take(r, 1) == r[..1] == [r[0]];
  }

  /** Cutting a sequence after a head that follows a prefix. */
  lemma SplitPrefix<T>(log: seq<T>, head: seq<T>, rest: seq<T>)
    ensures log <= log + head <= log + (head + rest)
    ensures (log + head) + rest == log + (head + rest)
  {
  }

  function Flatten<T>(ss: seq<seq<T>>): seq<T> {
    if ss == [] then [] else ss[0] + Flatten(ss[1..])
  }

  lemma {:induction false} FlattenSnoc<T>(ss: seq<seq<T>>, b: seq<T>)
    ensures Flatten(ss + [b]) == Flatten(ss) + b
  {
    if ss != [] {
      assert (ss + [b])[1..] == ss[1..] + [b];
      FlattenSnoc(ss[1..], b);
    }
  }

  /** The flattening is at least as long as each part. */
  lemma {:induction false} FlattenCovers<T>(ss: seq<seq<T>>, i: nat)
    requires i < |ss|
    ensures |ss[i]| <= |Flatten(ss)|
  {
    if i > 0 {
      FlattenCovers(ss[1..], i - 1);
    }
  }

  /** Every element of the flattening comes from one of the inner sequences. */
  lemma {:induction false} InFlatten<T>(ss: seq<seq<T>>, x: T)
    ensures x in Flatten(ss) <==> exists i :: 0 <= i < |ss| && x in ss[i]
  {
    if ss != [] {
      InFlatten(ss[1..], x);
      if x in ss[0] {
      } else if x in Flatten(ss[1..]) {
        var i :| 0 <= i < |ss[1..]| && x in ss[1..][i];
        assert x in ss[i + 1];
      } else {
        forall i | 0 <= i < |ss| ensures x !in ss[i] {
          if i > 0 { assert ss[i] == ss[1..][i - 1]; }
        }
      }
    }
  }
}
