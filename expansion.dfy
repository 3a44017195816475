/** The outward bucket walk of GetKClosestTo (Kademlia/Core/RoutingTable.cs and
    csharp/Kademlia/Core/RoutingTable.cs): starting from the target's bucket,
    whole buckets are appended one step at a time, alternating left and right,
    until k entries are collected or both directions have left the table. */
module Expansion {
  import opened ListOps

  /** A direction is idle when it has already left the table. */
  predicate Idle<T>(buckets: seq<seq<T>>, left: int, right: int, goingLeft: bool)
  {
    (goingLeft && left < 0) || (!goingLeft && right >= |buckets|)
  }

  /** One pass of the loop body per call: `acc` is kClosestNodes, `left` and
      `right` the next indices on each side, `goingLeft` the sign of
      `direction`. */
  function Expand<T>(buckets: seq<seq<T>>, acc: seq<T>, left: int, right: int, goingLeft: bool, k: nat): seq<T>
    requires -1 <= left < right <= |buckets|
    decreases 2 * (left + 1 + |buckets| - right) + (if Idle(buckets, left, right, goingLeft) then 1 else 0)
  {
    if |acc| >= k then acc
    else
      var acc1 := if goingLeft && left >= 0 then acc + buckets[left] else acc;
      var left1 := if goingLeft && left >= 0 then left - 1 else left;
      var acc2 := if !goingLeft && right < |buckets| then acc1 + buckets[right] else acc1;
      var right1 := if !goingLeft && right < |buckets| then right + 1 else right;
      if left1 < 0 && right1 >= |buckets| then acc2
      else Expand(buckets, acc2, left1, right1, !goingLeft, k)
  }

  /** The walk from bucket i. */
  function Collect<T>(buckets: seq<seq<T>>, i: nat, k: nat): seq<T>
    requires i < |buckets|
  {
    Expand(buckets, buckets[i], i - 1, i + 1, true, k)
  }

  /** Steps taken left and right from i differ by at most one (left first),
      unless one side has run out. */
  ghost predicate Balanced(n: nat, i: int, lo: int, hi: int)
  {
    var stepsLeft := i - lo;
    var stepsRight := hi - i;
    stepsLeft == stepsRight || stepsLeft == stepsRight + 1 || lo == 0 || hi == n - 1
  }

  /** r holds exactly the entries of buckets lo to hi. */
  ghost predicate HoldsWindow<T>(buckets: seq<seq<T>>, r: seq<T>, lo: int, hi: int)
    requires 0 <= lo <= hi + 1 <= |buckets|
  {
    multiset(r) == multiset(Flatten(buckets[lo..hi + 1]))
  }

  lemma PrefixTransitive<T>(a: seq<T>, b: seq<T>, c: seq<T>)
    requires a <= b && b <= c
    ensures a <= c
  {
    assert c[..|a|] == b[..|a|];
  }

  lemma FlattenCons<T>(ss: seq<seq<T>>)
    requires |ss| > 0
    ensures Flatten(ss) == ss[0] + Flatten(ss[1..])
  {
  }

  /** A pass going left appends bucket `left`: the window [left + 1,
      right - 1] becomes [left, right - 1]. */
  lemma WindowGrowsLeft<T>(buckets: seq<seq<T>>, acc: seq<T>, left: int, right: int, goingLeft: bool, k: nat,
                           acc2: seq<T>, left1: int)
    requires 0 <= left < right <= |buckets| && |acc| < k && goingLeft
    requires multiset(acc) == multiset(Flatten(buckets[left + 1..right]))
    requires acc2 == acc + buckets[left] && left1 == left - 1
    ensures multiset(acc2) == multiset(Flatten(buckets[left1 + 1..right]))
    ensures Expand(buckets, acc, left, right, goingLeft, k) ==
            if left1 < 0 && right >= |buckets| then acc2 else Expand(buckets, acc2, left1, right, !goingLeft, k)
  {
    FlattenCons(buckets[left..right]);
    assert buckets[left..right][1..] == buckets[left + 1..right];
    assert buckets[left1 + 1..right] == buckets[left..right];
    var tail := Flatten(buckets[left + 1..right]);
    calc {
      multiset(acc2);
      multiset(acc) + multiset(buckets[left]);
      multiset(tail) + multiset(buckets[left]);
      multiset(buckets[left] + tail);
    }
  }

  /** A pass going right appends bucket `right`: the window [left + 1,
      right - 1] becomes [left + 1, right]. */
  lemma WindowGrowsRight<T>(buckets: seq<seq<T>>, acc: seq<T>, left: int, right: int, goingLeft: bool, k: nat,
                            acc2: seq<T>, right1: int)
    requires -1 <= left < right < |buckets| && |acc| < k && !goingLeft
    requires multiset(acc) == multiset(Flatten(buckets[left + 1..right]))
    requires acc2 == acc + buckets[right] && right1 == right + 1
    ensures multiset(acc2) == multiset(Flatten(buckets[left + 1..right1]))
    ensures Expand(buckets, acc, left, right, goingLeft, k) ==
            if left < 0 && right1 >= |buckets| then acc2 else Expand(buckets, acc2, left, right1, !goingLeft, k)
  {
    assert buckets[left + 1..right1] == buckets[left + 1..right] + [buckets[right]];
    FlattenSnoc(buckets[left + 1..right], buckets[right]);
    var init := Flatten(buckets[left + 1..right]);
    calc {
      multiset(acc2);
      multiset(acc) + multiset(buckets[right]);
      multiset(init) + multiset(buckets[right]);
      multiset(init + buckets[right]);
    }
  }

  /** One loop pass from a state with fewer than k entries: it appends the
      bucket on the current side (`added`) or, when that side has run out,
      only turns round; either way the collected window stays contiguous. */
  lemma ExpandStep<T>(buckets: seq<seq<T>>, acc: seq<T>, left: int, right: int, goingLeft: bool, k: nat)
      returns (acc2: seq<T>, left1: int, right1: int, added: int)
    requires -1 <= left < right <= |buckets| && |acc| < k
    requires multiset(acc) == multiset(Flatten(buckets[left + 1..right]))
    ensures -1 <= left1 < right1 <= |buckets| && acc <= acc2
    ensures multiset(acc2) == multiset(Flatten(buckets[left1 + 1..right1]))
    ensures (goingLeft && left >= 0 && left1 == left - 1 && right1 == right && added == left && acc2 == acc + buckets[left]) ||
            (!goingLeft && right < |buckets| && left1 == left && right1 == right + 1 && added == right && acc2 == acc + buckets[right]) ||
            (Idle(buckets, left, right, goingLeft) && left1 == left && right1 == right && acc2 == acc)
    ensures Expand(buckets, acc, left, right, goingLeft, k) ==
            if left1 < 0 && right1 >= |buckets| then acc2 else Expand(buckets, acc2, left1, right1, !goingLeft, k)
  {
    if goingLeft && left >= 0 {
      acc2, left1, right1, added := acc + buckets[left], left - 1, right, left;
      WindowGrowsLeft(buckets, acc, left, right, goingLeft, k, acc2, left1);
    } else if !goingLeft && right < |buckets| {
      acc2, left1, right1, added := acc + buckets[right], left, right + 1, right;
      WindowGrowsRight(buckets, acc, left, right, goingLeft, k, acc2, right1);
    } else {
      acc2, left1, right1, added := acc, left, right, right;
      TurnsRound(buckets, acc, left, right, goingLeft, k);
    }
  }

  /** A pass on a side that has run out only turns round. */
  lemma TurnsRound<T>(buckets: seq<seq<T>>, acc: seq<T>, left: int, right: int, goingLeft: bool, k: nat)
    requires -1 <= left < right <= |buckets| && |acc| < k && Idle(buckets, left, right, goingLeft)
    ensures Expand(buckets, acc, left, right, goingLeft, k) ==
            if left < 0 && right >= |buckets| then acc else Expand(buckets, acc, left, right, !goingLeft, k)
  {
  }

  /** After this pass both directions are outside the table. */
  predicate ExpandStops<T>(buckets: seq<seq<T>>, left: int, right: int, goingLeft: bool)
  {
    (if goingLeft && left >= 0 then left - 1 else left) < 0 &&
    (if !goingLeft && right < |buckets| then right + 1 else right) >= |buckets|
  }

  /** The loop ends on this pass: acc already has k entries, or the step
      leaves both directions outside the table. */
  lemma ExpandLastPass<T>(buckets: seq<seq<T>>, acc: seq<T>, left: int, right: int, goingLeft: bool, k: nat, i: int)
      returns (r: seq<T>, lo: int, hi: int, last: int)
    requires |acc| >= k || ExpandStops(buckets, left, right, goingLeft)
    requires -1 <= left < right <= |buckets| && left < i < right
    requires multiset(acc) == multiset(Flatten(buckets[left + 1..right]))
    requires goingLeft ==> (i - 1 - left == right - 1 - i || left < 0 || right >= |buckets|)
    requires !goingLeft ==> (i - 1 - left == right - i || left < 0 || right >= |buckets|)
    ensures r == Expand(buckets, acc, left, right, goingLeft, k)
    ensures 0 <= lo <= left + 1 && right - 1 <= hi < |buckets|
    ensures HoldsWindow(buckets, r, lo, hi)
    ensures acc <= r
    ensures |r| >= k || (lo == 0 && hi == |buckets| - 1)
    ensures Balanced(|buckets|, i, lo, hi)
    ensures r == acc ||
            (lo <= last <= hi && |r| - |buckets[last]| < k)
  {
    if |acc| >= k {
      r := acc;
      lo, hi, last := left + 1, right - 1, i;
      assert buckets[lo..hi + 1] == buckets[left + 1..right];
      assert HoldsWindow(buckets, r, lo, hi);
    } else {
      var acc2, left1, right1, added := ExpandStep(buckets, acc, left, right, goingLeft, k);
      r := acc2;
      lo, hi, last := 0, |buckets| - 1, added;
      assert buckets[lo..hi + 1] == buckets[left1 + 1..right1];
      assert HoldsWindow(buckets, r, lo, hi);
    }
  }

  /** The walk from acc, with the window [left + 1, right - 1] already
      collected, ends with a contiguous window [lo, hi] of whole buckets: it
      holds exactly their entries, starts with acc, reaches k entries unless the
      window is the whole table, and stops as soon as it reaches k (the last
      bucket added, `last`, is what took it to k). */
  lemma {:induction false} ExpandWindow<T>(buckets: seq<seq<T>>, acc: seq<T>, left: int, right: int, goingLeft: bool, k: nat, i: int)
      returns (r: seq<T>, lo: int, hi: int, last: int)
    requires -1 <= left < right <= |buckets| && left < i < right
    requires multiset(acc) == multiset(Flatten(buckets[left + 1..right]))
    requires goingLeft ==> (i - 1 - left == right - 1 - i || left < 0 || right >= |buckets|)
    requires !goingLeft ==> (i - 1 - left == right - i || left < 0 || right >= |buckets|)
    ensures r == Expand(buckets, acc, left, right, goingLeft, k)
    ensures 0 <= lo <= left + 1 && right - 1 <= hi < |buckets|
    ensures HoldsWindow(buckets, r, lo, hi)
    ensures acc <= r
    ensures |r| >= k || (lo == 0 && hi == |buckets| - 1)
    ensures Balanced(|buckets|, i, lo, hi)
    ensures r == acc ||
            (lo <= last <= hi && |r| - |buckets[last]| < k)
    decreases 2 * (left + 1 + |buckets| - right) + (if Idle(buckets, left, right, goingLeft) then 1 else 0)
  {
    if |acc| >= k || ExpandStops(buckets, left, right, goingLeft) {
      r, lo, hi, last := ExpandLastPass(buckets, acc, left, right, goingLeft, k, i);
    } else {
      var acc2, left1, right1, added := ExpandStep(buckets, acc, left, right, goingLeft, k);
      var last';
      r, lo, hi, last' := ExpandWindow(buckets, acc2, left1, right1, !goingLeft, k, i);
      last := if r == acc2 then added else last';
      PrefixTransitive(acc, acc2, r);
    }
  }

  /** The walk from bucket i: it starts with bucket i, collects whole buckets of
      a contiguous window around i, alternating sides, and has at least k
      entries unless it covers the whole table. */
  lemma CollectWindow<T>(buckets: seq<seq<T>>, i: nat, k: nat) returns (lo: int, hi: int, last: int)
    requires i < |buckets|
    ensures 0 <= lo <= i <= hi < |buckets|
    ensures multiset(Collect(buckets, i, k)) == multiset(Flatten(buckets[lo..hi + 1]))
    ensures buckets[i] <= Collect(buckets, i, k)
    ensures |Collect(buckets, i, k)| >= k || (lo == 0 && hi == |buckets| - 1)
    ensures Balanced(|buckets|, i, lo, hi)
    ensures Collect(buckets, i, k) == buckets[i] ||
            (lo <= last <= hi && |Collect(buckets, i, k)| - |buckets[last]| < k)
  {
    assert buckets[i..i + 1] == [buckets[i]];
    assert [buckets[i]][1..] == [];
    assert Flatten([buckets[i]]) == buckets[i] + Flatten([buckets[i]][1..]) == buckets[i];
    var r;
    r, lo, hi, last := ExpandWindow(buckets, buckets[i], i - 1, i + 1, true, k, i);
  }

  /** Everything collected is stored in some bucket. */
  lemma CollectFromBuckets<T>(buckets: seq<seq<T>>, i: nat, k: nat, x: T)
    requires i < |buckets| && x in Collect(buckets, i, k)
    ensures exists j :: 0 <= j < |buckets| && x in buckets[j]
  {
    var lo, hi, last := CollectWindow(buckets, i, k);
    assert x in multiset(Flatten(buckets[lo..hi + 1]));
    InFlatten(buckets[lo..hi + 1], x);
    var j :| 0 <= j < |buckets[lo..hi + 1]| && x in buckets[lo..hi + 1][j];
    assert x in buckets[lo + j];
  }

  /** With fewer than k entries in the whole table, the walk returns all of them. */
  lemma CollectAllWhenFew<T>(buckets: seq<seq<T>>, i: nat, k: nat)
    requires i < |buckets| && |Flatten(buckets)| < k
    ensures multiset(Collect(buckets, i, k)) == multiset(Flatten(buckets))
  {
    var lo, hi, last := CollectWindow(buckets, i, k);
    FlattenWindowBound(buckets, lo, hi);
    assert |Collect(buckets, i, k)| == |multiset(Collect(buckets, i, k))| == |Flatten(buckets[lo..hi + 1])|;
    assert buckets[lo..hi + 1] == buckets;
  }

  /** A window holds no more entries than the whole table. */
  lemma FlattenWindowBound<T>(buckets: seq<seq<T>>, lo: int, hi: int)
    requires 0 <= lo <= hi < |buckets|
    ensures |Flatten(buckets[lo..hi + 1])| <= |Flatten(buckets)|
  {
    FlattenAppend(buckets[..lo], buckets[lo..]);
    assert buckets == buckets[..lo] + buckets[lo..];
    FlattenAppend(buckets[lo..hi + 1], buckets[hi + 1..]);
    assert buckets[lo..] == buckets[lo..hi + 1] + buckets[hi + 1..];
  }

  lemma {:induction false} FlattenAppend<T>(a: seq<seq<T>>, b: seq<seq<T>>)
    ensures Flatten(a + b) == Flatten(a) + Flatten(b)
  {
    if a == [] {
      assert a + b == b;
    } else {
      assert (a + b)[0] == a[0] && (a + b)[1..] == a[1..] + b;
      FlattenAppend(a[1..], b);
    }
  }

  /** Buckets that are each free of repetitions and pairwise disjoint. */
  ghost predicate Disjoint<T>(ss: seq<seq<T>>)
  {
    (forall j :: 0 <= j < |ss| ==> NoDup(ss[j])) &&
    (forall j1, j2, x :: 0 <= j1 < j2 < |ss| && x in ss[j1] ==> x !in ss[j2])
  }

  lemma {:induction false} FlattenNoDup<T>(ss: seq<seq<T>>)
    requires Disjoint(ss)
    ensures NoDup(Flatten(ss))
  {
    if ss != [] {
      assert Disjoint(ss[1..]) by {
        forall j1, j2, x | 0 <= j1 < j2 < |ss[1..]| && x in ss[1..][j1] ensures x !in ss[1..][j2] {
          assert ss[1..][j1] == ss[j1 + 1] && ss[1..][j2] == ss[j2 + 1];
        }
      }
      FlattenNoDup(ss[1..]);
      forall x | x in ss[0] ensures x !in Flatten(ss[1..]) {
        forall j | 0 <= j < |ss[1..]| ensures x !in ss[1..][j] {
          assert ss[1..][j] == ss[j + 1];
        }
        InFlatten(ss[1..], x);
      }
      NoDupAppend(ss[0], Flatten(ss[1..]));
    }
  }

  /** Over disjoint buckets free of repetitions, the walk has no repetitions. */
  lemma CollectNoDup<T>(buckets: seq<seq<T>>, i: nat, k: nat)
    requires i < |buckets| && Disjoint(buckets)
    ensures NoDup(Collect(buckets, i, k))
  {
    var lo, hi, last := CollectWindow(buckets, i, k);
    var w := buckets[lo..hi + 1];
    assert Disjoint(w) by {
      forall j1, j2, x | 0 <= j1 < j2 < |w| && x in w[j1] ensures x !in w[j2] {
        assert w[j1] == buckets[lo + j1] && w[j2] == buckets[lo + j2];
      }
    }
    FlattenNoDup(w);
    PermutationNoDup(Collect(buckets, i, k), Flatten(w));
  }

  /** Over empty buckets the walk finds nothing. */
  lemma CollectEmpty<T>(buckets: seq<seq<T>>, i: nat, k: nat)
    requires i < |buckets| && forall j :: 0 <= j < |buckets| ==> buckets[j] == []
    ensures Collect(buckets, i, k) == []
  {
    var lo, hi, last := CollectWindow(buckets, i, k);
    FlattenEmpties(buckets[lo..hi + 1]);
    assert |multiset(Collect(buckets, i, k))| == 0;
  }

  lemma {:induction false} FlattenEmpties<T>(ss: seq<seq<T>>)
    requires forall j :: 0 <= j < |ss| ==> ss[j] == []
    ensures Flatten(ss) == []
  {
    if ss != [] {
      FlattenEmpties(ss[1..]);
    }
  }
}
