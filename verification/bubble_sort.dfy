/**
 * `bubbleSort` from benchmark/timer_test.go: the classic adjacent-swap sort.
 * The Go function sorts its slice in place; here the slice contents go in
 * and the sorted contents come out, with the same length.
 */
module BubbleSort {

  predicate Sorted(s: seq<int>) {
    forall p, q :: 0 <= p < q < |s| ==> s[p] <= s[q]
  }

  /** The slots from `m` on are sorted among themselves. */
  predicate SortedFrom(s: seq<int>, m: int) {
    forall p, q :: 0 <= m <= p < q < |s| ==> s[p] <= s[q]
  }

  /** The indices `0, 1, ..., n-1` in order. */
  function Iota(n: nat): (s: seq<int>)
    ensures |s| == n && forall k :: 0 <= k < n ==> s[k] == k
  {
    seq(n, k => k)
  }

  /** `from` records, for every slot of `r`, the slot of `nums` its value came
      from. */
  ghost predicate Follows(r: seq<int>, nums: seq<int>, from: seq<int>) {
    |from| == |r| && forall k :: 0 <= k < |from| ==> 0 <= from[k] < |nums| && r[k] == nums[from[k]]
  }

  /** Equal values keep the relative order they had in the input. */
  ghost predicate Stable(r: seq<int>, from: seq<int>)
    requires |from| == |r|
  {
    forall p, q :: 0 <= p < q < |r| && r[p] == r[q] ==> from[p] < from[q]
  }

  /** Exchange of two slots, as Go's `nums[j-1], nums[j] = nums[j], nums[j-1]`. */
  function Swap<T>(s: seq<T>, i: nat, j: nat): (r: seq<T>)
    requires i < |s| && j < |s|
    ensures |r| == |s| && r[i] == s[j] && r[j] == s[i]
    ensures forall k :: 0 <= k < |s| && k != i && k != j ==> r[k] == s[k]
    ensures multiset(r) == multiset(s)
  {
    s[i := s[j]][j := s[i]]
  }

  /** Swapping an adjacent pair that is strictly out of order keeps the
      provenance right and keeps equal values in their order. */
  lemma SwapKeepsProvenance(s: seq<int>, nums: seq<int>, from: seq<int>, j: nat)
    requires Follows(s, nums, from) && Stable(s, from)
    requires 1 <= j < |s| && s[j - 1] > s[j]
    ensures Follows(Swap(s, j - 1, j), nums, Swap(from, j - 1, j))
    ensures Stable(Swap(s, j - 1, j), Swap(from, j - 1, j))
  {
    var t, f := Swap(s, j - 1, j), Swap(from, j - 1, j);
    forall p, q | 0 <= p < q < |t| && t[p] == t[q]
      ensures f[p] < f[q]
    {
      // Every pair other than (j-1, j) is a pair of the old sequence in the
      // same order; the pair (j-1, j) itself holds two different values.
      var op := if p == j - 1 then j else if p == j then j - 1 else p;
      var oq := if q == j - 1 then j else if q == j then j - 1 else q;
      assert t[p] == s[op] && t[q] == s[oq] && f[p] == from[op] && f[q] == from[oq];
      assert op < oq;
    }
  }

  /**
   * What the inner loop keeps before it compares slots `j-1` and `j`: the
   * values are a rearrangement of those the pass started with, the largest
   * value seen so far sits at `j-1`, nothing before `m` exceeds `bound`, and
   * the slots from `m` on are untouched.
   */
  ghost predicate PassInvariant(nums: seq<int>, r0: seq<int>, from0: seq<int>, m: nat, bound: int,
                                r: seq<int>, from: seq<int>, j: nat) {
    && 1 <= j <= m <= |r0|
    && |r| == |r0| && multiset(r) == multiset(r0) && multiset(from) == multiset(from0)
    && Follows(r, nums, from) && Stable(r, from)
    && (forall k :: 0 <= k < j - 1 ==> r[k] <= r[j - 1])
    && (forall k :: 0 <= k < m ==> r[k] <= bound)
    && (forall k :: m <= k < |r| ==> r[k] == r0[k])
  }

  lemma SwapStep(nums: seq<int>, r0: seq<int>, from0: seq<int>, m: nat, bound: int,
                 r: seq<int>, from: seq<int>, j: nat)
    requires PassInvariant(nums, r0, from0, m, bound, r, from, j) && j < m && r[j - 1] > r[j]
    ensures PassInvariant(nums, r0, from0, m, bound, Swap(r, j - 1, j), Swap(from, j - 1, j), j + 1)
  {
    SwapKeepsProvenance(r, nums, from, j);
  }

  lemma KeepStep(nums: seq<int>, r0: seq<int>, from0: seq<int>, m: nat, bound: int,
                 r: seq<int>, from: seq<int>, j: nat)
    requires PassInvariant(nums, r0, from0, m, bound, r, from, j) && j < m && r[j - 1] <= r[j]
    ensures PassInvariant(nums, r0, from0, m, bound, r, from, j + 1)
  {
  }

  /**
   * Pass `i` of the outer loop: the inner loop `for j := 1; j < m; j++` with
   * `m = len(nums)-i` carries the largest value of slots `0..m` up to slot
   * `m-1` and leaves the slots from `m` on alone. `bound` is a value that no
   * slot before `m` exceeds.
   */
  method BubblePass(nums: seq<int>, r0: seq<int>, ghost from0: seq<int>, m: nat, ghost bound: int)
    returns (r: seq<int>, ghost from: seq<int>)
    requires Follows(r0, nums, from0) && Stable(r0, from0)
    requires 1 <= m <= |r0|
    requires forall k :: 0 <= k < m ==> r0[k] <= bound
    ensures |r| == |r0| && multiset(r) == multiset(r0) && multiset(from) == multiset(from0)
    ensures Follows(r, nums, from) && Stable(r, from)
    ensures forall k :: 0 <= k < m ==> r[k] <= r[m - 1] <= bound
    ensures forall k :: m <= k < |r| ==> r[k] == r0[k]
  {
    r, from := r0, from0;
    var j := 1;
    while j < m
      invariant PassInvariant(nums, r0, from0, m, bound, r, from, j)
    {
      if r[j - 1] > r[j] {
        SwapStep(nums, r0, from0, m, bound, r, from, j);
        r, from := Swap(r, j - 1, j), Swap(from, j - 1, j);
      } else {
        KeepStep(nums, r0, from0, m, bound, r, from, j);
      }
      j := j + 1;
    }
  }

  /**
   * What holds after `i` passes of the outer loop: the last `i` slots hold
   * the largest values in sorted order, and `from` says where every value
   * came from, as a permutation of the indices of `nums`.
   */
  ghost predicate SortInvariant(nums: seq<int>, r: seq<int>, from: seq<int>, i: nat) {
    && i <= |nums| == |r|
    && multiset(r) == multiset(nums) && multiset(from) == multiset(Iota(|nums|))
    && Follows(r, nums, from) && Stable(r, from)
    && SortedFrom(r, |r| - i)
    && (0 < i ==> forall k :: 0 <= k < |r| - i ==> r[k] <= r[|r| - i])
  }

  /** A value no slot of a non-empty sequence exceeds, to start the first
      pass with. */
  ghost function Max(s: seq<int>): (top: int)
    requires |s| > 0
    ensures forall k :: 0 <= k < |s| ==> s[k] <= top
  {
    if |s| == 1 then s[0] else var t := Max(s[1..]); if s[0] > t then s[0] else t
  }

  /** The bound the pass after `i` passes starts from. */
  ghost function PassBound(r: seq<int>, i: nat): (bound: int)
    requires i < |r|
  {
    if i == 0 then Max(r) else r[|r| - i]
  }

  /** After a pass up to `m = len(nums)-i`, the sorted suffix reaches down to
      slot `m-1`. */
  lemma PassExtendsSuffix(nums: seq<int>, r0: seq<int>, from0: seq<int>, r: seq<int>, from: seq<int>, i: nat)
    requires SortInvariant(nums, r0, from0, i) && i < |r0|
    requires |r| == |r0| && multiset(r) == multiset(r0) && multiset(from) == multiset(from0)
    requires Follows(r, nums, from) && Stable(r, from)
    requires forall k :: 0 <= k < |r0| - i ==> r[k] <= r[|r0| - i - 1] <= PassBound(r0, i)
    requires forall k :: |r0| - i <= k < |r| ==> r[k] == r0[k]
    ensures SortInvariant(nums, r, from, i + 1)
  {
  }

  /**
   * `bubbleSort`: outer pass `i` runs the inner loop up to `len(nums)-i`, so
   * after it the last `i+1` slots hold the largest values in their final
   * order. Only strictly greater adjacent pairs are swapped, so the sort is
   * stable, and an already sorted input comes out as it went in.
   */
  method BubbleSort(nums: seq<int>) returns (r: seq<int>, ghost from: seq<int>)
    ensures |r| == |nums|
    ensures Sorted(r)
    ensures multiset(r) == multiset(nums)
    ensures multiset(from) == multiset(Iota(|nums|)) && Follows(r, nums, from) && Stable(r, from)
    ensures Sorted(nums) ==> r == nums
  {
    r, from := nums, Iota(|nums|);
    var i := 0;
    while i < |nums|
      invariant SortInvariant(nums, r, from, i)
    {
      ghost var r0, from0 := r, from;
      r, from := BubblePass(nums, r, from, |r| - i, PassBound(r, i));
      PassExtendsSuffix(nums, r0, from0, r, from, i);
      i := i + 1;
    }
    if Sorted(nums) {
      SortedPermutationUnique(r, nums);
    }
  }

  /** A sorted arrangement of a multiset is unique: any two sorted sequences
      with the same elements are equal, so `BubbleSort` agrees with every other
      correct sort. */
  lemma {:induction false} SortedPermutationUnique(a: seq<int>, b: seq<int>)
    requires Sorted(a) && Sorted(b) && multiset(a) == multiset(b)
    ensures a == b
    decreases |a|
  {
    assert |b| == |a| by { assert |multiset(a)| == |a| && |multiset(b)| == |b|; }
    if |a| > 0 {
      HeadIsMinimum(a, b);
      HeadIsMinimum(b, a);
      assert a == [a[0]] + a[1..] && b == [b[0]] + b[1..];
      assert multiset(a[1..]) == multiset(b[1..]) by {
        assert multiset(a) == multiset{a[0]} + multiset(a[1..]);
        assert multiset(b) == multiset{b[0]} + multiset(b[1..]);
        assert multiset(a[1..]) == multiset(a) - multiset{a[0]};
        assert multiset(b[1..]) == multiset(b) - multiset{b[0]};
      }
      SortedPermutationUnique(a[1..], b[1..]);
    }
  }

  /** The first slot of a sorted sequence holds the least of its values. */
  lemma HeadIsMinimum(a: seq<int>, b: seq<int>)
    requires Sorted(a) && |a| > 0 && |b| > 0 && multiset(a) == multiset(b)
    ensures a[0] <= b[0]
  {
    assert b[0] in multiset(a) by { assert b[0] in multiset(b); }
    var k :| 0 <= k < |a| && a[k] == b[0];
  }
}
