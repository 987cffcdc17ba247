/**
 * Quick sort with Lomuto partitioning over inclusive index ranges `[lo, hi]`: the last element
 * of the range is the pivot.
 */
module QuickSort {
  import opened SortSpec

  /** `s[lo..hi)` is non-decreasing. */
  ghost predicate SortedRange(s: seq<int>, lo: int, hi: int)
    requires 0 <= lo <= hi <= |s|
  {
    forall x, y :: lo <= x < y < hi ==> s[x] <= s[y]
  }

  /** `t` agrees with `s` outside `[lo, hi)`. */
  ghost predicate SameOutside(s: seq<int>, t: seq<int>, lo: int, hi: int) {
    |s| == |t| && forall i :: 0 <= i < |s| && !(lo <= i < hi) ==> t[i] == s[i]
  }

  /** `t[lo..hi)` holds the same elements as `s[lo..hi)`. */
  ghost predicate PermutedRange(s: seq<int>, t: seq<int>, lo: int, hi: int)
    requires 0 <= lo <= hi <= |s| && hi <= |t|
  {
    multiset(t[lo..hi]) == multiset(s[lo..hi])
  }

  /** `s[p]` is no less than everything of `s[lo..p)` and below everything of `s(p..hi]`. */
  ghost predicate Partitioned(s: seq<int>, lo: int, p: int, hi: int)
    requires 0 <= lo <= p <= hi < |s|
  {
    (forall k :: lo <= k < p ==> s[k] <= s[p]) && (forall k :: p < k <= hi ==> s[k] > s[p])
  }

  /**
   * `after` is `before` with the range `[lo, hi)` sorted: that range is non-decreasing and holds
   * the same elements as before, and everything outside it is unchanged.
   */
  ghost predicate SortsRange(before: seq<int>, after: seq<int>, lo: int, hi: int)
    requires 0 <= lo <= hi <= |before|
  {
    SameOutside(before, after, lo, hi) && SortedRange(after, lo, hi) && PermutedRange(before, after, lo, hi)
  }

  /** sort(arr): sorts the whole array as the range `[0, length - 1]`. */
  method Sort(a: array<int>)
    modifies a
    ensures Sorted(a[..])
    ensures multiset(a[..]) == multiset(old(a[..]))
  {
    QuickSortRange(a, 0, a.Length - 1);
    assert a[..] == a[0..a.Length];
    assert old(a[..]) == old(a[0..a.Length]);
  }

  /**
   * quickSort(arr, lo, hi): when `lo < hi`, partitions the range and sorts both sides of the
   * pivot's final place; a range of at most one element is left as it is.
   */
  method QuickSortRange(a: array<int>, lo: int, hi: int)
    requires 0 <= lo <= hi + 1 <= a.Length
    modifies a
    ensures SortsRange(old(a[..]), a[..], lo, hi + 1)
    decreases hi - lo
  {
    if lo < hi {
      ghost var s0 := a[..];
      var p := Partition(a, lo, hi);
      ghost var s1 := a[..];
      QuickSortRange(a, lo, p - 1);
      ghost var s2 := a[..];
      QuickSortRange(a, p + 1, hi);
      ghost var s3 := a[..];
      QuickSortStep(s0, s1, s2, s3, lo, p, hi);
    }
  }

  /**
   * partition(arr, lo, hi): with `arr[hi]` as pivot, moves every element not greater than it to
   * the front of the range, then swaps the pivot in behind them and answers its place.
   */
  method Partition(a: array<int>, lo: int, hi: int) returns (p: int)
    requires 0 <= lo <= hi < a.Length
    modifies a
    ensures lo <= p <= hi && a[p] == old(a[hi])
    ensures Partitioned(a[..], lo, p, hi)
    ensures SameOutside(old(a[..]), a[..], lo, hi + 1)
    ensures PermutedRange(old(a[..]), a[..], lo, hi + 1)
  {
    var pivot := a[hi];
    var i := lo - 1;
    var j := lo;
    while j < hi
      invariant lo - 1 <= i < j <= hi && a[hi] == pivot
      invariant forall k :: lo <= k <= i ==> a[k] <= pivot
      invariant forall k :: i < k < j ==> a[k] > pivot
      invariant forall t :: 0 <= t < lo || hi < t < a.Length ==> a[t] == old(a[t])
      invariant multiset(a[..]) == multiset(old(a[..]))
    {
      i := PartitionStep(a, lo, hi, i, j, pivot);
      j := j + 1;
    }
    p := PlacePivot(a, lo, hi, i, pivot);
    RangePermutes(old(a[..]), a[..], lo, hi + 1);
  }

  /**
   * The end of partition: the pivot at `hi` is swapped with the first element after the ones
   * not greater than it, and that place is the answer.
   */
  method PlacePivot(a: array<int>, lo: int, hi: int, i: int, pivot: int) returns (p: int)
    requires 0 <= lo && lo - 1 <= i < hi < a.Length && a[hi] == pivot
    requires forall k :: lo <= k <= i ==> a[k] <= pivot
    requires forall k :: i < k < hi ==> a[k] > pivot
    modifies a
    ensures p == i + 1 && a[p] == pivot
    ensures forall k :: lo <= k < p ==> a[k] <= a[p]
    ensures forall k :: p < k <= hi ==> a[k] > a[p]
    ensures forall t :: 0 <= t < a.Length && t != p && t != hi ==> a[t] == old(a[t])
    ensures multiset(a[..]) == multiset(old(a[..]))
  {
    p := i + 1;
    ghost var s := a[..];
    a[p], a[hi] := a[hi], a[p];
    assert a[..] == s[p := s[hi]][hi := s[p]];
    SwapPermutes(s, p, hi);
  }

  /**
   * The body of the partition loop: when `a[j]` is not greater than the pivot, `i` advances and
   * `a[i]` and `a[j]` are swapped.
   */
  method PartitionStep(a: array<int>, lo: int, hi: int, i: int, j: int, pivot: int) returns (i': int)
    requires 0 <= lo && lo - 1 <= i < j < hi < a.Length && a[hi] == pivot
    requires forall k :: lo <= k <= i ==> a[k] <= pivot
    requires forall k :: i < k < j ==> a[k] > pivot
    modifies a
    ensures i <= i' <= j && a[hi] == pivot
    ensures forall k :: lo <= k <= i' ==> a[k] <= pivot
    ensures forall k :: i' < k < j + 1 ==> a[k] > pivot
    ensures forall t :: 0 <= t < lo || j < t < a.Length ==> a[t] == old(a[t])
    ensures multiset(a[..]) == multiset(old(a[..]))
  {
    i' := i;
    if a[j] <= pivot {
      i' := i + 1;
      ghost var s := a[..];
      a[i'], a[j] := a[j], a[i'];
      assert a[..] == s[i' := s[j]][j := s[i']];
      SwapPermutes(s, i', j);
    }
  }

  /**
   * Rearranging only inside `[lo, hi)` keeps the elements of that range: the multiset of the
   * whole minus the untouched outside.
   */
  lemma RangePermutes(before: seq<int>, after: seq<int>, lo: int, hi: int)
    requires 0 <= lo <= hi <= |before| == |after|
    requires multiset(after) == multiset(before)
    requires forall t :: 0 <= t < lo || hi <= t < |after| ==> after[t] == before[t]
    ensures multiset(after[lo..hi]) == multiset(before[lo..hi])
  {
    assert after[..lo] == before[..lo];
    assert after[hi..] == before[hi..];
    forall e
      ensures multiset(after[lo..hi])[e] == multiset(before[lo..hi])[e]
    {
      CountSplit3(after, lo, hi, e);
      CountSplit3(before, lo, hi, e);
    }
  }

  /** An element's count in `s` is its count before `lo`, in `s[lo..hi]` and from `hi` on. */
  lemma CountSplit3(s: seq<int>, lo: int, hi: int, e: int)
    requires 0 <= lo <= hi <= |s|
    ensures multiset(s)[e] == multiset(s[..lo])[e] + multiset(s[lo..hi])[e] + multiset(s[hi..])[e]
  {
    assert s == s[..lo] + s[lo..hi] + s[hi..];
  }

  /**
   * Partitioning and sorting both sides sorts the range: everything left of the pivot stays no
   * greater than it and everything right of it stays greater, since each side is only
   * rearranged.
   */
  lemma QuickSortStep(s0: seq<int>, s1: seq<int>, s2: seq<int>, s3: seq<int>, lo: int, p: int, hi: int)
    requires 0 <= lo <= p <= hi < |s0| == |s1| == |s2| == |s3|
    requires Partitioned(s1, lo, p, hi) && SameOutside(s0, s1, lo, hi + 1)
    requires PermutedRange(s0, s1, lo, hi + 1)
    requires SortsRange(s1, s2, lo, p - 1 + 1) && SortsRange(s2, s3, p + 1, hi + 1)
    ensures SortsRange(s0, s3, lo, hi + 1)
  {
    var pivot := s1[p];
    assert s2[p + 1..hi + 1] == s1[p + 1..hi + 1];
    AtMostAfterPermute(s1, s2, lo, p, pivot);
    AboveAfterPermute(s2, s3, p + 1, hi + 1, pivot);
    SidesSorted(s2, s3, lo, p, hi, pivot);
    SidesPermute(s1, s2, s3, lo, p, hi);
  }

  /**
   * A range is sorted when its part before `p` is sorted and no greater than the pivot at `p`,
   * and its part after `p` is sorted and greater than the pivot.
   */
  lemma SidesSorted(s2: seq<int>, s3: seq<int>, lo: int, p: int, hi: int, pivot: int)
    requires 0 <= lo <= p <= hi < |s2| == |s3|
    requires SortedRange(s2, lo, p) && s3[p] == pivot
    requires forall k :: lo <= k < p ==> s2[k] <= pivot
    requires forall t :: 0 <= t < p + 1 ==> s3[t] == s2[t]
    requires SortedRange(s3, p + 1, hi + 1)
    requires forall k :: p + 1 <= k < hi + 1 ==> s3[k] > pivot
    ensures SortedRange(s3, lo, hi + 1)
  {
    forall x, y | lo <= x < y < hi + 1
      ensures s3[x] <= s3[y]
    {
      if y < p {
        assert s3[x] == s2[x] && s3[y] == s2[y];
      } else if x > p {
      } else if x < p {
        assert s3[x] == s2[x] <= pivot;
      }
    }
  }

  /** Rearranging each side of the pivot keeps the elements of the whole range. */
  lemma SidesPermute(s1: seq<int>, s2: seq<int>, s3: seq<int>, lo: int, p: int, hi: int)
    requires 0 <= lo <= p <= hi < |s1| == |s2| == |s3|
    requires multiset(s2[lo..p]) == multiset(s1[lo..p])
    requires forall t :: p - 1 < t < |s2| ==> s2[t] == s1[t]
    requires multiset(s3[p + 1..hi + 1]) == multiset(s2[p + 1..hi + 1])
    requires forall t :: 0 <= t < p + 1 ==> s3[t] == s2[t]
    ensures multiset(s3[lo..hi + 1]) == multiset(s1[lo..hi + 1])
  {
    assert s3[lo..p] == s2[lo..p];
    assert s2[p + 1..hi + 1] == s1[p + 1..hi + 1];
    assert s3[p] == s1[p];
    Split3(s3, lo, p, hi + 1);
    Split3(s1, lo, p, hi + 1);
  }

  /** A range's multiset is the part before `p`, the element at `p` and the part after. */
  lemma Split3(s: seq<int>, lo: int, p: int, hi: int)
    requires 0 <= lo <= p < hi <= |s|
    ensures multiset(s[lo..hi]) == multiset(s[lo..p]) + multiset{s[p]} + multiset(s[p + 1..hi])
  {
    assert s[lo..hi] == s[lo..p] + [s[p]] + s[p + 1..hi];
  }

  /** A bound from above on every element of a range survives rearranging the range. */
  lemma AtMostAfterPermute(before: seq<int>, after: seq<int>, lo: int, hi: int, bound: int)
    requires 0 <= lo <= hi <= |before| && hi <= |after|
    requires multiset(after[lo..hi]) == multiset(before[lo..hi])
    requires forall k :: lo <= k < hi ==> before[k] <= bound
    ensures forall k :: lo <= k < hi ==> after[k] <= bound
  {
    forall k | lo <= k < hi
      ensures after[k] <= bound
    {
      assert after[k] == after[lo..hi][k - lo];
      assert after[k] in multiset(before[lo..hi]);
      var m :| 0 <= m < hi - lo && before[lo..hi][m] == after[k];
      assert before[lo + m] == after[k];
    }
  }

  /** A strict bound from below on every element of a range survives rearranging the range. */
  lemma AboveAfterPermute(before: seq<int>, after: seq<int>, lo: int, hi: int, bound: int)
    requires 0 <= lo <= hi <= |before| && hi <= |after|
    requires multiset(after[lo..hi]) == multiset(before[lo..hi])
    requires forall k :: lo <= k < hi ==> before[k] > bound
    ensures forall k :: lo <= k < hi ==> after[k] > bound
  {
    forall k | lo <= k < hi
      ensures after[k] > bound
    {
      assert after[k] == after[lo..hi][k - lo];
      assert after[k] in multiset(before[lo..hi]);
      var m :| 0 <= m < hi - lo && before[lo..hi][m] == after[k];
      assert before[lo + m] == after[k];
    }
  }
}
