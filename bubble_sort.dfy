/** Bubble sort with a shrinking bound: each pass stops where the previous pass last swapped. */
module BubbleSort {
  import opened SortSpec

  /** From `n` on, `s` is sorted and no smaller than anything before `n`: the settled suffix. */
  ghost predicate Settled(s: seq<int>, n: int)
    requires 0 <= n <= |s|
  {
    (forall k, l :: n <= k < l < |s| ==> s[k] <= s[l]) && Partitioned(s, n)
  }

  /**
   * sort(arr): passes of adjacent compare-and-swap over `a[..n]`; after a pass, `n` becomes one
   * past the last swap, since everything from there on is already in its final place.
   */
  method Sort(a: array<int>)
    modifies a
    ensures Sorted(a[..])
    ensures multiset(a[..]) == multiset(old(a[..]))
  {
    var n := a.Length;
    while n > 1
      invariant 0 <= n <= a.Length
      invariant Settled(a[..], n)
      invariant multiset(a[..]) == multiset(old(a[..]))
      decreases n
    {
      n := Pass(a, n);
    }
  }

  /**
   * One pass of the outer loop: swaps every adjacent out-of-order pair below `n`, carrying the
   * largest element of `a[..n]` up to `n - 1`, and answers one past the last swap, from where on
   * the array is settled.
   */
  method Pass(a: array<int>, n: int) returns (newn: int)
    requires 1 < n <= a.Length && Settled(a[..], n)
    modifies a
    ensures 0 <= newn < n && Settled(a[..], newn)
    ensures multiset(a[..]) == multiset(old(a[..]))
  {
    newn := 0;
    var i := 0;
    while i < n - 1
      invariant 0 <= i <= n - 1 && 0 <= newn <= i
      invariant PassDone(a[..], i, newn) && Partitioned(a[..], n)
      invariant forall t :: n <= t < a.Length ==> a[t] == old(a[t])
      invariant multiset(a[..]) == multiset(old(a[..]))
    {
      newn := CompareSwap(a, i, n, newn);
      i := i + 1;
    }
    SettledGrows(old(a[..]), a[..], n, newn);
  }

  /**
   * The body of the inner loop: swaps `a[i]` and `a[i + 1]` when they are out of order, and
   * then `i + 1` is the new `newn`.
   */
  method CompareSwap(a: array<int>, i: int, n: int, newn: int) returns (newn': int)
    requires 0 <= newn <= i && i + 1 < n <= a.Length
    requires PassDone(a[..], i, newn) && Partitioned(a[..], n)
    modifies a
    ensures newn <= newn' <= i + 1
    ensures PassDone(a[..], i + 1, newn') && Partitioned(a[..], n)
    ensures forall t :: 0 <= t < a.Length && t != i && t != i + 1 ==> a[t] == old(a[t])
    ensures multiset(a[..]) == multiset(old(a[..]))
  {
    ghost var s := a[..];
    PassStep(s, i, n, newn);
    newn' := newn;
    if a[i] > a[i + 1] {
      a[i], a[i + 1] := a[i + 1], a[i];
      assert a[..] == s[i := s[i + 1]][i + 1 := s[i]];
      SwapPermutes(s, i, i + 1);
      newn' := i + 1;
    }
  }

  /**
   * What a pass has established once it has compared up to index `i`, with `newn` one past its
   * last swap: `s[i]` is the largest of `s[..i + 1]`, and `s[newn..i + 1]` is sorted and no
   * smaller than anything before `newn`.
   */
  ghost predicate PassDone(s: seq<int>, i: int, newn: int)
    requires 0 <= newn <= i < |s|
  {
    && (forall k :: 0 <= k <= i ==> s[k] <= s[i])
    && (forall j, k :: 0 <= j < newn <= k <= i ==> s[j] <= s[k])
    && (forall k, l :: newn <= k < l <= i ==> s[k] <= s[l])
  }

  /**
   * One compare-and-swap of a pass, with `newn` moving to `i + 1` when it swaps; a swap below
   * `n` keeps everything before `n` no larger than everything from `n` on.
   */
  lemma PassStep(s: seq<int>, i: int, n: int, newn: int)
    requires 0 <= newn <= i && i + 1 < n <= |s| && PassDone(s, i, newn) && Partitioned(s, n)
    ensures s[i] > s[i + 1] ==> PassDone(s[i := s[i + 1]][i + 1 := s[i]], i + 1, i + 1)
    ensures s[i] > s[i + 1] ==> Partitioned(s[i := s[i + 1]][i + 1 := s[i]], n)
    ensures s[i] <= s[i + 1] ==> PassDone(s, i + 1, newn)
  {
  }

  /** A pass over the unsettled prefix extends the settled suffix down to `newn`. */
  lemma SettledGrows(before: seq<int>, after: seq<int>, n: int, newn: int)
    requires 0 <= newn < n <= |before| == |after|
    requires Settled(before, n)
    requires PassDone(after, n - 1, newn) && Partitioned(after, n)
    requires forall t :: n <= t < |after| ==> after[t] == before[t]
    ensures Settled(after, newn)
  {
  }
}
