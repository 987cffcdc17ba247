/** Selection sort: the first minimum of the unsorted suffix is swapped to its front. */
module SelectionSort {
  import opened SortSpec

  /**
   * The inner loop of sort(arr): the index of the first minimum of `a[i..]`. The comparison is
   * strict, so a later equal element never displaces an earlier one.
   */
  method FirstMinimum(a: array<int>, i: int) returns (min: int)
    requires 0 <= i < a.Length
    ensures i <= min < a.Length
    ensures forall k :: i <= k < a.Length ==> a[min] <= a[k]
    ensures forall k :: i <= k < min ==> a[k] > a[min]
  {
    min := i;
    var j := i + 1;
    while j < a.Length
      invariant i <= min < j <= a.Length
      invariant forall k :: i <= k < j ==> a[min] <= a[k]
      invariant forall k :: i <= k < min ==> a[k] > a[min]
    {
      if a[j] < a[min] {
        min := j;
      }
      j := j + 1;
    }
  }

  /**
   * sort(arr): for each `i` below the last index, the first minimum of `arr[i..]` is swapped into
   * place `i`, and only when it is not already there.
   */
  method Sort(a: array<int>)
    modifies a
    ensures Sorted(a[..])
    ensures multiset(a[..]) == multiset(old(a[..]))
  {
    var i := 0;
    while i < a.Length - 1
      invariant 0 <= i <= a.Length
      invariant a.Length > 0 ==> i < a.Length
      invariant Sorted(a[..i]) && Partitioned(a[..], i)
      invariant multiset(a[..]) == multiset(old(a[..]))
    {
      var min := FirstMinimum(a, i);
      SwapIntoPlace(a, i, min);
      i := i + 1;
    }
    assert a[..] == a[..i] + a[i..];
    SortedExtends(a[..], i);
  }

  /**
   * The swap step of sort(arr): the first minimum of `a[i..]`, at `min`, is exchanged with `a[i]`
   * unless it is already there, which extends the sorted, partitioned prefix by one.
   */
  method SwapIntoPlace(a: array<int>, i: int, min: int)
    requires 0 <= i <= min < a.Length
    requires Sorted(a[..i]) && Partitioned(a[..], i)
    requires forall k :: i <= k < a.Length ==> a[min] <= a[k]
    modifies a
    ensures Sorted(a[..i + 1]) && Partitioned(a[..], i + 1)
    ensures multiset(a[..]) == multiset(old(a[..]))
  {
    ghost var before := a[..];
    if min != i {
      a[i], a[min] := a[min], a[i];
      ghost var after := a[..];
      assert after == before[i := before[min]][min := before[i]];
      SwapPermutes(before, i, min);
      SwapKeepsPrefix(before, i, min);
      SmallestAppended(after, i);
    } else {
      SmallestAppended(before, i);
    }
  }

  /** Swapping `s[i]` with a least element of `s[i..]` leaves the prefix and its bound in place. */
  lemma SwapKeepsPrefix(s: seq<int>, i: int, min: int)
    requires 0 <= i < min < |s| && Sorted(s[..i]) && Partitioned(s, i)
    requires forall k :: i <= k < |s| ==> s[min] <= s[k]
    ensures var t := s[i := s[min]][min := s[i]];
      Sorted(t[..i]) && Partitioned(t, i) && forall k :: i <= k < |t| ==> t[i] <= t[k]
  {
    var t := s[i := s[min]][min := s[i]];
    assert t[..i] == s[..i];
  }

  /** Once `s[i]` is the least of `s[i..]`, the sorted partitioned prefix reaches `i + 1`. */
  lemma SmallestAppended(s: seq<int>, i: int)
    requires 0 <= i < |s| && Sorted(s[..i]) && Partitioned(s, i)
    requires forall k :: i <= k < |s| ==> s[i] <= s[k]
    ensures Sorted(s[..i + 1]) && Partitioned(s, i + 1)
  {
  }

  /** With at most one element after a sorted, partitioned prefix, the whole sequence is sorted. */
  lemma SortedExtends(s: seq<int>, i: int)
    requires 0 <= i <= |s| <= i + 1 && Sorted(s[..i]) && Partitioned(s, i)
    ensures Sorted(s)
  {
  }
}
