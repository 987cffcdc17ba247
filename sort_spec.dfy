/**
 * What every sort promises: the array ends non-decreasing and holds the same elements. Elements
 * are integers compared by value, as `compareTo` compares them.
 */
module SortSpec {
  /** Non-decreasing. */
  predicate Sorted(s: seq<int>)
  {
    forall i, j :: 0 <= i < j < |s| ==> s[i] <= s[j]
  }

  /** Every element of `s[..m]` is at most every element of `s[m..]`. */
  predicate Partitioned(s: seq<int>, m: int)
    requires 0 <= m <= |s|
  {
    forall i, j :: 0 <= i < m <= j < |s| ==> s[i] <= s[j]
  }

  /**
   * A sorted arrangement of given elements is unique: two sorted sequences with the same
   * elements are equal. Hence every correct sort yields the same array on the same input.
   */
  lemma {:induction false} SortedUnique(a: seq<int>, b: seq<int>)
    requires Sorted(a) && Sorted(b) && multiset(a) == multiset(b)
    ensures a == b
    decreases |a|
  {
    assert |a| == |multiset(a)| == |multiset(b)| == |b|;
    if |a| > 0 {
      LeastFirst(a, b);
      LeastFirst(b, a);
      DropFirst(a);
      DropFirst(b);
      SortedUnique(a[1..], b[1..]);
      assert a == [a[0]] + a[1..];
      assert b == [b[0]] + b[1..];
    }
  }

  /** The first element of a sorted sequence is at most every element of a same-elements one. */
  lemma LeastFirst(a: seq<int>, b: seq<int>)
    requires Sorted(a) && |a| > 0 && |b| > 0 && multiset(a) == multiset(b)
    ensures a[0] <= b[0]
  {
    assert b[0] in multiset(a);
    var j :| 0 <= j < |a| && a[j] == b[0];
  }

  /** Dropping the first element takes one occurrence of it out of the multiset. */
  lemma DropFirst(s: seq<int>)
    requires |s| > 0
    ensures multiset(s[1..]) == multiset(s) - multiset{s[0]}
    ensures Sorted(s) ==> Sorted(s[1..])
  {
    assert s == [s[0]] + s[1..];
  }

  /** Swapping two places of a sequence keeps its elements. */
  lemma SwapPermutes(s: seq<int>, i: int, k: int)
    requires 0 <= i < |s| && 0 <= k < |s|
    ensures multiset(s[i := s[k]][k := s[i]]) == multiset(s)
  {
    if i != k {
      var t := s[i := s[k]];
      assert multiset(t) == multiset(s) - multiset{s[i]} + multiset{s[k]};
      assert t[k] == s[k];
      assert multiset(t[k := s[i]]) == multiset(t) - multiset{s[k]} + multiset{s[i]};
    }
  }

  /** A sort leaves an already sorted input as it was. */
  lemma SortedInputUnchanged(before: seq<int>, after: seq<int>)
    requires Sorted(before) && Sorted(after) && multiset(after) == multiset(before)
    ensures after == before
  {
    SortedUnique(after, before);
  }

  /** Any rearrangement of an empty or one-element input is the input itself. */
  lemma ShortInputUnchanged(before: seq<int>, after: seq<int>)
    requires |before| <= 1 && multiset(after) == multiset(before)
    ensures after == before
  {
    assert |after| == |multiset(after)| == |multiset(before)| == |before|;
    if |before| == 1 {
      assert after[0] in multiset(before);
    }
  }
}
