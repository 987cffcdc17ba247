/**
 * Heap sort: the array is made a max-heap in place (children of `k` at `2k + 1` and `2k + 2`),
 * then its root is swapped behind a shrinking heap until the heap is a single element.
 */
module HeapSort {
  import opened SortSpec

  /** Within the heap `s[..n]`, place `k` is no smaller than its children. */
  ghost predicate HeapAt(s: seq<int>, n: int, k: int)
    requires 0 <= k && n <= |s|
  {
    (2 * k + 1 < n ==> s[k] >= s[2 * k + 1]) && (2 * k + 2 < n ==> s[k] >= s[2 * k + 2])
  }

  /** `s[..n]` is a max-heap at every place from `lo` on. */
  ghost predicate HeapFrom(s: seq<int>, n: int, lo: int)
    requires 0 <= lo && n <= |s|
  {
    forall k :: lo <= k < n ==> HeapAt(s, n, k)
  }

  /**
   * The place `i` where sift-down is called may be smaller than a child, but its parent, when
   * inside the part being made a heap, is no smaller than `i`'s children.
   */
  ghost predicate ParentBound(s: seq<int>, n: int, i: int, lo: int)
    requires 0 <= i < n <= |s|
  {
    i > 0 && lo <= (i - 1) / 2 ==>
      (2 * i + 1 < n ==> s[(i - 1) / 2] >= s[2 * i + 1]) &&
      (2 * i + 2 < n ==> s[(i - 1) / 2] >= s[2 * i + 2])
  }

  /** The root of a max-heap is its largest element. */
  lemma {:induction false} HeapRootMax(s: seq<int>, n: int, k: int)
    requires 0 <= k < n <= |s| && HeapFrom(s, n, 0)
    ensures s[0] >= s[k]
    decreases k
  {
    if k > 0 {
      var p := (k - 1) / 2;
      HeapRootMax(s, n, p);
      assert HeapAt(s, n, p);
    }
  }

  /**
   * heapify(arr, n, i): when `i` is the only place in `arr[lo..n)` that may break the heap,
   * swaps it with its larger child while that child is larger, and repeats from there. Only
   * places at or after `i` and before `n` change, and `i` ends holding the largest of its old
   * value and its children's.
   */
  method Heapify(a: array<int>, n: int, i: int, ghost lo: int)
    requires 0 <= lo <= i < n <= a.Length
    requires forall k :: lo <= k < n && k != i ==> HeapAt(a[..], n, k)
    requires ParentBound(a[..], n, i, lo)
    modifies a
    ensures HeapFrom(a[..], n, lo)
    ensures multiset(a[..n]) == multiset(old(a[..n]))
    ensures a[..i] == old(a[..i]) && a[n..] == old(a[n..])
    decreases n - i
  {
    var largest := i;
    var left := 2 * i + 1;
    var right := 2 * i + 2;
    if left < n && a[left] > a[largest] {
      largest := left;
    }
    if right < n && a[right] > a[largest] {
      largest := right;
    }
    if largest != i {
      ghost var before := a[..];
      a[i], a[largest] := a[largest], a[i];
      SiftStep(before, a[..], n, i, largest, lo);
      ghost var swapped := a[..];
      Heapify(a, n, largest, lo);
      SiftFrame(before, swapped, a[..], n, i, largest);
    } else {
      assert HeapAt(a[..], n, i);
    }
  }

  /** After `i` swaps with its larger child `c`, only `c` may break the heap, and its parent bounds it. */
  lemma SiftStep(before: seq<int>, after: seq<int>, n: int, i: int, c: int, lo: int)
    requires 0 <= lo <= i < n <= |before| == |after|
    requires c == 2 * i + 1 || c == 2 * i + 2
    requires c < n && before[c] > before[i]
    requires 2 * i + 1 < n ==> before[c] >= before[2 * i + 1]
    requires 2 * i + 2 < n ==> before[c] >= before[2 * i + 2]
    requires forall k :: lo <= k < n && k != i ==> HeapAt(before, n, k)
    requires ParentBound(before, n, i, lo)
    requires after == before[i := before[c]][c := before[i]]
    ensures forall k :: lo <= k < n && k != c ==> HeapAt(after, n, k)
    ensures ParentBound(after, n, c, lo)
    ensures multiset(after[..n]) == multiset(before[..n])
  {
    forall k | lo <= k < n && k != c
      ensures HeapAt(after, n, k)
    {
      SwapKeepsHeapAt(before, after, n, i, c, lo, k);
    }
    assert HeapAt(before, n, c);
    assert (c - 1) / 2 == i;
    assert after[..n] == before[..n][i := before[c]][c := before[i]];
    SwapPermutes(before[..n], i, c);
  }

  /** The swap and the recursive sift below it leave everything before `i` and from `n` on alone. */
  lemma SiftFrame(before: seq<int>, swapped: seq<int>, after: seq<int>, n: int, i: int, c: int)
    requires 0 <= i < c < n <= |before| == |swapped| == |after|
    requires swapped == before[i := before[c]][c := before[i]]
    requires multiset(swapped[..n]) == multiset(before[..n])
    requires multiset(after[..n]) == multiset(swapped[..n])
    requires after[..c] == swapped[..c] && after[n..] == swapped[n..]
    ensures multiset(after[..n]) == multiset(before[..n])
    ensures after[..i] == before[..i] && after[n..] == before[n..]
  {
    assert after[..i] == after[..c][..i];
  }

  /** One place other than the child `c` after the swap of `i` and `c`: its heap condition holds. */
  lemma SwapKeepsHeapAt(before: seq<int>, after: seq<int>, n: int, i: int, c: int, lo: int, k: int)
    requires 0 <= lo <= i < n <= |before| == |after|
    requires c == 2 * i + 1 || c == 2 * i + 2
    requires c < n && before[c] > before[i]
    requires 2 * i + 1 < n ==> before[c] >= before[2 * i + 1]
    requires 2 * i + 2 < n ==> before[c] >= before[2 * i + 2]
    requires lo <= k < n && k != c && (k != i ==> HeapAt(before, n, k))
    requires ParentBound(before, n, i, lo)
    requires after == before[i := before[c]][c := before[i]]
    ensures HeapAt(after, n, k)
  {
    if k == i {
    } else if 2 * k + 1 == i || 2 * k + 2 == i {
      assert k == (i - 1) / 2;
    } else {
      assert 2 * k + 1 != c && 2 * k + 2 != c;
    }
  }

  /**
   * sort(arr): the build loop sifts down every place that has a child, last first; the
   * extraction loop swaps the root behind the heap and sifts the new root down.
   */
  method Sort(a: array<int>)
    modifies a
    ensures Sorted(a[..])
    ensures multiset(a[..]) == multiset(old(a[..]))
  {
    BuildHeap(a);
    var i := a.Length - 1;
    while i > 0
      invariant -1 <= i < a.Length
      invariant HeapFrom(a[..], i + 1, 0)
      invariant Settled(a[..], i + 1)
      invariant multiset(a[..]) == multiset(old(a[..]))
      decreases i
    {
      ghost var before := a[..];
      a[0], a[i] := a[i], a[0];
      ExtractStep(before, a[..], i);
      ghost var swapped := a[..];
      Heapify(a, i, 0, 0);
      SiftKeepsSettled(swapped, a[..], i);
      i := i - 1;
    }
    if a.Length > 0 {
      assert Settled(a[..], 0);
    }
  }

  /** The build loop of sort(arr): sifting down every place with a child, last first, makes a max-heap. */
  method BuildHeap(a: array<int>)
    modifies a
    ensures HeapFrom(a[..], a.Length, 0)
    ensures multiset(a[..]) == multiset(old(a[..]))
  {
    var n := a.Length;
    var i := n / 2 - 1;
    while i >= 0
      invariant -1 <= i <= n / 2 - 1 || (n <= 1 && i == -1)
      invariant HeapFrom(a[..], n, i + 1)
      invariant multiset(a[..]) == multiset(old(a[..]))
      decreases i
    {
      assert a[..] == a[..n];
      Heapify(a, n, i, i);
      assert a[..] == a[..n];
      i := i - 1;
    }
  }

  /** From `n` on, `s` is sorted and no smaller than anything before `n`. */
  ghost predicate Settled(s: seq<int>, n: int)
    requires 0 <= n <= |s|
  {
    (forall k, l :: n <= k < l < |s| ==> s[k] <= s[l]) && Partitioned(s, n)
  }

  /** Swapping the root behind the heap settles one more place and leaves a heap below `i` apart from the root. */
  lemma ExtractStep(before: seq<int>, after: seq<int>, i: int)
    requires 0 < i < |before| == |after|
    requires HeapFrom(before, i + 1, 0) && Settled(before, i + 1)
    requires after == before[0 := before[i]][i := before[0]]
    ensures forall k :: 0 <= k < i && k != 0 ==> HeapAt(after, i, k)
    ensures ParentBound(after, i, 0, 0)
    ensures Settled(after, i)
    ensures multiset(after) == multiset(before)
  {
    forall k | 0 < k < i
      ensures HeapAt(after, i, k)
    {
      assert HeapAt(before, i + 1, k);
    }
    forall k | 0 <= k <= i
      ensures before[k] <= before[0]
    {
      HeapRootMax(before, i + 1, k);
    }
    SwapPermutes(before, 0, i);
  }

  /** Sifting down within `s[..i]` keeps the settled suffix settled. */
  lemma SiftKeepsSettled(before: seq<int>, after: seq<int>, i: int)
    requires 0 < i < |before| == |after| && Settled(before, i)
    requires multiset(after[..i]) == multiset(before[..i]) && after[i..] == before[i..]
    ensures Settled(after, i)
    ensures multiset(after) == multiset(before)
  {
    assert before == before[..i] + before[i..] && after == after[..i] + after[i..];
    forall j, k | 0 <= j < i <= k < |after|
      ensures after[j] <= after[k]
    {
      assert after[j] in multiset(before[..i]);
      var x :| 0 <= x < i && before[x] == after[j];
      assert after[k] == before[k];
    }
  }
}
