/** Top-down merge sort over inclusive index ranges `[l, r]`. */
module MergeSort {
  import opened SortSpec

  /**
   * The merge of two sequences: repeatedly the smaller head, taking the left one on ties, then
   * whatever is left over.
   */
  function Merged(left: seq<int>, right: seq<int>): (r: seq<int>)
    ensures |r| == |left| + |right|
    decreases |left| + |right|
  {
    if left == [] then right
    else if right == [] then left
    else if left[0] <= right[0] then [left[0]] + Merged(left[1..], right)
    else [right[0]] + Merged(left, right[1..])
  }

  /** Merging keeps exactly the elements of both inputs. */
  lemma {:induction false} MergedPermutes(left: seq<int>, right: seq<int>)
    ensures multiset(Merged(left, right)) == multiset(left) + multiset(right)
    decreases |left| + |right|
  {
    if left != [] && right != [] {
      if left[0] <= right[0] {
        var rest := Merged(left[1..], right);
        MergedPermutes(left[1..], right);
        assert Merged(left, right) == [left[0]] + rest;
        HeadSplit(left);
        HeadSplit([left[0]] + rest);
      } else {
        var rest := Merged(left, right[1..]);
        MergedPermutes(left, right[1..]);
        assert Merged(left, right) == [right[0]] + rest;
        HeadSplit(right);
        HeadSplit([right[0]] + rest);
      }
    }
  }

  /** A non-empty sequence holds its head and the elements of its tail. */
  lemma HeadSplit(s: seq<int>)
    requires s != []
    ensures multiset(s) == multiset{s[0]} + multiset(s[1..])
  {
    assert s == [s[0]] + s[1..];
  }

  /** The merge of two sorted sequences is sorted. */
  lemma {:induction false} MergedSorted(left: seq<int>, right: seq<int>)
    requires Sorted(left) && Sorted(right)
    ensures Sorted(Merged(left, right))
    decreases |left| + |right|
  {
    if left != [] && right != [] {
      if left[0] <= right[0] {
        MergedSorted(left[1..], right);
        MergedHead(left[1..], right);
        ConsSorted(left[0], Merged(left[1..], right));
      } else {
        MergedSorted(left, right[1..]);
        MergedHead(left, right[1..]);
        ConsSorted(right[0], Merged(left, right[1..]));
      }
    }
  }

  /** A merge begins with the smaller head, the left one on ties. */
  lemma MergedHead(left: seq<int>, right: seq<int>)
    ensures left != [] || right != [] ==>
      Merged(left, right)[0] ==
        if left == [] then right[0]
        else if right == [] then left[0]
        else if left[0] <= right[0] then left[0]
        else right[0]
  {
  }

  lemma ConsSorted(h: int, rest: seq<int>)
    requires Sorted(rest) && (rest != [] ==> h <= rest[0])
    ensures Sorted([h] + rest)
  {
  }

  /** On ties the left element goes first: merging equal heads puts the left one in front. */
  lemma MergeTakesLeftOnTies(left: seq<int>, right: seq<int>)
    requires left != [] && right != [] && left[0] == right[0]
    ensures Merged(left, right) == [left[0]] + Merged(left[1..], right)
  {
  }

  /** sort(arr): sorts the whole array as the range `[0, length - 1]`. */
  method Sort(a: array<int>)
    modifies a
    ensures Sorted(a[..])
    ensures multiset(a[..]) == multiset(old(a[..]))
  {
    MergeSortRange(a, 0, a.Length - 1);
    assert a[..] == a[0..a.Length];
    assert old(a[..]) == old(a[0..a.Length]);
  }

  /**
   * mergeSort(arr, l, r): when `l < r`, sorts both halves around `m = l + (r - l) / 2` and merges
   * them; a range of at most one element is left as it is.
   */
  method MergeSortRange(a: array<int>, l: int, r: int)
    requires 0 <= l <= r + 1 <= a.Length
    modifies a
    ensures Sorted(a[l..r + 1])
    ensures multiset(a[l..r + 1]) == multiset(old(a[l..r + 1]))
    ensures a[..l] == old(a[..l]) && a[r + 1..] == old(a[r + 1..])
    decreases r - l
  {
    if l < r {
      var m := l + (r - l) / 2;
      assert l <= m < r;
      ghost var s0 := a[..];
      MergeSortRange(a, l, m);
      ghost var s1 := a[..];
      MergeSortRange(a, m + 1, r);
      ghost var s2 := a[..];
      Merge(a, l, m, r);
      MergeSortStep(s0, s1, s2, a[..], l, m, r);
    }
  }

  /**
   * The two recursive calls sort the halves in place and the merge combines them: the range
   * ends sorted and a permutation of what it held, and nothing outside it changes.
   */
  lemma MergeSortStep(s0: seq<int>, s1: seq<int>, s2: seq<int>, s3: seq<int>, l: int, m: int, r: int)
    requires 0 <= l <= m < r < |s0| == |s1| == |s2| == |s3|
    requires Sorted(s1[l..m + 1]) && multiset(s1[l..m + 1]) == multiset(s0[l..m + 1])
    requires s1[..l] == s0[..l] && s1[m + 1..] == s0[m + 1..]
    requires Sorted(s2[m + 1..r + 1]) && multiset(s2[m + 1..r + 1]) == multiset(s1[m + 1..r + 1])
    requires s2[..m + 1] == s1[..m + 1] && s2[r + 1..] == s1[r + 1..]
    requires s3[l..r + 1] == Merged(s2[l..m + 1], s2[m + 1..r + 1])
    requires s3[..l] == s2[..l] && s3[r + 1..] == s2[r + 1..]
    ensures Sorted(s3[l..r + 1]) && multiset(s3[l..r + 1]) == multiset(s0[l..r + 1])
    ensures s3[..l] == s0[..l] && s3[r + 1..] == s0[r + 1..]
  {
    HalvesSorted(s0, s1, s2, l, m, r);
    MergedSorted(s2[l..m + 1], s2[m + 1..r + 1]);
    MergedPermutes(s2[l..m + 1], s2[m + 1..r + 1]);
  }

  /** After the two recursive calls: both halves sorted, the range a permutation, the outside untouched. */
  lemma HalvesSorted(s0: seq<int>, s1: seq<int>, s2: seq<int>, l: int, m: int, r: int)
    requires 0 <= l <= m < r < |s0| == |s1| == |s2|
    requires Sorted(s1[l..m + 1]) && multiset(s1[l..m + 1]) == multiset(s0[l..m + 1])
    requires s1[..l] == s0[..l] && s1[m + 1..] == s0[m + 1..]
    requires Sorted(s2[m + 1..r + 1]) && multiset(s2[m + 1..r + 1]) == multiset(s1[m + 1..r + 1])
    requires s2[..m + 1] == s1[..m + 1] && s2[r + 1..] == s1[r + 1..]
    ensures Sorted(s2[l..m + 1]) && Sorted(s2[m + 1..r + 1])
    ensures multiset(s2[l..m + 1]) + multiset(s2[m + 1..r + 1]) == multiset(s0[l..r + 1])
    ensures s2[..l] == s0[..l] && s2[r + 1..] == s0[r + 1..]
  {
    assert s2[l..m + 1] == s2[..m + 1][l..] == s1[..m + 1][l..] == s1[l..m + 1];
    assert s1[m + 1..r + 1] == s1[m + 1..][..r - m] == s0[m + 1..][..r - m] == s0[m + 1..r + 1];
    assert s0[l..r + 1] == s0[l..m + 1] + s0[m + 1..r + 1];
    assert s2[..l] == s2[..m + 1][..l];
    assert s1[..l] == s1[..m + 1][..l];
    assert s2[r + 1..] == s1[r + 1..] == s1[m + 1..][r - m..] == s0[m + 1..][r - m..];
  }

  /**
   * merge(arr, l, m, r): copies `arr[l..m]` and `arr[m+1..r]` aside and writes their merge back
   * over `arr[l..r]`.
   */
  method Merge(a: array<int>, l: int, m: int, r: int)
    requires 0 <= l <= m < r < a.Length
    modifies a
    ensures a[l..r + 1] == Merged(old(a[l..m + 1]), old(a[m + 1..r + 1]))
    ensures a[..l] == old(a[..l]) && a[r + 1..] == old(a[r + 1..])
  {
    ghost var before := a[..];
    var left := a[l..m + 1];
    var right := a[m + 1..r + 1];
    ghost var merged := Merged(left, right);
    ghost var path := ScheduleOf(left, right);
    var i, j := MergeHeads(a, left, right, l, merged, path);
    LeftoverOnPath(left, right, path, i, j);
    CopyRest(a, left, i, l + i + j, merged, l, j);
    CopyRest(a, right, j, l + |left| + j, merged, l, |left|);
    WrittenBack(before, a[..], l, r, merged);
  }

  /**
   * The main loop of merge: while both copies have elements, writes the smaller head (the left
   * one on ties) to `a[l + i + j]`; stops when one copy is used up.
   */
  method MergeHeads(a: array<int>, left: seq<int>, right: seq<int>, l: int, ghost merged: seq<int>,
                    ghost path: seq<nat>)
      returns (i: nat, j: nat)
    requires Schedule(left, right, merged, path)
    requires 0 <= l && l + |left| + |right| <= a.Length
    modifies a
    ensures i <= |left| && j <= |right| && (i == |left| || j == |right|)
    ensures path[i + j] == i
    ensures forall t :: l <= t < l + i + j ==> a[t] == merged[t - l]
    ensures forall t :: 0 <= t < l || l + i + j <= t < a.Length ==> a[t] == old(a[t])
  {
    i, j := 0, 0;
    var k := l;
    while i < |left| && j < |right|
      invariant i <= |left| && j <= |right| && k == l + i + j
      invariant path[i + j] == i
      invariant forall t :: l <= t < k ==> a[t] == merged[t - l]
      invariant forall t :: 0 <= t < l || k <= t < a.Length ==> a[t] == old(a[t])
    {
      ScheduleStep(left, right, merged, path, i, j);
      if left[i] <= right[j] {
        a[k] := left[i];
        i := i + 1;
      } else {
        a[k] := right[j];
        j := j + 1;
      }
      k := k + 1;
    }
  }

  /**
   * The drain loops of merge: copies `src[from..]` to `a[k..]`, which continues the merge already
   * written over `a[l..k - 1]` because the rest of the merge is `src[from..]`.
   */
  method CopyRest(a: array<int>, src: seq<int>, from: nat, k: int, ghost merged: seq<int>, ghost l: int,
                  ghost offset: int)
    requires from <= |src| && 0 <= l <= k && k + |src| - from <= a.Length
    requires offset == k - l - from && k - l + |src| - from <= |merged|
    requires forall q :: from <= q < |src| ==> merged[q + offset] == src[q]
    requires forall t :: l <= t < k ==> a[t] == merged[t - l]
    modifies a
    ensures forall t :: l <= t < k + |src| - from ==> a[t] == merged[t - l]
    ensures forall t :: 0 <= t < l || k + |src| - from <= t < a.Length ==> a[t] == old(a[t])
  {
    var i, n := from, k;
    while i < |src|
      invariant from <= i <= |src| && n == k + i - from
      invariant forall t :: l <= t < n ==> a[t] == merged[t - l]
      invariant forall t :: 0 <= t < l || n <= t < a.Length ==> a[t] == old(a[t])
    {
      assert merged[i + offset] == src[i];
      a[n] := src[i];
      i := i + 1;
      n := n + 1;
    }
  }

  /** Whether the merge takes its next element from the left copy once `i` and `j` are used. */
  predicate TakesLeft(left: seq<int>, right: seq<int>, i: nat, j: nat)
    requires i <= |left| && j <= |right|
  {
    i < |left| && (j == |right| || left[i] <= right[j])
  }

  /**
   * `path[n]` is how many elements of the left copy the merge has used after producing `n`
   * elements (the other `n - path[n]` come from the right copy), and `merged[n]` is the head
   * taken at that point.
   */
  ghost predicate Schedule(left: seq<int>, right: seq<int>, merged: seq<int>, path: seq<nat>)
  {
    && |merged| == |left| + |right| && |path| == |merged| + 1 && path[0] == 0
    && (forall n :: 0 <= n < |path| ==> path[n] <= |left| && path[n] <= n && n - path[n] <= |right|)
    && (forall n :: 0 <= n < |merged| ==> StepAt(left, right, merged, path, n))
  }

  /** Step `n` of a schedule: the head it takes is the `n`-th element, and the path moves past it. */
  ghost predicate StepAt(left: seq<int>, right: seq<int>, merged: seq<int>, path: seq<nat>, n: nat)
    requires |merged| == |left| + |right| && n < |merged| && n + 1 < |path| && path[n] <= |left| && path[n] <= n && n - path[n] <= |right|
  {
    if TakesLeft(left, right, path[n], n - path[n])
    then merged[n] == left[path[n]] && path[n + 1] == path[n] + 1
    else merged[n] == right[n - path[n]] && path[n + 1] == path[n]
  }

  /** While both copies have elements, a schedule takes the smaller head, the left one on ties. */
  lemma ScheduleStep(left: seq<int>, right: seq<int>, merged: seq<int>, path: seq<nat>, i: nat, j: nat)
    requires Schedule(left, right, merged, path)
    requires i < |left| && j < |right| && path[i + j] == i
    ensures left[i] <= right[j] ==> merged[i + j] == left[i] && path[i + j + 1] == i + 1
    ensures right[j] < left[i] ==> merged[i + j] == right[j] && path[i + j + 1] == i
  {
    assert StepAt(left, right, merged, path, i + j);
  }

  /** The merge has a schedule: the path it follows through both copies. */
  lemma ScheduleOf(left: seq<int>, right: seq<int>) returns (path: seq<nat>)
    ensures Schedule(left, right, Merged(left, right), path)
  {
    var total := |left| + |right|;
    path := seq(total + 1, n requires 0 <= n <= total => LeftUsed(left, right, n));
    assert forall n :: 0 <= n <= total ==> path[n] == LeftUsed(left, right, n);
    forall n | 0 <= n < total
      ensures StepAt(left, right, Merged(left, right), path, n)
    {
      Advance(left, right, path[n], n - path[n]);
    }
  }

  /**
   * How many elements of the left copy the merge has used after producing `n` elements; the
   * other `n - i` come from the right copy.
   */
  ghost function LeftUsed(left: seq<int>, right: seq<int>, n: nat): (i: nat)
    requires n <= |left| + |right|
    ensures i <= |left| && i <= n && n - i <= |right|
  {
    if n == 0 then 0
    else
      var i := LeftUsed(left, right, n - 1);
      if TakesLeft(left, right, i, n - 1 - i) then i + 1 else i
  }

  /** After `n` elements, the rest of the merge is the merge of what is left of both copies. */
  lemma {:induction false} PathRest(left: seq<int>, right: seq<int>, i: nat, j: nat)
    requires i + j <= |left| + |right| && LeftUsed(left, right, i + j) == i
    ensures i <= |left| && j <= |right|
    ensures Merged(left[i..], right[j..]) == Merged(left, right)[i + j..]
    decreases i + j
  {
    if i + j > 0 {
      var n := i + j;
      var i0 := LeftUsed(left, right, n - 1);
      var j0 := n - 1 - i0;
      PathRest(left, right, i0, j0);
      RestStep(left, right, i0, j0);
      var whole := Merged(left, right);
      var before := Merged(left[i0..], right[j0..]);
      assert before == whole[n - 1..];
      assert whole[n..] == before[1..];
      if TakesLeft(left, right, i0, j0) {
        assert i == i0 + 1 && j == j0;
        assert Merged(left[i0 + 1..], right[j0..]) == before[1..];
      } else {
        assert i == i0 && j == j0 + 1;
        assert Merged(left[i0..], right[j0 + 1..]) == before[1..];
      }
    }
  }

  /** One step of the merge: its head goes out and the rest is the merge of what remains. */
  lemma RestStep(left: seq<int>, right: seq<int>, i: nat, j: nat)
    requires i <= |left| && j <= |right| && i + j < |left| + |right|
    ensures TakesLeft(left, right, i, j) ==> Merged(left[i + 1..], right[j..]) == Merged(left[i..], right[j..])[1..]
    ensures !TakesLeft(left, right, i, j) ==> Merged(left[i..], right[j + 1..]) == Merged(left[i..], right[j..])[1..]
  {
    if TakesLeft(left, right, i, j) {
      assert left[i..][1..] == left[i + 1..];
    } else {
      assert right[j..][1..] == right[j + 1..];
    }
  }

  /** At step `i + j` of the merge, its element is the head taken there, and the path moves past it. */
  lemma Advance(left: seq<int>, right: seq<int>, i: nat, j: nat)
    requires i <= |left| && j <= |right| && i + j < |left| + |right|
    requires LeftUsed(left, right, i + j) == i
    ensures Merged(left, right)[i + j] == if TakesLeft(left, right, i, j) then left[i] else right[j]
    ensures LeftUsed(left, right, i + j + 1) == if TakesLeft(left, right, i, j) then i + 1 else i
  {
    PathRest(left, right, i, j);
    MergedHead(left[i..], right[j..]);
    assert Merged(left, right)[i + j] == Merged(left[i..], right[j..])[0];
  }

  /** Once one copy is used up, the rest of the merge is what remains of the other. */
  lemma Leftover(left: seq<int>, right: seq<int>, i: nat, j: nat)
    requires i <= |left| && j <= |right| && (i == |left| || j == |right|)
    requires LeftUsed(left, right, i + j) == i
    ensures forall q :: i <= q < |left| ==> Merged(left, right)[q + j] == left[q]
    ensures forall q :: j <= q < |right| ==> Merged(left, right)[|left| + q] == right[q]
  {
    PathRest(left, right, i, j);
    if j == |right| {
      DrainsLeft(left, right, Merged(left, right), i, j);
    } else {
      DrainsRight(left, right, Merged(left, right), i, j);
    }
  }

  /** The same, for the point a schedule's path has reached. */
  lemma LeftoverOnPath(left: seq<int>, right: seq<int>, path: seq<nat>, i: nat, j: nat)
    requires Schedule(left, right, Merged(left, right), path)
    requires i <= |left| && j <= |right| && (i == |left| || j == |right|) && path[i + j] == i
    ensures forall q :: i <= q < |left| ==> Merged(left, right)[q + j] == left[q]
    ensures forall q :: j <= q < |right| ==> Merged(left, right)[|left| + q] == right[q]
  {
    LeftUsedIsPath(left, right, path, i + j);
    Leftover(left, right, i, j);
  }

  /** With the right copy used up, the rest of the merge is the rest of the left copy. */
  lemma DrainsLeft(left: seq<int>, right: seq<int>, merged: seq<int>, i: nat, j: nat)
    requires i <= |left| && j == |right| && |merged| == |left| + |right|
    requires Merged(left[i..], right[j..]) == merged[i + j..]
    ensures forall q :: i <= q < |left| ==> merged[q + j] == left[q]
  {
    var rest := merged[i + j..];
    assert right[j..] == [];
    assert rest == left[i..];
    forall q | i <= q < |left| ensures merged[q + j] == left[q] {
      assert merged[q + j] == rest[q - i];
    }
  }

  /** With the left copy used up, the rest of the merge is the rest of the right copy. */
  lemma DrainsRight(left: seq<int>, right: seq<int>, merged: seq<int>, i: nat, j: nat)
    requires i == |left| && j <= |right| && |merged| == |left| + |right|
    requires Merged(left[i..], right[j..]) == merged[i + j..]
    ensures forall q :: j <= q < |right| ==> merged[|left| + q] == right[q]
  {
    var rest := merged[i + j..];
    assert left[i..] == [];
    assert rest == right[j..];
    forall q | j <= q < |right| ensures merged[|left| + q] == right[q] {
      assert merged[|left| + q] == rest[q - j];
    }
  }

  /** A schedule's path is the one `LeftUsed` computes. */
  lemma {:induction false} LeftUsedIsPath(left: seq<int>, right: seq<int>, path: seq<nat>, n: nat)
    requires Schedule(left, right, Merged(left, right), path) && n < |path|
    ensures path[n] == LeftUsed(left, right, n)
  {
    if n > 0 {
      LeftUsedIsPath(left, right, path, n - 1);
      assert StepAt(left, right, Merged(left, right), path, n - 1);
    }
  }

  /** A range overwritten element by element with `merged`, and nothing else touched. */
  lemma WrittenBack(before: seq<int>, after: seq<int>, l: int, r: int, merged: seq<int>)
    requires 0 <= l <= r < |before| == |after| && |merged| == r + 1 - l
    requires forall t :: l <= t <= r ==> after[t] == merged[t - l]
    requires forall t :: 0 <= t < l || r < t < |after| ==> after[t] == before[t]
    ensures after[l..r + 1] == merged
    ensures after[..l] == before[..l] && after[r + 1..] == before[r + 1..]
  {
  }
}
