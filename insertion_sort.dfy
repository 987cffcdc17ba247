/** Insertion sort: each element in turn is carried left past the larger elements before it. */
module InsertionSort {
  import opened SortSpec

  /** `s` with its element at `i` taken out and put back in at `j <= i`. */
  function MovedDown(s: seq<int>, j: int, i: int): (r: seq<int>)
    requires 0 <= j <= i < |s|
    ensures |r| == |s| && r[j] == s[i]
    ensures r[..j] == s[..j] && r[i + 1..] == s[i + 1..]
    ensures forall l :: 0 <= l < j ==> r[l] == s[l]
    ensures forall l :: j < l <= i ==> r[l] == s[l - 1]
  {
    s[..j] + [s[i]] + s[j..i] + s[i + 1..]
  }

  /** Moving one element within a sequence keeps its elements. */
  lemma MovedDownPermutes(s: seq<int>, j: int, i: int)
    requires 0 <= j <= i < |s|
    ensures multiset(MovedDown(s, j, i)) == multiset(s)
  {
    assert s == s[..j] + s[j..i] + [s[i]] + s[i + 1..];
  }

  /**
   * Inserting the key after the last element not greater than it, in front of the strictly
   * greater ones, extends a sorted prefix by one.
   */
  lemma MovedDownSorts(s: seq<int>, j: int, i: int)
    requires 0 <= j <= i < |s|
    requires Sorted(s[..i])
    requires j > 0 ==> s[j - 1] <= s[i]
    requires forall l :: j <= l < i ==> s[l] > s[i]
    ensures Sorted(MovedDown(s, j, i)[..i + 1])
  {
    var r := MovedDown(s, j, i);
    forall x, y | 0 <= x < y < i
      ensures s[x] <= s[y]
    {
      assert s[..i][x] == s[x] && s[..i][y] == s[y];
    }
    forall x, y | 0 <= x < y <= i
      ensures r[x] <= r[y]
    {
      if y < j {
        assert r[x] == s[x] && r[y] == s[y];
      } else if x > j {
        assert r[x] == s[x - 1] && r[y] == s[y - 1];
      } else if x == j {
        assert r[y] == s[y - 1];
      } else if y == j {
        assert r[x] == s[x];
        assert s[x] <= s[j - 1];
      } else {
        assert r[x] == s[x] && r[y] == s[y - 1];
      }
    }
    var p := r[..i + 1];
    forall x, y | 0 <= x < y < |p|
      ensures p[x] <= p[y]
    {
      assert p[x] == r[x] && p[y] == r[y];
    }
  }

  /**
   * sort(arr): for each `i` from 1, the key `arr[i]` is inserted into the sorted prefix
   * `arr[..i]`.
   */
  method Sort(a: array<int>)
    modifies a
    ensures Sorted(a[..])
    ensures multiset(a[..]) == multiset(old(a[..]))
  {
    if a.Length == 0 {
      return;
    }
    var i := 1;
    while i < a.Length
      invariant 1 <= i <= a.Length
      invariant Sorted(a[..i])
      invariant multiset(a[..]) == multiset(old(a[..]))
    {
      Insert(a, i);
      i := i + 1;
    }
    assert a[..] == a[..i];
  }

  /**
   * One iteration of the outer loop: the key `a[i]` is taken out, strictly greater elements
   * before it are shifted one place right, and the key is written into the hole. Nothing at
   * an index above `i` is touched.
   */
  method Insert(a: array<int>, i: int)
    requires 0 <= i < a.Length && Sorted(a[..i])
    modifies a
    ensures Sorted(a[..i + 1])
    ensures a[i + 1..] == old(a[i + 1..])
    ensures multiset(a[..]) == multiset(old(a[..]))
  {
    var key := a[i];
    var j := i;
    while j > 0 && a[j - 1] > key
      invariant 0 <= j <= i
      invariant a[..j] == old(a[..j])
      invariant forall l :: j < l <= i ==> a[l] == old(a[l - 1])
      invariant forall l :: j <= l < i ==> old(a[l]) > key
      invariant a[i + 1..] == old(a[i + 1..])
    {
      a[j] := a[j - 1];
      j := j - 1;
    }
    a[j] := key;
    InsertedInHole(old(a[..]), a[..], j, i);
  }

  /** What the shifting loop leaves, with the key written into the hole, is the key moved down. */
  lemma InsertedInHole(before: seq<int>, after: seq<int>, j: int, i: int)
    requires 0 <= j <= i < |before| == |after| && Sorted(before[..i])
    requires after[..j] == before[..j] && after[j] == before[i] && after[i + 1..] == before[i + 1..]
    requires forall l :: j < l <= i ==> after[l] == before[l - 1]
    requires forall l :: j <= l < i ==> before[l] > before[i]
    requires j > 0 ==> before[j - 1] <= before[i]
    ensures Sorted(after[..i + 1]) && after[i + 1..] == before[i + 1..]
    ensures multiset(after) == multiset(before)
  {
    assert after == MovedDown(before, j, i);
    MovedDownPermutes(before, j, i);
    MovedDownSorts(before, j, i);
  }
}
