/** The quicksorts of `ALG.sortArray`.

    All three overloads run the same in-place "hole" partition: the pivot is the
    first element of the range, its slot becomes a hole, and elements are moved
    into the hole alternately from the right and from the left end until the two
    cursors meet, where the pivot is put back. They differ in the order (ascending,
    or descending for version 1), in whether the cursor scans skip elements equal
    to the pivot, and in the payload moved along with each key. `QuickSort` is that
    algorithm once, on a sequence of items with a key function. */
module QuickSort {

  import opened Wrappers

  /** x may precede y in the requested order. */
  predicate Before(x: int, y: int, descending: bool)
  {
    if descending then x >= y else x <= y
  }

  /** The keys of s[lo..hi] (inclusive bounds) are in the requested order. */
  predicate SortedRange<T>(s: seq<T>, key: T -> int, lo: int, hi: int, descending: bool)
    requires 0 <= lo && hi < |s|
  {
    forall i, j :: lo <= i < j <= hi ==> Before(key(s[i]), key(s[j]), descending)
  }

  predicate Sorted<T>(s: seq<T>, key: T -> int, descending: bool)
  {
    SortedRange(s, key, 0, |s| - 1, descending)
  }

  /** The right cursor skips x: it already belongs right of the pivot. With
      `strict` (the two-dimensional overload) keys equal to the pivot stop it. */
  predicate GoesRight(x: int, pivot: int, descending: bool, strict: bool)
  {
    Before(pivot, x, descending) && (!strict || x != pivot)
  }

  /** The left cursor skips x: it already belongs left of the pivot. */
  predicate GoesLeft(x: int, pivot: int, descending: bool, strict: bool)
  {
    Before(x, pivot, descending) && (!strict || x != pivot)
  }

  /** Moving the hole: writing s[from] into the hole `to` and leaving the hole at
      `from` keeps the multiset of the sequence with its hole refilled by v. */
  lemma MoveHole<T>(s: seq<T>, to: int, from: int, v: T)
    requires 0 <= to < |s| && 0 <= from < |s|
    ensures multiset(s[to := s[from]][from := v]) == multiset(s[to := v])
  {
    if to != from {
      var u := s[to := v];
      assert s[to := s[from]][from := v] == u[to := u[from]][from := u[to]];
      SwapMultiset(u, to, from);
    }
  }

  lemma SwapMultiset<T>(s: seq<T>, i: int, j: int)
    requires 0 <= i < |s| && 0 <= j < |s|
    ensures multiset(s[i := s[j]][j := s[i]]) == multiset(s)
  {
    var t := s[i := s[j]][j := s[i]];
    if i != j {
      calc {
        multiset(t);
        multiset(s)[s[i] := multiset(s)[s[i]] - 1][s[j] := multiset(s)[s[j]] + 1]
          [s[j] := multiset(s)[s[j]] + 1 - 1][s[i] := multiset(s)[s[i]] - 1 + 1];
        multiset(s);
      }
    }
  }

  /** a and s agree outside the index range [left, right]. */
  ghost predicate SameOutside<T>(a: seq<T>, s: seq<T>, left: int, right: int)
  {
    |a| == |s| && forall k :: 0 <= k < |s| && !(left <= k <= right) ==> a[k] == s[k]
  }

  /** Every key in a[lo..hi] may precede the pivot. */
  predicate AllBefore<T>(a: seq<T>, key: T -> int, lo: int, hi: int, pivot: int, descending: bool)
    requires 0 <= lo && hi < |a|
  {
    forall k :: lo <= k <= hi ==> Before(key(a[k]), pivot, descending)
  }

  /** Every key in a[lo..hi] may follow the pivot. */
  predicate AllAfter<T>(a: seq<T>, key: T -> int, lo: int, hi: int, pivot: int, descending: bool)
    requires 0 <= lo && hi < |a|
  {
    forall k :: lo <= k <= hi ==> Before(pivot, key(a[k]), descending)
  }

  /** The state of a partition of s[left..right] around the pivot item pv with
      cursors i <= j and the hole at `hole`: keys left of i may precede the pivot,
      keys right of j may follow it, nothing outside the range has moved, and
      refilling the hole with the pivot gives back the input's multiset. */
  ghost predicate Partitioning<T>(a: seq<T>, s: seq<T>, key: T -> int, left: int, right: int,
                            i: int, j: int, hole: int, pv: T, descending: bool)
  {
    |a| == |s| && 0 <= left <= i <= j <= right < |s| && left <= hole <= right &&
    SameOutside(a, s, left, right) &&
    AllBefore(a, key, left, i - 1, key(pv), descending) &&
    AllAfter(a, key, j + 1, right, key(pv), descending) &&
    multiset(a[hole := pv]) == multiset(s)
  }

  /** Filling the hole at i with an item a[j] that may precede the pivot moves
      the hole to j and the left cursor past i. */
  lemma HoleFromRight<T>(a: seq<T>, s: seq<T>, key: T -> int, left: int, right: int,
                         i: int, j: int, pv: T, descending: bool)
    requires Partitioning(a, s, key, left, right, i, j, i, pv, descending) && i < j
    requires Before(key(a[j]), key(pv), descending)
    ensures Partitioning(a[i := a[j]], s, key, left, right, i + 1, j, j, pv, descending)
  {
    MoveHole(a, i, j, pv);
    var a' := a[i := a[j]];
    assert forall k :: 0 <= k < |a| && k != i ==> a'[k] == a[k];
  }

  /** Filling the hole at j with an item a[i] that may follow the pivot moves
      the hole to i and the right cursor before j. */
  lemma HoleFromLeft<T>(a: seq<T>, s: seq<T>, key: T -> int, left: int, right: int,
                        i: int, j: int, pv: T, descending: bool)
    requires Partitioning(a, s, key, left, right, i, j, j, pv, descending) && i < j
    requires Before(key(pv), key(a[i]), descending)
    ensures Partitioning(a[j := a[i]], s, key, left, right, i, j - 1, i, pv, descending)
  {
    MoveHole(a, j, i, pv);
    var a' := a[j := a[i]];
    assert forall k :: 0 <= k < |a| && k != j ==> a'[k] == a[k];
  }

  /** The first half of a partition round: the right cursor skips items that
      belong right, then the item it stops at fills the hole at i and the hole
      moves to j. */
  method FromRight<T>(a: seq<T>, ghost s: seq<T>, key: T -> int, left: int, right: int,
                      i: int, j: int, pv: T, descending: bool, strict: bool)
    returns (a': seq<T>, i': int, j': int)
    requires Partitioning(a, s, key, left, right, i, j, i, pv, descending) && i < j
    ensures Partitioning(a', s, key, left, right, i', j', j', pv, descending)
    ensures i <= i' && j' - i' < j - i
  {
    var temp := key(pv);
    a', i', j' := a, i, j;
    while GoesRight(key(a'[j']), temp, descending, strict) && i' < j'
      invariant i <= j' <= j
      invariant AllAfter(a', key, j' + 1, right, temp, descending)
    {
      j' := j' - 1;
    }
    if i' < j' {
      HoleFromRight(a', s, key, left, right, i', j', pv, descending);
      a' := a'[i' := a'[j']];
      i' := i' + 1;
    }
  }

  /** The second half of a partition round: the left cursor skips items that
      belong left, then the item it stops at fills the hole at j and the hole
      moves back to i. */
  method FromLeft<T>(a: seq<T>, ghost s: seq<T>, key: T -> int, left: int, right: int,
                     i: int, j: int, pv: T, descending: bool, strict: bool)
    returns (a': seq<T>, i': int, j': int)
    requires Partitioning(a, s, key, left, right, i, j, j, pv, descending)
    ensures Partitioning(a', s, key, left, right, i', j', i', pv, descending)
    ensures i <= i' && j' - i' <= j - i
  {
    var temp := key(pv);
    a', i', j' := a, i, j;
    while GoesLeft(key(a'[i']), temp, descending, strict) && i' < j'
      invariant i <= i' <= j
      invariant AllBefore(a', key, left, i' - 1, temp, descending)
    {
      i' := i' + 1;
    }
    if i' < j' {
      HoleFromLeft(a', s, key, left, right, i', j', pv, descending);
      a' := a'[j' := a'[i']];
      j' := j' - 1;
    }
  }

  /** One partition of s[left..right]: the body of `sortArray(a, left, right)` up
      to the recursive calls. The result has the pivot s[left] at p, keys that may
      precede it on its left and keys that may follow it on its right. */
  method Partition<T>(s: seq<T>, key: T -> int, left: int, right: int, descending: bool, strict: bool)
    returns (a: seq<T>, p: int)
    requires 0 <= left < right < |s|
    ensures |a| == |s| && left <= p <= right
    ensures a[p] == s[left]
    ensures SameOutside(a, s, left, right)
    ensures AllBefore(a, key, left, p - 1, key(s[left]), descending)
    ensures AllAfter(a, key, p + 1, right, key(s[left]), descending)
    ensures multiset(a) == multiset(s)
    ensures multiset(a[left..right + 1]) == multiset(s[left..right + 1])
  {
    a := s;
    var i, j := left, right;
    var pv := s[left];
    assert a[i := pv] == s;
    while i != j
      invariant Partitioning(a, s, key, left, right, i, j, i, pv, descending)
      decreases j - i
    {
      a, i, j := FromRight(a, s, key, left, right, i, j, pv, descending, strict);
      a, i, j := FromLeft(a, s, key, left, right, i, j, pv, descending, strict);
    }
    a := a[i := pv];
    p := i;
    SegmentMultiset(s, a, left, right);
  }

  /** Two sequences with equal multisets that agree outside [left, right] have
      equal multisets on [left, right]. */
  lemma SegmentMultiset<T>(s: seq<T>, a: seq<T>, left: int, right: int)
    requires 0 <= left <= right + 1 <= |s| == |a|
    requires multiset(a) == multiset(s)
    requires SameOutside(a, s, left, right)
    ensures multiset(a[left..right + 1]) == multiset(s[left..right + 1])
  {
    assert a[..left] == s[..left] && a[right + 1..] == s[right + 1..];
    assert s == s[..left] + s[left..right + 1] + s[right + 1..];
    assert a == a[..left] + a[left..right + 1] + a[right + 1..];
    var outside := multiset(s[..left]) + multiset(s[right + 1..]);
    assert multiset(s) == multiset(s[left..right + 1]) + outside;
    assert multiset(a) == multiset(a[left..right + 1]) + outside;
    Cancel(multiset(a[left..right + 1]), multiset(s[left..right + 1]), outside);
  }

  lemma Cancel<T>(x: multiset<T>, y: multiset<T>, z: multiset<T>)
    requires x + z == y + z
    ensures x == y
  {
    assert x == (x + z) - z;
    assert y == (y + z) - z;
  }

  /** Keys that all precede (or all follow) the pivot keep doing so under any
      rearrangement of the range. */
  lemma BoundKept<T>(s: seq<T>, a: seq<T>, key: T -> int, lo: int, hi: int, pivot: int, descending: bool)
    requires 0 <= lo <= hi + 1 <= |s| == |a|
    requires multiset(a[lo..hi + 1]) == multiset(s[lo..hi + 1])
    ensures AllBefore(s, key, lo, hi, pivot, descending) ==> AllBefore(a, key, lo, hi, pivot, descending)
    ensures AllAfter(s, key, lo, hi, pivot, descending) ==> AllAfter(a, key, lo, hi, pivot, descending)
  {
    forall k | lo <= k <= hi
      ensures exists k' :: lo <= k' <= hi && s[k'] == a[k]
    {
      assert a[k] == a[lo..hi + 1][k - lo];
      assert a[k] in multiset(s[lo..hi + 1]);
      var k' :| 0 <= k' < hi + 1 - lo && s[lo..hi + 1][k'] == a[k];
      assert s[lo + k'] == a[k];
    }
  }

  /** `sortArray(a, ..., left, right, ...)`: sorts the range [left, right] (empty when
      right < left), leaving a permutation of the input that agrees with it
      outside the range. */
  method QuickSort<T>(s: seq<T>, key: T -> int, left: int, right: int, descending: bool, strict: bool)
    returns (a: seq<T>)
    requires 0 <= left <= right + 1 <= |s|
    ensures |a| == |s|
    ensures SortedRange(a, key, left, right, descending)
    ensures SameOutside(a, s, left, right)
    ensures multiset(a) == multiset(s)
    ensures multiset(a[left..right + 1]) == multiset(s[left..right + 1])
    decreases right - left
  {
    if left >= right {
      return s;
    }
    var a1, p := Partition(s, key, left, right, descending, strict);
    var a2 := QuickSort(a1, key, left, p - 1, descending, strict);
    a := QuickSort(a2, key, p + 1, right, descending, strict);
    SortStep(s, a1, a2, a, key, left, p, right, descending);
  }

  /** The two recursive calls after a partition sort the whole range. */
  lemma SortStep<T>(s: seq<T>, a1: seq<T>, a2: seq<T>, a: seq<T>, key: T -> int,
                    left: int, p: int, right: int, descending: bool)
    requires 0 <= left <= p <= right < |s|
    requires |a1| == |s| && a1[p] == s[left] && SameOutside(a1, s, left, right)
    requires AllBefore(a1, key, left, p - 1, key(s[left]), descending)
    requires AllAfter(a1, key, p + 1, right, key(s[left]), descending)
    requires multiset(a1) == multiset(s)
    requires |a2| == |s| && SortedRange(a2, key, left, p - 1, descending) && SameOutside(a2, a1, left, p - 1)
    requires multiset(a2) == multiset(a1) && multiset(a2[left..p]) == multiset(a1[left..p])
    requires |a| == |s| && SortedRange(a, key, p + 1, right, descending) && SameOutside(a, a2, p + 1, right)
    requires multiset(a) == multiset(a2) && multiset(a[p + 1..right + 1]) == multiset(a2[p + 1..right + 1])
    ensures SortedRange(a, key, left, right, descending)
    ensures SameOutside(a, s, left, right)
    ensures multiset(a[left..right + 1]) == multiset(s[left..right + 1])
  {
    var pivot := key(s[left]);
    BoundKept(a1, a2, key, left, p - 1, pivot, descending);
    assert a2[p] == s[left];
    assert AllAfter(a2, key, p + 1, right, pivot, descending);
    BoundKept(a2, a, key, p + 1, right, pivot, descending);
    assert a[p] == s[left];
    assert AllBefore(a, key, left, p - 1, pivot, descending);
    assert SortedRange(a, key, left, p - 1, descending);
    JoinSorted(a, key, left, p, right, descending);
    SegmentMultiset(s, a, left, right);
  }

  /** Two sorted ranges on either side of a pivot that separates them make one
      sorted range. */
  lemma JoinSorted<T>(a: seq<T>, key: T -> int, left: int, p: int, right: int, descending: bool)
    requires 0 <= left <= p <= right < |a|
    requires SortedRange(a, key, left, p - 1, descending) && SortedRange(a, key, p + 1, right, descending)
    requires AllBefore(a, key, left, p - 1, key(a[p]), descending)
    requires AllAfter(a, key, p + 1, right, key(a[p]), descending)
    ensures SortedRange(a, key, left, right, descending)
  {
    forall i, j | left <= i < j <= right
      ensures Before(key(a[i]), key(a[j]), descending)
    {
      if i < p && p < j {
        assert Before(key(a[i]), key(a[p]), descending) && Before(key(a[p]), key(a[j]), descending);
      }
    }
  }

  function Identity(x: int): int { x }

  function First<T>(x: (int, T)): int { x.0 }

  /** The pairs (a[k], b[k]). */
  function Zip<T>(a: seq<int>, b: seq<T>): (z: seq<(int, T)>)
    requires |a| == |b|
    ensures |z| == |a| && forall k :: 0 <= k < |a| ==> z[k] == (a[k], b[k])
  {
    seq(|a|, k requires 0 <= k < |a| => (a[k], b[k]))
  }

  function Keys<T>(z: seq<(int, T)>): (a: seq<int>)
    ensures |a| == |z| && forall k :: 0 <= k < |z| ==> a[k] == z[k].0
  {
    seq(|z|, k requires 0 <= k < |z| => z[k].0)
  }

  function Payloads<T>(z: seq<(int, T)>): (b: seq<T>)
    ensures |b| == |z| && forall k :: 0 <= k < |z| ==> b[k] == z[k].1
  {
    seq(|z|, k requires 0 <= k < |z| => z[k].1)
  }

  /** Models `ALG.sortArray(int[] a)`: an ascending permutation of a. */
  method SortArray(a: seq<int>) returns (r: seq<int>)
    ensures Sorted(r, Identity, false)
    ensures forall i, j :: 0 <= i < j < |r| ==> r[i] <= r[j]
    ensures multiset(r) == multiset(a)
  {
    r := QuickSort(a, Identity, 0, |a| - 1, false, false);
  }

  /** Models `ALG.sortArray(int[] a, int[] b, int version)`: a is sorted ascending
      (version 0) or descending (version 1), each b[k] travelling with a[k]; entries
      of b past the end of a are never touched, and any other version leaves both
      unchanged. */
  method SortArrayPaired(a: seq<int>, b: seq<int>, version: int) returns (a': seq<int>, b': seq<int>)
    requires |a| <= |b|
    ensures |a'| == |a| && |b'| == |b|
    ensures version == 0 ==> forall i, j :: 0 <= i < j < |a'| ==> a'[i] <= a'[j]
    ensures version == 1 ==> forall i, j :: 0 <= i < j < |a'| ==> a'[i] >= a'[j]
    ensures multiset(Zip(a', b'[..|a|])) == multiset(Zip(a, b[..|a|]))
    ensures b'[|a|..] == b[|a|..]
    ensures version != 0 && version != 1 ==> a' == a && b' == b
  {
    if version != 0 && version != 1 {
      return a, b;
    }
    var z := QuickSort(Zip(a, b[..|a|]), First, 0, |a| - 1, version == 1, false);
    a', b' := Keys(z), Payloads(z) + b[|a|..];
    assert b'[..|a|] == Payloads(z);
    assert Zip(a', b'[..|a|]) == z;
  }

  /** The first w entries of each of the first n rows of b. */
  function Heads(b: seq<seq<int>>, n: int, w: int): (h: seq<seq<int>>)
    requires 0 <= n <= |b| && 0 <= w
    requires forall k :: 0 <= k < n ==> |b[k]| >= w
    ensures |h| == n && forall k :: 0 <= k < n ==> h[k] == b[k][..w]
  {
    seq(n, k requires 0 <= k < n => b[k][..w])
  }

  /** b' is b with the first w entries of each of its first n rows rewritten:
      every row keeps its length and its entries from w on. */
  predicate TailsKept(b: seq<seq<int>>, b': seq<seq<int>>, n: int, w: int)
    requires 0 <= n <= |b| && 0 <= w
    requires forall k :: 0 <= k < n ==> |b[k]| >= w
  {
    && |b'| == |b|
    && (forall k :: 0 <= k < n ==> |b'[k]| == |b[k]| && b'[k][w..] == b[k][w..])
    && b'[n..] == b[n..]
  }

  /** Models `ALG.sortArray(int[] a, int[][] b)`: a sorted ascending with each row
      b[k] travelling with a[k]. The source reads b[0] to learn the row width w,
      which throws when b is empty, and it copies w entries per row, so the first
      w entries of a row move with its key while the rest of the row, and the rows
      past the end of a, stay where they are. */
  method SortArrayRows(a: seq<int>, b: seq<seq<int>>) returns (r: Exceptional<(seq<int>, seq<seq<int>>)>)
    requires |b| == 0 || (|a| <= |b| && forall k :: 0 <= k < |a| ==> |b[k]| >= |b[0]|)
    ensures r == Throws <==> |b| == 0
    ensures r.Returns? ==> |r.value.0| == |a| && forall i, j :: 0 <= i < j < |a| ==> r.value.0[i] <= r.value.0[j]
    ensures r.Returns? ==> TailsKept(b, r.value.1, |a|, |b[0]|)
    ensures r.Returns? ==> multiset(Zip(r.value.0, Heads(r.value.1, |a|, |b[0]|)))
                           == multiset(Zip(a, Heads(b, |a|, |b[0]|)))
  {
    if |b| == 0 {
      return Throws;
    }
    var w := |b[0]|;
    var h := Heads(b, |a|, w);
    var z := QuickSort(Zip(a, h), First, 0, |a| - 1, false, true);
    var a' := Keys(z);
    var p := Payloads(z);
    forall k | 0 <= k < |a|
      ensures |p[k]| == w
    {
      assert z[k] in multiset(Zip(a, h));
    }
    var b' := seq(|b|, k requires 0 <= k < |b| => if k < |a| then p[k] + b[k][w..] else b[k]);
    assert b'[|a|..] == b[|a|..];
    assert Heads(b', |a|, w) == p;
    assert Zip(a', p) == z;
    return Returns((a', b'));
  }
}
