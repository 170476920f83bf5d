/** The building blocks of `ValidityChecker`: the literal sort, the subset
    test `check`, `isDuplicated`, `minimise`, the implicit-parameter scan and
    the merge, drop and deduplication steps of the Cartesian product in
    `init`. */
module Checker {
  import opened Ids
  import opened Constraints

  predicate NonIncreasing(s: seq<int>)
  {
    forall p, q :: 0 <= p < q < |s| ==> s[p] >= s[q]
  }

  /** No literal occurs twice. */
  predicate Distinct(s: seq<int>)
  {
    forall p, q :: 0 <= p < q < |s| ==> s[p] != s[q]
  }

  /** b is c after one insertion step of `sort`: c[i] moved to position
      j + 1 and the entries j + 1 .. i - 1 shifted one place right. */
  predicate InsertedAt(c: seq<int>, b: seq<int>, i: int, j: int)
    requires -1 <= j < i < |c| && |b| == |c|
  {
    (forall p :: 0 <= p <= j ==> b[p] == c[p]) &&
    b[j + 1] == c[i] &&
    (forall p :: j + 2 <= p <= i ==> b[p] == c[p - 1]) &&
    (forall p :: i < p < |b| ==> b[p] == c[p])
  }

  /** An insertion step moves literals without changing them. */
  lemma InsertionMultiset(c: seq<int>, b: seq<int>, i: int, j: int)
    requires -1 <= j < i < |c| && |b| == |c| && InsertedAt(c, b, i, j)
    ensures multiset(b) == multiset(c)
  {
    assert b[..j + 1] == c[..j + 1];
    assert b[j + 2..i + 1] == c[j + 1..i];
    assert b[i + 1..] == c[i + 1..];
    assert b == b[..j + 1] + [b[j + 1]] + b[j + 2..i + 1] + b[i + 1..];
    assert c == c[..j + 1] + c[j + 1..i] + [c[i]] + c[i + 1..];
  }

  /** When c[..i] is in order and c[i] goes after the last entry at least as
      large, the insertion step leaves b[..i + 1] in order. */
  lemma InsertionSorted(c: seq<int>, b: seq<int>, i: int, j: int)
    requires -1 <= j < i < |c| && |b| == |c| && InsertedAt(c, b, i, j)
    requires forall p, q :: 0 <= p < q < i ==> c[p] >= c[q]
    requires forall p :: j < p < i ==> c[p] < c[i]
    requires j >= 0 ==> c[j] >= c[i]
    ensures forall p, q :: 0 <= p < q <= i ==> b[p] >= b[q]
  {
    forall p, q | 0 <= p < q <= i
      ensures b[p] >= b[q]
    {
      if q <= j {
        assert b[p] == c[p] && b[q] == c[q];
      } else if q == j + 1 {
        assert b[p] == c[p] && c[p] >= c[j];
      } else if p <= j {
        assert b[p] == c[p] && b[q] == c[q - 1];
      } else if p == j + 1 {
        assert b[q] == c[q - 1];
      } else {
        assert b[p] == c[p - 1] && b[q] == c[q - 1];
      }
    }
  }

  /** Models `sort` (lines 213-225), an insertion sort into non-increasing
      order. For negative literals that is non-decreasing magnitude. A list
      already in order is returned as it is. */
  method Sort(a: seq<int>) returns (b: seq<int>)
    ensures |b| == |a| && multiset(b) == multiset(a)
    ensures NonIncreasing(b)
    ensures NonIncreasing(a) ==> b == a
  {
    b := a;
    var i := 1;
    while i < |b|
      invariant |b| == |a| && 1 <= i && (i <= |b| || |b| == 0)
      invariant multiset(b) == multiset(a)
      invariant forall p, q :: 0 <= p < q < i && q < |b| ==> b[p] >= b[q]
      invariant NonIncreasing(a) ==> b == a
    {
      b := Insert(b, i);
      i := i + 1;
    }
  }

  /** One pass of the outer loop of `sort` (lines 215-223): c[i] is moved
      down into the ordered prefix c[..i]. */
  method Insert(c: seq<int>, i: int) returns (b: seq<int>)
    requires 1 <= i < |c|
    requires forall p, q :: 0 <= p < q < i ==> c[p] >= c[q]
    ensures |b| == |c| && multiset(b) == multiset(c)
    ensures forall p, q :: 0 <= p < q <= i ==> b[p] >= b[q]
    ensures c[i - 1] >= c[i] ==> b == c
  {
    var j;
    b, j := Shift(c, i);
    b := b[j + 1 := c[i]];
    assert InsertedAt(c, b, i, j);
    InsertionMultiset(c, b, i, j);
    InsertionSorted(c, b, i, j);
  }

  /** The inner loop of `sort` (lines 218-221): the entries of c[..i] below
      c[i], a suffix of the ordered prefix, move one place right; j is left
      just before the gap. */
  method Shift(c: seq<int>, i: int) returns (b: seq<int>, j: int)
    requires 1 <= i < |c|
    ensures -1 <= j < i && |b| == |c|
    ensures forall p :: 0 <= p <= j ==> b[p] == c[p]
    ensures forall p :: j + 2 <= p <= i ==> b[p] == c[p - 1]
    ensures forall p :: i < p < |b| ==> b[p] == c[p]
    ensures forall p :: j < p < i ==> c[p] < c[i]
    ensures j >= 0 ==> c[j] >= c[i]
    ensures c[i - 1] >= c[i] ==> j == i - 1 && b == c
  {
    b := c;
    var key := c[i];
    j := i - 1;
    while j >= 0 && b[j] < key
      invariant -1 <= j < i && |b| == |c|
      invariant forall p :: 0 <= p <= j ==> b[p] == c[p]
      invariant forall p :: j + 2 <= p <= i ==> b[p] == c[p - 1]
      invariant forall p :: i < p < |b| ==> b[p] == c[p]
      invariant forall p :: j < p < i ==> c[p] < key
      invariant j == i - 1 ==> b == c
    {
      b := b[j + 1 := b[j]];
      j := j - 1;
    }
  }

  lemma DistinctCount(s: seq<int>, x: int)
    requires Distinct(s)
    ensures multiset(s)[x] <= 1
  {
    if |s| > 0 {
      var s' := s[..|s| - 1];
      assert s == s' + [s[|s| - 1]];
      DistinctCount(s', x);
      if s[|s| - 1] == x {
        assert x !in s';
      }
    }
  }

  /** A permutation of a list without repetition has none either. */
  lemma DistinctPermutation(a: seq<int>, b: seq<int>)
    requires Distinct(a) && multiset(a) == multiset(b)
    ensures Distinct(b)
  {
    forall p, q | 0 <= p < q < |b|
      ensures b[p] != b[q]
    {
      if b[p] == b[q] {
        assert b == b[..p] + [b[p]] + b[p + 1..q] + [b[q]] + b[q + 1..];
        assert multiset(b)[b[p]] >= 2;
        DistinctCount(a, b[p]);
      }
    }
  }

  /** Models `isDuplicated` (lines 230-247): some constraint of v has exactly
      the literals a, in the same order. */
  method IsDuplicated(v: seq<Constraint>, a: seq<int>) returns (r: bool)
    ensures r <==> exists i :: 0 <= i < |v| && v[i].disjunction == a
  {
    var i := 0;
    while i < |v|
      invariant 0 <= i <= |v|
      invariant forall i' :: 0 <= i' < i ==> v[i'].disjunction != a
    {
      var b := v[i].disjunction;
      if |b| == |a| {
        var re := true;
        var j := 0;
        while j < |b|
          invariant 0 <= j <= |b|
          invariant re && b[..j] == a[..j]
        {
          if b[j] != a[j] {
            re := false;
            break;
          }
          j := j + 1;
        }
        if re {
          assert b == b[..j] == a[..j] == a;
          return true;
        }
      }
      i := i + 1;
    }
    return false;
  }

  /** One of the two constraints is involved in the other: every literal of the
      shorter one (the first on ties) occurs in the longer one. */
  predicate Involved(a: Constraint, b: Constraint)
  {
    if |a.disjunction| <= |b.disjunction| then Superior(a, b) else Superior(b, a)
  }

  /** Models `check` (lines 283-306). As in `isSuperior`, the second half of
      the test at line 300 never decides anything. */
  method Check(a: Constraint, b: Constraint) returns (matched: bool)
    ensures matched <==> Involved(a, b)
  {
    var x, y := a, b;
    if |a.disjunction| > |b.disjunction| {
      x, y := b, a;
    }
    matched := true;
    var i := 0;
    while i < |x.disjunction|
      invariant 0 <= i <= |x.disjunction|
      invariant Included(x.disjunction[..i], y.disjunction)
    {
      var j := IndexOf(y.disjunction, x.disjunction[i]);
      if j == |y.disjunction| && x.disjunction[i] != y.disjunction[|y.disjunction| - 1] {
        matched := false;
        break;
      }
      i := i + 1;
    }
    assert matched ==> x.disjunction[..i] == x.disjunction;
  }

  /** Of an involved pair i < j, `minimise` removes the longer one, j on ties. */
  function Loser(cs: seq<Constraint>, i: int, j: int): int
    requires 0 <= i < |cs| && 0 <= j < |cs|
  {
    if |cs[i].disjunction| <= |cs[j].disjunction| then j else i
  }

  /** Some involved pair i < j, with i below `bound`, has k as its loser. */
  predicate RemovedBefore(cs: seq<Constraint>, k: int, bound: int)
  {
    exists i, j :: 0 <= i < j < |cs| && i < bound && Involved(cs[i], cs[j]) && Loser(cs, i, j) == k
  }

  /** Every constraint of cs contains the literals of a constraint of r. */
  predicate Subsumes(r: seq<Constraint>, cs: seq<Constraint>)
  {
    forall k :: 0 <= k < |cs| ==> SomeBelow(r, cs[k].disjunction)
  }

  /** The literals of some constraint of r all occur in c. */
  predicate SomeBelow(r: seq<Constraint>, c: seq<int>)
  {
    exists p :: 0 <= p < |r| && Included(r[p].disjunction, c)
  }

  /** `minimise` removes constraint k. */
  predicate Removed(cs: seq<Constraint>, k: int)
  {
    RemovedBefore(cs, k, |cs|)
  }

  /** Models `minimise` (lines 253-277). The nested loops collect the indices
      to remove; removing them from the highest down amounts to keeping the
      others in order, so the survivors are `cs` restricted to the indices
      `idx`. No two survivors are involved in one another, and every
      constraint contains the literals of some survivor. */
  method Minimise(cs: seq<Constraint>) returns (r: seq<Constraint>, ghost idx: seq<int>)
    ensures |idx| == |r|
    ensures forall p :: 0 <= p < |r| ==> 0 <= idx[p] < |cs| && r[p] == cs[idx[p]]
    ensures forall p, q :: 0 <= p < q < |r| ==> idx[p] < idx[q]
    ensures forall k :: 0 <= k < |cs| ==> (k in idx <==> !Removed(cs, k))
    ensures forall p, q :: 0 <= p < q < |r| ==> !Involved(r[p], r[q])
    ensures Subsumes(r, cs)
  {
    var removeList := RemoveList(cs);
    r, idx := KeepOthers(cs, removeList);
    forall p, q | 0 <= p < q < |r|
      ensures !Involved(r[p], r[q])
    {
      if Involved(r[p], r[q]) {
        assert Removed(cs, Loser(cs, idx[p], idx[q]));
      }
    }
    KeptSubsume(cs, r, idx);
  }

  /** Keeping exactly the constraints `minimise` does not remove leaves one
      below every constraint. */
  lemma KeptSubsume(cs: seq<Constraint>, r: seq<Constraint>, idx: seq<int>)
    requires |idx| == |r|
    requires forall p :: 0 <= p < |r| ==> 0 <= idx[p] < |cs| && r[p] == cs[idx[p]]
    requires forall k :: 0 <= k < |cs| ==> (k in idx <==> !Removed(cs, k))
    ensures Subsumes(r, cs)
  {
    forall k | 0 <= k < |cs|
      ensures SomeBelow(r, cs[k].disjunction)
    {
      var m := Survivor(cs, k);
      assert m in idx;
      var p :| 0 <= p < |idx| && idx[p] == m;
      assert r[p] == cs[m];
    }
  }

  /** The nested loops of `minimise` (lines 256-271): the indices of the
      losers of the involved pairs. */
  method RemoveList(cs: seq<Constraint>) returns (removeList: seq<int>)
    ensures forall k :: k in removeList <==> 0 <= k < |cs| && Removed(cs, k)
  {
    removeList := [];
    var i := 0;
    while i < |cs| - 1
      invariant 0 <= i && (i <= |cs| - 1 || i == 0)
      invariant forall k :: k in removeList <==> 0 <= k < |cs| && RemovedBefore(cs, k, i)
    {
      removeList := RemoveFrom(cs, i, removeList);
      i := i + 1;
    }
    assert forall k :: RemovedBefore(cs, k, i) <==> Removed(cs, k);
  }

  /** The inner loop of `minimise` for constraint i: adds the losers of the
      involved pairs (i, j), j > i. */
  method RemoveFrom(cs: seq<Constraint>, i: int, removeList: seq<int>) returns (removeList': seq<int>)
    requires 0 <= i < |cs| - 1
    requires forall k :: k in removeList <==> 0 <= k < |cs| && RemovedBefore(cs, k, i)
    ensures forall k :: k in removeList' <==> 0 <= k < |cs| && RemovedBefore(cs, k, i + 1)
  {
    removeList' := removeList;
    var j := i + 1;
    while j < |cs|
      invariant i + 1 <= j <= |cs|
      invariant forall k :: k in removeList' <==> (0 <= k < |cs| && (RemovedBefore(cs, k, i) ||
        exists j' :: i < j' < j && Involved(cs[i], cs[j']) && Loser(cs, i, j') == k))
    {
      var c := Check(cs[i], cs[j]);
      if c {
        if |cs[i].disjunction| <= |cs[j].disjunction| {
          if j !in removeList' {
            removeList' := removeList' + [j];
          }
        } else {
          if i !in removeList' {
            removeList' := removeList' + [i];
          }
        }
      }
      j := j + 1;
    }
  }

  /** The removal loop of `minimise` (lines 273-276): removing the listed
      indices from the highest down keeps the others in order. */
  method KeepOthers(cs: seq<Constraint>, removeList: seq<int>) returns (r: seq<Constraint>, ghost idx: seq<int>)
    ensures |idx| == |r|
    ensures forall p :: 0 <= p < |r| ==> 0 <= idx[p] < |cs| && r[p] == cs[idx[p]]
    ensures forall p, q :: 0 <= p < q < |r| ==> idx[p] < idx[q]
    ensures forall k :: 0 <= k < |cs| ==> (k in idx <==> k !in removeList)
  {
    r, idx := [], [];
    var k := 0;
    while k < |cs|
      invariant 0 <= k <= |cs| && |idx| == |r|
      invariant forall p :: 0 <= p < |r| ==> 0 <= idx[p] < k && r[p] == cs[idx[p]]
      invariant forall p, q :: 0 <= p < q < |r| ==> idx[p] < idx[q]
      invariant forall k' :: 0 <= k' < k ==> (k' in idx <==> k' !in removeList)
    {
      if k !in removeList {
        r, idx := r + [cs[k]], idx + [k];
      }
      k := k + 1;
    }
  }

  /** Every constraint contains the literals of one that `minimise` keeps: by
      induction on (length, index), following the pairs that removed it. */
  lemma {:induction false} Survivor(cs: seq<Constraint>, k: int) returns (m: int)
    requires 0 <= k < |cs|
    ensures 0 <= m < |cs| && !Removed(cs, m) && Included(cs[m].disjunction, cs[k].disjunction)
    decreases |cs[k].disjunction|, k
  {
    if !Removed(cs, k) {
      return k;
    }
    var i, j :| 0 <= i < j < |cs| && Involved(cs[i], cs[j]) && Loser(cs, i, j) == k;
    var other := if k == j then i else j;
    assert Included(cs[other].disjunction, cs[k].disjunction);
    m := Survivor(cs, other);
  }

  /** The id is the magnitude of some literal of some constraint. */
  predicate Used(cs: seq<Constraint>, id: int)
  {
    exists c, k :: 0 <= c < |cs| && 0 <= k < |cs[c].disjunction| && Abs(cs[c].disjunction[k]) == id
  }

  /** Parameter i is implicit: every one of its values occurs in a constraint. */
  predicate Implicit(value: seq<int>, cs: seq<Constraint>, i: int)
    requires 0 <= i < |value|
  {
    forall j :: 0 <= j < value[i] ==> Used(cs, Id(value, i, j))
  }

  /** Models the implicit-parameter scan of `init` (lines 43-64): the implicit
      parameters in increasing order. */
  method ImplicitParameters(value: seq<int>, cs: seq<Constraint>) returns (im: seq<int>)
    ensures forall p :: 0 <= p < |im| ==> 0 <= im[p] < |value|
    ensures forall i :: 0 <= i < |value| ==> (i in im <==> Implicit(value, cs, i))
    ensures forall p, q :: 0 <= p < q < |im| ==> im[p] < im[q]
  {
    im := [];
    var i := 0;
    while i < |value|
      invariant 0 <= i <= |value|
      invariant forall p :: 0 <= p < |im| ==> 0 <= im[p] < i
      invariant forall i' :: 0 <= i' < i ==> (i' in im <==> Implicit(value, cs, i'))
      invariant forall p, q :: 0 <= p < q < |im| ==> im[p] < im[q]
    {
      var isImParameter := true;
      var j := 0;
      while j < value[i]
        invariant 0 <= j && (j <= value[i] || j == 0)
        invariant isImParameter ==> forall j' :: 0 <= j' < j ==> Used(cs, Id(value, i, j'))
        invariant !isImParameter ==> !Implicit(value, cs, i)
      {
        var getMatchCons := UsedIn(cs, Id(value, i, j));
        if !getMatchCons {
          isImParameter := false;
          break;
        }
        j := j + 1;
      }
      if isImParameter {
        im := im + [i];
      }
      i := i + 1;
    }
  }

  /** The search for one id over all constraints (lines 47-56). */
  method UsedIn(cs: seq<Constraint>, id: int) returns (found: bool)
    ensures found <==> Used(cs, id)
  {
    var c := 0;
    while c < |cs|
      invariant 0 <= c <= |cs|
      invariant forall c', k :: 0 <= c' < c && 0 <= k < |cs[c'].disjunction| ==> Abs(cs[c'].disjunction[k]) != id
    {
      var k := 0;
      while k < |cs[c].disjunction|
        invariant 0 <= k <= |cs[c].disjunction|
        invariant forall k' :: 0 <= k' < k ==> Abs(cs[c].disjunction[k']) != id
      {
        if id == Abs(cs[c].disjunction[k]) {
          return true;
        }
        k := k + 1;
      }
      c := c + 1;
    }
    return false;
  }

  /** Models the tuple copy of lines 87-95: the constraint without literal k. */
  method RemoveAt(s: seq<int>, k: int) returns (r: seq<int>)
    requires 0 <= k < |s|
    ensures r == s[..k] + s[k + 1..]
    ensures multiset(r) + multiset{s[k]} == multiset(s)
  {
    r := [];
    var tmpI := 0;
    while tmpI < |s|
      invariant 0 <= tmpI <= |s|
      invariant r == if tmpI <= k then s[..tmpI] else s[..k] + s[k + 1..tmpI]
    {
      if tmpI != k {
        r := r + [s[tmpI]];
      }
      tmpI := tmpI + 1;
    }
    assert r == s[..k] + s[k + 1..];
    assert s == s[..k] + [s[k]] + s[k + 1..];
  }

  /** The merge of two tuples: at each step the larger head goes first, the
      head of b on ties. */
  function Merged(a: seq<int>, b: seq<int>): seq<int>
    decreases |a| + |b|
  {
    if |a| == 0 then b
    else if |b| == 0 then a
    else if a[0] > b[0] then [a[0]] + Merged(a[1..], b)
    else [b[0]] + Merged(a, b[1..])
  }

  /** Merging keeps every literal of both tuples. */
  lemma {:induction false} MergedMultiset(a: seq<int>, b: seq<int>)
    ensures multiset(Merged(a, b)) == multiset(a) + multiset(b)
    decreases |a| + |b|
  {
    if |a| > 0 && |b| > 0 {
      if a[0] > b[0] {
        MergedMultiset(a[1..], b);
        assert a == [a[0]] + a[1..];
      } else {
        MergedMultiset(a, b[1..]);
        assert b == [b[0]] + b[1..];
      }
    }
  }

  /** The merge of two non-increasing tuples is non-increasing and starts with
      the larger head. */
  lemma {:induction false} MergedSorted(a: seq<int>, b: seq<int>)
    requires NonIncreasing(a) && NonIncreasing(b)
    ensures NonIncreasing(Merged(a, b))
    ensures |Merged(a, b)| == |a| + |b|
    ensures |a| + |b| > 0 ==> Merged(a, b)[0] == if |a| == 0 then b[0] else if |b| == 0 then a[0]
      else if a[0] > b[0] then a[0] else b[0]
    decreases |a| + |b|
  {
    if |a| > 0 && |b| > 0 {
      if a[0] > b[0] {
        MergedSorted(a[1..], b);
      } else {
        MergedSorted(a, b[1..]);
      }
    }
  }

  /** Models the merge loop of lines 112-130. */
  method Merge(a: seq<int>, b: seq<int>) returns (m: seq<int>)
    ensures m == Merged(a, b)
  {
    m := [];
    var x, y := 0, 0;
    while x < |a| || y < |b|
      invariant 0 <= x <= |a| && 0 <= y <= |b|
      invariant m + Merged(a[x..], b[y..]) == Merged(a, b)
      decreases |a| + |b| - x - y
    {
      m, x, y := MergeTake(a, b, m, x, y);
    }
  }

  /** One pass of the merge loop: the larger head, that of b on ties, is appended. */
  method MergeTake(a: seq<int>, b: seq<int>, m: seq<int>, x: int, y: int) returns (m': seq<int>, x': int, y': int)
    requires 0 <= x <= |a| && 0 <= y <= |b| && (x < |a| || y < |b|)
    ensures 0 <= x' <= |a| && 0 <= y' <= |b| && x' + y' == x + y + 1
    ensures m' + Merged(a[x'..], b[y'..]) == m + Merged(a[x..], b[y..])
  {
    MergedStep(a, b, x, y);
    if x >= |a| {
      m', x', y' := m + [b[y]], x, y + 1;
    } else if y >= |b| {
      m', x', y' := m + [a[x]], x + 1, y;
    } else if a[x] > b[y] {
      m', x', y' := m + [a[x]], x + 1, y;
    } else {
      m', x', y' := m + [b[y]], x, y + 1;
    }
  }

  /** The merge of the rests a[x..] and b[y..] starts with the head the loop takes next. */
  lemma MergedStep(a: seq<int>, b: seq<int>, x: int, y: int)
    requires 0 <= x <= |a| && 0 <= y <= |b| && (x < |a| || y < |b|)
    ensures Merged(a[x..], b[y..]) ==
      if x >= |a| then [b[y]] + Merged(a[x..], b[y + 1..])
      else if y >= |b| then [a[x]] + Merged(a[x + 1..], b[y..])
      else if a[x] > b[y] then [a[x]] + Merged(a[x + 1..], b[y..])
      else [b[y]] + Merged(a[x..], b[y + 1..])
  {
    if x < |a| {
      assert a[x + 1..] == a[x..][1..];
      assert a[x..] == [a[x]] + a[x + 1..];
    }
    if y < |b| {
      assert b[y + 1..] == b[y..][1..];
      assert b[y..] == [b[y]] + b[y + 1..];
    }
  }

  /** Literals are negative ids of real pairs. */
  predicate Literals(value: seq<int>, s: seq<int>)
  {
    forall p :: 0 <= p < |s| ==> s[p] < 0 && 1 <= Abs(s[p]) <= Total(value)
  }

  /** Two adjacent literals name different values of one parameter. */
  predicate Clash(value: seq<int>, m: seq<int>)
    requires ValidValues(value) && Literals(value, m)
  {
    exists x :: 0 <= x < |m| - 1 && m[x] != m[x + 1] &&
      ParamOf(value, Abs(m[x])) == ParamOf(value, Abs(m[x + 1]))
  }

  /** The tuple names at most one value of each parameter. */
  predicate OnePerParam(value: seq<int>, m: seq<int>)
    requires ValidValues(value) && Literals(value, m)
  {
    forall p, q :: 0 <= p < q < |m| && ParamOf(value, Abs(m[p])) == ParamOf(value, Abs(m[q])) ==> m[p] == m[q]
  }

  /** In a non-increasing tuple the literals of one parameter are adjacent, so
      a tuple without an adjacent clash names one value per parameter. */
  lemma {:induction false} NoClashChain(value: seq<int>, m: seq<int>, p: int, q: int)
    requires ValidValues(value) && Literals(value, m) && NonIncreasing(m) && !Clash(value, m)
    requires 0 <= p < q < |m| && ParamOf(value, Abs(m[p])) == ParamOf(value, Abs(m[q]))
    ensures m[p] == m[q]
    decreases q - p
  {
    var P := ParamOf(value, Abs(m[p]));
    ParamOfInterval(value, Abs(m[p]), P);
    ParamOfInterval(value, Abs(m[q]), P);
    ParamOfInterval(value, Abs(m[p + 1]), P);
    assert ParamOf(value, Abs(m[p + 1])) == P;
    if p + 1 < q {
      NoClashChain(value, m, p + 1, q);
    }
  }

  lemma ClashMeaning(value: seq<int>, m: seq<int>)
    requires ValidValues(value) && Literals(value, m) && NonIncreasing(m)
    ensures Clash(value, m) <==> !OnePerParam(value, m)
  {
    if !Clash(value, m) {
      forall p, q | 0 <= p < q < |m| && ParamOf(value, Abs(m[p])) == ParamOf(value, Abs(m[q]))
        ensures m[p] == m[q]
      {
        NoClashChain(value, m, p, q);
      }
    }
  }

  /** The parameter of an id is the one whose interval holds it. */
  lemma ParamOfInterval(value: seq<int>, id: int, p: int)
    requires ValidValues(value) && 1 <= id <= Total(value) && 0 <= p < |value|
    ensures ParamOf(value, id) == p <==> Offset(value, p) < id <= Offset(value, p + 1)
  {
    var q := ParamOf(value, id);
    if q < p {
      OffsetMonotone(value, q + 1, p);
    } else if p < q {
      OffsetMonotone(value, p + 1, q);
    }
  }

  /** Models the drop test of lines 133-143 on a merged tuple in non-increasing
      order: `y` follows the parameter of the current literal (the last id of
      parameter y, `relation[y][relation[y].length - 1]`, is Offset(y + 1)), and
      the tuple is dropped when the next literal is another value of the same
      parameter. */
  method Drop(value: seq<int>, m: seq<int>) returns (drop: bool)
    requires ValidValues(value) && Literals(value, m) && NonIncreasing(m)
    ensures drop <==> Clash(value, m)
    ensures drop <==> !OnePerParam(value, m)
  {
    ClashMeaning(value, m);
    var y := 0;
    drop := false;
    var x := 0;
    while x < |m| - 1
      invariant 0 <= x && (x <= |m| - 1 || x == 0) && 0 <= y
      invariant x < |m| ==> y <= ParamOf(value, Abs(m[x]))
      invariant forall x' :: 0 <= x' < x ==>
        !(m[x'] != m[x' + 1] && ParamOf(value, Abs(m[x'])) == ParamOf(value, Abs(m[x' + 1])))
    {
      y := SeekParam(value, Abs(m[x]), y);
      ParamOfInterval(value, Abs(m[x]), y);
      ParamOfInterval(value, Abs(m[x + 1]), y);
      if y + 1 < |value| {
        OffsetMonotone(value, y + 1, |value|);
      }
      if Abs(m[x + 1]) <= Offset(value, y + 1) && m[x] != m[x + 1] {
        drop := true;
        return;
      }
      var next := ParamOf(value, Abs(m[x + 1]));
      ParamOfInterval(value, Abs(m[x + 1]), next);
      if next < y {
        OffsetMonotone(value, next + 1, y);
      }
      x := x + 1;
    }
  }

  /** The inner loop of the drop test (lines 135-137): y advances to the
      parameter whose interval holds the id. */
  method SeekParam(value: seq<int>, id: int, y: int) returns (y': int)
    requires ValidValues(value) && 1 <= id <= Total(value) && 0 <= y <= ParamOf(value, id)
    ensures y' == ParamOf(value, id)
  {
    var target := ParamOf(value, id);
    y' := y;
    while id > Offset(value, y' + 1)
      invariant 0 <= y' <= target
    {
      if y' < target {
        OffsetMonotone(value, y' + 1, target);
      }
      y' := y' + 1;
    }
    if y' < target {
      OffsetMonotone(value, y' + 1, target);
    }
  }

  /** In a strictly decreasing list only the last entry is at most the last. */
  lemma OnlyLastAtMost(d: seq<int>, p: int)
    requires forall p, q :: 0 <= p < q < |d| ==> d[p] > d[q]
    requires 0 <= p < |d| && d[p] <= d[|d| - 1]
    ensures p == |d| - 1
  {
  }

  /** Models the deduplication of lines 147-156: the literals in order of first
      occurrence. On a non-increasing tuple the result decreases strictly. */
  method Dedup(m: seq<int>) returns (d: seq<int>)
    ensures Distinct(d)
    ensures forall v :: v in d <==> v in m
    ensures NonIncreasing(m) ==> forall p, q :: 0 <= p < q < |d| ==> d[p] > d[q]
  {
    d := [];
    var x := 0;
    while x < |m|
      invariant 0 <= x <= |m|
      invariant Distinct(d)
      invariant forall v :: v in d <==> v in m[..x]
      invariant x == 0 ==> d == []
      invariant NonIncreasing(m) ==> forall p, q :: 0 <= p < q < |d| ==> d[p] > d[q]
      invariant NonIncreasing(m) && x > 0 ==> |d| > 0 && d[|d| - 1] == m[x - 1]
    {
      assert m[..x + 1] == m[..x] + [m[x]];
      if m[x] !in d {
        if NonIncreasing(m) && x > 0 {
          assert m[x] < d[|d| - 1];
          forall p | 0 <= p < |d|
            ensures d[p] > m[x]
          {
            assert p == |d| - 1 || d[p] > d[|d| - 1];
          }
        }
        d := d + [m[x]];
      } else if NonIncreasing(m) {
        var p :| 0 <= p < |d| && d[p] == m[x];
        assert x > 0 && m[x - 1] >= m[x];
        OnlyLastAtMost(d, p);
      }
      x := x + 1;
    }
    assert m[..x] == m;
  }
}
