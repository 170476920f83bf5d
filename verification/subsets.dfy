/** Ranking and unranking of m-subsets of {0, ..., n-1} in lexicographic order,
    as done by `ALG.combine2num`, `ALG.num2combine` and `ALG.allCombination`.

    The reference is `Enum`, the lexicographic list of subsets; `RankFrom` and
    `Unrank` walk it block by block, and the closed formula of `combine2num`
    (C(n, m) - sum of C(n - c[i] - 1, m - i) - 1) is proved equal to the walk. */
module Subsets {
  import opened Binomial

  /** Strictly increasing. */
  predicate Ascending(c: seq<int>)
  {
    forall i, j :: 0 <= i < j < |c| ==> c[i] < c[j]
  }

  /** `c` lists a subset of {lo, ..., n-1} in ascending order. */
  predicate IsSubsetOf(c: seq<int>, lo: int, n: int)
  {
    Ascending(c) && forall i :: 0 <= i < |c| ==> lo <= c[i] < n
  }

  /** Strict lexicographic order on sequences of equal length. */
  predicate LexLess(a: seq<int>, b: seq<int>)
    requires |a| == |b|
  {
    exists p :: 0 <= p < |a| && a[..p] == b[..p] && a[p] < b[p]
  }

  /** Puts `v` in front of every sequence of `ss`. */
  function Prepend(v: int, ss: seq<seq<int>>): (r: seq<seq<int>>)
    ensures |r| == |ss|
    ensures forall i :: 0 <= i < |ss| ==> r[i] == [v] + ss[i]
  {
    seq(|ss|, i requires 0 <= i < |ss| => [v] + ss[i])
  }

  /** Puts `p` in front of every sequence of `ss`. */
  function AddPrefix(p: seq<int>, ss: seq<seq<int>>): (r: seq<seq<int>>)
    ensures |r| == |ss|
    ensures forall i :: 0 <= i < |ss| ==> r[i] == p + ss[i]
  {
    seq(|ss|, i requires 0 <= i < |ss| => p + ss[i])
  }

  /** All k-subsets of {lo, ..., n-1} in lexicographic order: first those that
      contain lo, then those that do not. */
  function Enum(lo: nat, n: nat, k: nat): seq<seq<int>>
    decreases n - lo, k
  {
    if k == 0 then [[]]
    else if lo >= n then []
    else Prepend(lo, Enum(lo + 1, n, k - 1)) + Enum(lo + 1, n, k)
  }

  lemma {:induction false} EnumLength(lo: nat, n: nat, k: nat)
    requires lo <= n
    ensures |Enum(lo, n, k)| == Binom(n - lo, k)
    decreases n - lo, k
  {
    if k > 0 && lo < n {
      EnumLength(lo + 1, n, k - 1);
      EnumLength(lo + 1, n, k);
    }
  }

  /** Every listed element is an ascending k-subset of {lo, ..., n-1}. */
  lemma {:induction false} EnumMembers(lo: nat, n: nat, k: nat)
    ensures forall i :: 0 <= i < |Enum(lo, n, k)| ==>
      |Enum(lo, n, k)[i]| == k && IsSubsetOf(Enum(lo, n, k)[i], lo, n)
    decreases n - lo, k
  {
    if k > 0 && lo < n {
      EnumMembers(lo + 1, n, k - 1);
      EnumMembers(lo + 1, n, k);
      var a := Prepend(lo, Enum(lo + 1, n, k - 1));
      var e := Enum(lo, n, k);
      assert e == a + Enum(lo + 1, n, k);
      forall i | 0 <= i < |e|
        ensures |e[i]| == k && IsSubsetOf(e[i], lo, n)
      {
        if i < |a| {
          var s := Enum(lo + 1, n, k - 1)[i];
          assert e[i] == [lo] + s;
          assert IsSubsetOf(s, lo + 1, n);
        } else {
          assert e[i] == Enum(lo + 1, n, k)[i - |a|];
        }
      }
    }
  }

  /** The list is strictly increasing in lexicographic order (hence duplicate-free). */
  lemma {:induction false} EnumSorted(lo: nat, n: nat, k: nat)
    ensures forall i, j :: 0 <= i < j < |Enum(lo, n, k)| ==>
      |Enum(lo, n, k)[i]| == |Enum(lo, n, k)[j]| && LexLess(Enum(lo, n, k)[i], Enum(lo, n, k)[j])
    decreases n - lo, k
  {
    EnumMembers(lo, n, k);
    if k > 0 && lo < n {
      EnumSorted(lo + 1, n, k - 1);
      EnumSorted(lo + 1, n, k);
      EnumMembers(lo + 1, n, k);
      var inner := Enum(lo + 1, n, k - 1);
      var a := Prepend(lo, inner);
      var b := Enum(lo + 1, n, k);
      var e := Enum(lo, n, k);
      assert e == a + b;
      forall i, j | 0 <= i < j < |e|
        ensures |e[i]| == |e[j]| && LexLess(e[i], e[j])
      {
        if j < |a| {
          var p :| 0 <= p < |inner[i]| && inner[i][..p] == inner[j][..p] && inner[i][p] < inner[j][p];
          assert e[i][..p + 1] == e[j][..p + 1];
          assert e[i][p + 1] < e[j][p + 1];
        } else if i < |a| {
          assert e[i][0] == lo;
          assert e[j] == b[j - |a|];
          assert IsSubsetOf(b[j - |a|], lo + 1, n);
          assert e[i][..0] == e[j][..0];
        } else {
          assert e[i] == b[i - |a|] && e[j] == b[j - |a|];
        }
      }
    }
  }

  /** Position of the ascending subset `c` of {lo, ..., n-1} in `Enum(lo, n, |c|)`:
      skip the C(n - lo - 1, |c| - 1) subsets that start with lo whenever c does not. */
  function RankFrom(c: seq<int>, lo: nat, n: nat): nat
    requires IsSubsetOf(c, lo, n)
    decreases n - lo
  {
    if |c| == 0 then 0
    else if c[0] == lo then RankFrom(c[1..], lo + 1, n)
    else Binom(n - lo - 1, |c| - 1) + RankFrom(c, lo + 1, n)
  }

  /** The subset at position r of `Enum(lo, n, k)`, found block by block. */
  function Unrank(r: nat, lo: nat, n: nat, k: nat): seq<int>
    requires lo <= n && r < Binom(n - lo, k)
    decreases n - lo
  {
    if k == 0 then []
    else if r < Binom(n - lo - 1, k - 1) then [lo] + Unrank(r, lo + 1, n, k - 1)
      else Unrank(r - Binom(n - lo - 1, k - 1), lo + 1, n, k)
  }

  /** Ranks lie in [0, C(n - lo, |c|)). */
  lemma {:induction false} RankBound(c: seq<int>, lo: nat, n: nat)
    requires IsSubsetOf(c, lo, n) && lo <= n
    ensures RankFrom(c, lo, n) < Binom(n - lo, |c|)
    decreases n - lo
  {
    if |c| > 0 {
      if c[0] == lo {
        TailSubset(c, lo, n);
        RankBound(c[1..], lo + 1, n);
      } else {
        ShiftSubset(c, lo, n);
        RankBound(c, lo + 1, n);
      }
    }
  }

  /** Ranks index the subset in the enumeration. */
  lemma RankIndexesEnum(c: seq<int>, lo: nat, n: nat)
    requires IsSubsetOf(c, lo, n) && lo <= n
    ensures RankFrom(c, lo, n) < |Enum(lo, n, |c|)|
    ensures Enum(lo, n, |c|)[RankFrom(c, lo, n)] == c
  {
    UnrankOfRank(c, lo, n);
    UnrankIsEnum(RankFrom(c, lo, n), lo, n, |c|);
  }

  /** A subset starting with lo continues as a subset of {lo + 1, ..., n-1}. */
  lemma TailSubset(c: seq<int>, lo: nat, n: nat)
    requires IsSubsetOf(c, lo, n) && |c| > 0 && c[0] == lo
    ensures IsSubsetOf(c[1..], lo + 1, n)
  {
    forall i | 0 <= i < |c| - 1
      ensures lo + 1 <= c[1..][i] < n
    {
      assert c[0] < c[i + 1];
    }
  }

  /** A subset not starting with lo is a subset of {lo + 1, ..., n-1}. */
  lemma ShiftSubset(c: seq<int>, lo: nat, n: nat)
    requires IsSubsetOf(c, lo, n) && |c| > 0 && c[0] != lo
    ensures IsSubsetOf(c, lo + 1, n)
  {
    forall i | 0 <= i < |c|
      ensures lo + 1 <= c[i]
    {
      if i > 0 {
        assert c[0] < c[i];
      }
    }
  }

  /** Position r of the block of subsets that start with lo. */
  lemma EnumFirstBlock(lo: nat, n: nat, k: nat, r: nat)
    requires lo < n && k >= 1 && r < |Enum(lo + 1, n, k - 1)|
    ensures r < |Enum(lo, n, k)|
    ensures Enum(lo, n, k)[r] == [lo] + Enum(lo + 1, n, k - 1)[r]
  {
    assert Enum(lo, n, k) == Prepend(lo, Enum(lo + 1, n, k - 1)) + Enum(lo + 1, n, k);
  }

  /** Position r of the block of subsets that do not contain lo. */
  lemma EnumSecondBlock(lo: nat, n: nat, k: nat, r: nat)
    requires lo < n && k >= 1 && r < |Enum(lo + 1, n, k)|
    ensures |Enum(lo + 1, n, k - 1)| + r < |Enum(lo, n, k)|
    ensures Enum(lo, n, k)[|Enum(lo + 1, n, k - 1)| + r] == Enum(lo + 1, n, k)[r]
  {
    assert Enum(lo, n, k) == Prepend(lo, Enum(lo + 1, n, k - 1)) + Enum(lo + 1, n, k);
  }

  /** Unranking reads the enumeration. */
  lemma {:induction false} UnrankIsEnum(r: nat, lo: nat, n: nat, k: nat)
    requires lo <= n && r < Binom(n - lo, k)
    ensures |Enum(lo, n, k)| == Binom(n - lo, k)
    ensures Enum(lo, n, k)[r] == Unrank(r, lo, n, k)
    decreases n - lo
  {
    EnumLength(lo, n, k);
    if k > 0 {
      var b := Binom(n - lo - 1, k - 1);
      EnumLength(lo + 1, n, k - 1);
      if r < b {
        UnrankIsEnum(r, lo + 1, n, k - 1);
        EnumFirstBlock(lo, n, k, r);
      } else {
        UnrankIsEnum(r - b, lo + 1, n, k);
        EnumSecondBlock(lo, n, k, r - b);
      }
    }
  }

  /** Unranking yields an ascending k-subset of {lo, ..., n-1} whose rank is r. */
  lemma {:induction false} RankOfUnrank(r: nat, lo: nat, n: nat, k: nat)
    requires lo <= n && r < Binom(n - lo, k)
    ensures |Unrank(r, lo, n, k)| == k
    ensures IsSubsetOf(Unrank(r, lo, n, k), lo, n)
    ensures RankFrom(Unrank(r, lo, n, k), lo, n) == r
    decreases n - lo
  {
    if k > 0 {
      var b := Binom(n - lo - 1, k - 1);
      if r < b {
        RankOfUnrank(r, lo + 1, n, k - 1);
        var s := Unrank(r, lo + 1, n, k - 1);
        assert Unrank(r, lo, n, k) == [lo] + s;
        assert ([lo] + s)[1..] == s;
      } else {
        RankOfUnrank(r - b, lo + 1, n, k);
      }
    }
  }

  /** Ranking then unranking gives the subset back. */
  lemma {:induction false} UnrankOfRank(c: seq<int>, lo: nat, n: nat)
    requires IsSubsetOf(c, lo, n) && lo <= n
    ensures RankFrom(c, lo, n) < Binom(n - lo, |c|)
    ensures Unrank(RankFrom(c, lo, n), lo, n, |c|) == c
    decreases n - lo
  {
    RankBound(c, lo, n);
    if |c| > 0 {
      if c[0] == lo {
        TailSubset(c, lo, n);
        UnrankOfRank(c[1..], lo + 1, n);
        RankBound(c[1..], lo + 1, n);
        assert [lo] + c[1..] == c;
      } else {
        ShiftSubset(c, lo, n);
        UnrankOfRank(c, lo + 1, n);
      }
    }
  }

  /** Sum over i of C(n - c[i] - 1, |c| - i): the subtracted terms of `combine2num`. */
  function CnsSum(c: seq<int>, n: nat): nat
    requires forall i :: 0 <= i < |c| ==> 0 <= c[i] < n
  {
    if |c| == 0 then 0 else Binom(n - c[0] - 1, |c|) + CnsSum(c[1..], n)
  }

  /** The closed formula of `combine2num` equals the block-walk rank. */
  lemma {:induction false} RankClosedForm(c: seq<int>, lo: nat, n: nat)
    requires IsSubsetOf(c, lo, n) && lo <= n
    ensures RankFrom(c, lo, n) == Binom(n - lo, |c|) - 1 - CnsSum(c, n)
    decreases n - lo
  {
    RankBound(c, lo, n);
    if |c| > 0 {
      assert lo <= c[0] < n;
      if c[0] == lo {
        assert IsSubsetOf(c[1..], lo + 1, n);
        RankClosedForm(c[1..], lo + 1, n);
      } else {
        assert IsSubsetOf(c, lo + 1, n);
        RankClosedForm(c, lo + 1, n);
      }
    }
  }

  /** Models `ALG.combine2num(c, n, m)` for an ascending m-subset `c` of {0..n-1}:
      the result is the position of `c` in the lexicographic list of all m-subsets. */
  method Combine2Num(c: seq<int>, n: nat, m: nat) returns (ret: int)
    requires |c| == m && IsSubsetOf(c, 0, n)
    ensures 0 <= ret < Binom(n, m) == |Enum(0, n, m)|
    ensures ret == RankFrom(c, 0, n)
    ensures Enum(0, n, m)[ret] == c
  {
    ret := Combine(n, m);
    var i := 0;
    while i < m
      invariant 0 <= i <= m
      invariant ret == Binom(n, m) - (CnsSum(c, n) - CnsSum(c[i..], n))
    {
      assert c[i..][1..] == c[i + 1..];
      var k := Combine(n - c[i] - 1, m - i);
      ret := ret - k;
      i := i + 1;
    }
    assert c[m..] == [];
    RankClosedForm(c, 0, n);
    RankIndexesEnum(c, 0, n);
    EnumLength(0, n, m);
    ret := ret - 1;
  }

  /** Models `ALG.num2combine(t, n, m)`: the t-th m-subset of {0..n-1} in
      lexicographic order. The 1-based counter `t` skips whole blocks of
      C(n - j, m - i - 1) subsets that start with a value below j - 1. */
  method Num2Combine(t: int, n: nat, m: nat) returns (ret: seq<int>)
    requires 0 <= t < Binom(n, m)
    ensures ret == Unrank(t, 0, n, m)
    ensures |ret| == m && IsSubsetOf(ret, 0, n)
    ensures RankFrom(ret, 0, n) == t
  {
    var oneBased: seq<int> := [];
    var t' := t + 1;
    var j := 1;
    var i := 0;
    ghost var target := Unrank(t, 0, n, m);
    while i < m
      invariant 0 <= i <= m && |oneBased| == i
      invariant 1 <= j <= n + 1
      invariant 1 <= t' && t' - 1 < Binom(n - (j - 1), m - i)
      invariant Minus1(oneBased) + Unrank(t' - 1, j - 1, n, m - i) == target
    {
      t', j := SkipBlocks(t', j, n, m - i);
      TakeStep(oneBased, t', j, n, m - i, target);
      oneBased := oneBased + [j];
      i := i + 1;
      j := j + 1;
    }
    assert Unrank(t' - 1, j - 1, n, 0) == [];
    ret := Minus1(oneBased);
    assert ret + [] == ret;
    RankOfUnrank(t, 0, n, m);
  }

  /** One pass of the outer loop of `num2combine`: once the next value is j - 1,
      recording j keeps the chosen subset. */
  lemma TakeStep(oneBased: seq<int>, t: int, j: int, n: nat, rem: nat, target: seq<int>)
    requires rem >= 1 && 1 <= j <= n && 1 <= t
    requires t - 1 < Binom(n - j, rem - 1) && t - 1 < Binom(n - (j - 1), rem)
    requires Minus1(oneBased) + Unrank(t - 1, j - 1, n, rem) == target
    ensures Minus1(oneBased + [j]) + Unrank(t - 1, j, n, rem - 1) == target
  {
    var tail := Unrank(t - 1, j, n, rem - 1);
    UnrankTake(t - 1, j - 1, n, rem);
    MinusOneSnoc(oneBased, j);
    assert Minus1(oneBased + [j]) + tail == Minus1(oneBased) + ([j - 1] + tail);
  }

  /** The inner loop of `num2combine`: while the 1-based rank t exceeds the
      number C(n - j, rem - 1) of subsets whose next value is j - 1, skip them. On
      exit the next value is j - 1, and the subset chosen is unchanged. */
  method SkipBlocks(t: int, j: int, n: nat, rem: nat) returns (t': int, j': int)
    requires rem >= 1 && 1 <= j <= n + 1
    requires 1 <= t && t - 1 < Binom(n - (j - 1), rem)
    ensures j <= j' <= n && 1 <= t' <= t
    ensures t' - 1 < Binom(n - j', rem - 1)
    ensures t' - 1 < Binom(n - (j' - 1), rem)
    ensures Unrank(t' - 1, j' - 1, n, rem) == Unrank(t - 1, j - 1, n, rem)
  {
    t', j' := t, j;
    BinomNonzero(n - (j' - 1), rem);
    var k := Combine(n - j', rem - 1);
    while t' > k
      invariant j <= j' <= n
      invariant k == Binom(n - j', rem - 1)
      invariant 1 <= t' <= t && t' - 1 < Binom(n - (j' - 1), rem)
      invariant Unrank(t' - 1, j' - 1, n, rem) == Unrank(t - 1, j - 1, n, rem)
      decreases n - j'
    {
      UnrankSkip(t' - 1, j' - 1, n, rem);
      t' := t' - k;
      j' := j' + 1;
      BinomNonzero(n - (j' - 1), rem);
      k := Combine(n - j', rem - 1);
    }
  }

  /** A non-zero C(a, k) needs k <= a. */
  lemma BinomNonzero(a: nat, k: nat)
    requires Binom(a, k) > 0
    ensures k <= a
  {
    if a < k {
      BinomAbove(a, k);
    }
  }

  /** A rank beyond the block of subsets that start with lo skips that block. */
  lemma UnrankSkip(r: nat, lo: nat, n: nat, k: nat)
    requires lo <= n && r < Binom(n - lo, k) && k >= 1
    requires r >= Binom(n - lo - 1, k - 1)
    ensures r - Binom(n - lo - 1, k - 1) < Binom(n - lo - 1, k)
    ensures Unrank(r, lo, n, k) == Unrank(r - Binom(n - lo - 1, k - 1), lo + 1, n, k)
  {
  }

  /** A rank inside the block of subsets that start with lo takes lo. */
  lemma UnrankTake(r: nat, lo: nat, n: nat, k: nat)
    requires lo <= n && r < Binom(n - lo, k) && k >= 1
    requires r < Binom(n - lo - 1, k - 1)
    ensures Unrank(r, lo, n, k) == [lo] + Unrank(r, lo + 1, n, k - 1)
  {
  }

  lemma MinusOneSnoc(s: seq<int>, x: int)
    ensures Minus1(s + [x]) == Minus1(s) + [x - 1]
  {
    assert (s + [x])[..|s|] == s;
  }

  /** Subtracts one from every entry (the final loop of `num2combine`). */
  function Minus1(s: seq<int>): (r: seq<int>)
    ensures |r| == |s|
    ensures forall i :: 0 <= i < |s| ==> r[i] == s[i] - 1
  {
    if |s| == 0 then [] else Minus1(s[..|s| - 1]) + [s[|s| - 1] - 1]
  }

  /** The recursion of `ALG.dfs`: with `kLeft` values still to choose, try every
      1-based value i from `from` to `to`, store i - 1 and recurse with `from = i + 1`
      and `to + 1`. The shared buffer of the source is the `prefix` argument here. */
  function Dfs(prefix: seq<int>, kLeft: nat, from: int, to: int): seq<seq<int>>
    decreases kLeft, 1, 0
  {
    if kLeft == 0 then [prefix] else DfsLoop(prefix, kLeft, from, to)
  }

  /** The `for (i = from; i <= to; ++i)` loop of `ALG.dfs`. */
  function DfsLoop(prefix: seq<int>, kLeft: nat, i: int, to: int): seq<seq<int>>
    requires kLeft >= 1
    decreases kLeft, 0, to - i + 1
  {
    if i > to then []
    else Dfs(prefix + [i - 1], kLeft - 1, i + 1, to + 1) + DfsLoop(prefix, kLeft, i + 1, to)
  }

  /** Models `ALG.allCombination(n, m)`: `dfs(data, new int[m], m, 1, n - m + 1, 0)`. */
  function AllCombination(n: nat, m: nat): seq<seq<int>>
  {
    Dfs([], m, 1, n - m + 1)
  }

  /** No k-subsets fit into fewer than k values. */
  lemma {:induction false} EnumEmpty(lo: nat, n: nat, k: nat)
    requires k >= 1 && n < lo + k
    ensures Enum(lo, n, k) == []
    decreases n - lo
  {
    if lo < n {
      EnumEmpty(lo + 1, n, k - 1);
      EnumEmpty(lo + 1, n, k);
    }
  }

  lemma AddPrefixSplit(p: seq<int>, v: int, e: seq<seq<int>>, f: seq<seq<int>>)
    ensures AddPrefix(p, Prepend(v, e) + f) == AddPrefix(p + [v], e) + AddPrefix(p, f)
  {
    var l := AddPrefix(p, Prepend(v, e) + f);
    var r := AddPrefix(p + [v], e) + AddPrefix(p, f);
    assert |l| == |r|;
    forall i | 0 <= i < |l|
      ensures l[i] == r[i]
    {
      if i < |e| {
        assert (Prepend(v, e) + f)[i] == [v] + e[i];
        assert p + ([v] + e[i]) == (p + [v]) + e[i];
      } else {
        assert (Prepend(v, e) + f)[i] == f[i - |e|];
      }
    }
  }

  /** The depth-first search lists, behind `prefix`, the kLeft-subsets of
      {from - 1, ..., to + kLeft - 2} in lexicographic order. */
  lemma {:induction false} DfsIsEnum(prefix: seq<int>, kLeft: nat, from: int, to: int)
    requires from >= 1 && to + kLeft >= 1
    ensures Dfs(prefix, kLeft, from, to) == AddPrefix(prefix, Enum(from - 1, to + kLeft - 1, kLeft))
    decreases kLeft, 1, 0
  {
    if kLeft == 0 {
      assert AddPrefix(prefix, [[]]) == [prefix + []];
      assert prefix + [] == prefix;
    } else {
      DfsLoopIsEnum(prefix, kLeft, from, to);
    }
  }

  lemma {:induction false} DfsLoopIsEnum(prefix: seq<int>, kLeft: nat, i: int, to: int)
    requires kLeft >= 1 && i >= 1 && to + kLeft >= 1
    ensures DfsLoop(prefix, kLeft, i, to) == AddPrefix(prefix, Enum(i - 1, to + kLeft - 1, kLeft))
    decreases kLeft, 0, to - i + 1
  {
    var n := to + kLeft - 1;
    if i > to {
      EnumEmpty(i - 1, n, kLeft);
    } else {
      DfsIsEnum(prefix + [i - 1], kLeft - 1, i + 1, to + 1);
      DfsLoopIsEnum(prefix, kLeft, i + 1, to);
      assert Enum(i - 1, n, kLeft) == Prepend(i - 1, Enum(i, n, kLeft - 1)) + Enum(i, n, kLeft);
      AddPrefixSplit(prefix, i - 1, Enum(i, n, kLeft - 1), Enum(i, n, kLeft));
    }
  }

  /** `allCombination(n, m)` lists exactly C(n, m) ascending m-subsets of {0..n-1}, in
      strictly increasing lexicographic order, element i being the i-th subset that
      `num2combine` returns and having rank i. */
  lemma AllCombinationSpec(n: nat, m: nat)
    ensures AllCombination(n, m) == Enum(0, n, m)
    ensures |AllCombination(n, m)| == Binom(n, m)
    ensures forall i :: 0 <= i < |AllCombination(n, m)| ==>
      |AllCombination(n, m)[i]| == m && IsSubsetOf(AllCombination(n, m)[i], 0, n)
    ensures forall i, j :: 0 <= i < j < |AllCombination(n, m)| ==>
      LexLess(AllCombination(n, m)[i], AllCombination(n, m)[j])
    ensures forall i :: 0 <= i < |AllCombination(n, m)| ==>
      AllCombination(n, m)[i] == Unrank(i, 0, n, m) && RankFrom(AllCombination(n, m)[i], 0, n) == i
  {
    DfsIsEnum([], m, 1, n - m + 1);
    assert AddPrefix([], Enum(0, n, m)) == Enum(0, n, m) by {
      forall i | 0 <= i < |Enum(0, n, m)|
        ensures AddPrefix([], Enum(0, n, m))[i] == Enum(0, n, m)[i]
      {
        assert [] + Enum(0, n, m)[i] == Enum(0, n, m)[i];
      }
    }
    EnumLength(0, n, m);
    EnumMembers(0, n, m);
    EnumSorted(0, n, m);
    forall i | 0 <= i < |Enum(0, n, m)|
      ensures Enum(0, n, m)[i] == Unrank(i, 0, n, m) && RankFrom(Enum(0, n, m)[i], 0, n) == i
    {
      UnrankIsEnum(i, 0, n, m);
      RankOfUnrank(i, 0, n, m);
    }
  }

  /** The example in the source's comments: C(4, 2) lists 01 02 03 12 13 23,
      so {1, 2} has rank 3. */
  lemma DocRankExample()
    ensures RankFrom([1, 2], 0, 4) == 3
  {
    assert Binom(3, 1) == 3 by { BinomOne(3); }
    assert IsSubsetOf([1, 2], 1, 4);
    assert RankFrom([1, 2], 1, 4) == RankFrom([2], 2, 4) by { assert [1, 2][1..] == [2]; }
    assert IsSubsetOf([2], 2, 4);
    assert RankFrom([2], 2, 4) == 0 by { assert [2][1..] == []; }
  }

  /** The same list read the other way: there are six 2-subsets of {0..3}, and
      rank 2 is {0, 3}. */
  lemma DocUnrankExample()
    ensures Binom(4, 2) == 6 && Unrank(2, 0, 4, 2) == [0, 3]
  {
    BinomOne(3);
    BinomOne(2);
    assert Binom(3, 2) == 3;
    assert Unrank(2, 0, 4, 2) == [0] + Unrank(2, 1, 4, 1);
    assert Unrank(2, 1, 4, 1) == Unrank(0, 3, 4, 1);
    assert Unrank(0, 3, 4, 1) == [3] + Unrank(0, 4, 4, 0);
  }
}
