/** Mixed-radix ranking of value tuples: `ALG.combineValue`, `ALG.val2num`,
    `ALG.num2val` and the odometer `ALG.allV`.

    The digits of a t-way value combination over parameters `pos` have radices
    `value[pos[0]], ..., value[pos[t-1]]`; the first position is the most
    significant. `Rank` and `Unrank` are the reference definitions. */
module MixedRadix {

  /** Every radix is a positive domain size. */
  predicate Positive(r: seq<int>)
  {
    forall i :: 0 <= i < |r| ==> r[i] > 0
  }

  /** `pos` indexes parameters of `value`. */
  predicate ValidPositions(pos: seq<int>, value: seq<int>)
  {
    forall k :: 0 <= k < |pos| ==> 0 <= pos[k] < |value|
  }

  /** The radices of the parameters `pos`. */
  function Radices(pos: seq<int>, value: seq<int>): (r: seq<int>)
    requires ValidPositions(pos, value)
    ensures |r| == |pos| && forall k :: 0 <= k < |pos| ==> r[k] == value[pos[k]]
  {
    seq(|pos|, k requires 0 <= k < |pos| => value[pos[k]])
  }

  /** `d` is a digit string for the radices `r`. */
  predicate Digits(d: seq<int>, r: seq<int>)
  {
    |d| == |r| && forall i :: 0 <= i < |d| ==> 0 <= d[i] < r[i]
  }

  /** Number of digit strings: the product of the radices. */
  function Prod(r: seq<int>): int
  {
    if |r| == 0 then 1 else r[0] * Prod(r[1..])
  }

  /** Value of a digit string, first digit most significant. Defined for any
      integers, so that it also weighs an odometer digit that has overflowed. */
  function Rank(d: seq<int>, r: seq<int>): int
    requires |d| == |r|
  {
    if |d| == 0 then 0 else d[0] * Prod(r[1..]) + Rank(d[1..], r[1..])
  }

  /** The digit string of i: successive quotients by the weight of each position. */
  function Unrank(i: int, r: seq<int>): (d: seq<int>)
    requires Positive(r)
    ensures |d| == |r|
    decreases |r|
  {
    if |r| == 0 then []
    else
      ProdPositive(r[1..]);
      [i / Prod(r[1..])] + Unrank(i % Prod(r[1..]), r[1..])
  }

  lemma {:induction false} ProdPositive(r: seq<int>)
    requires Positive(r)
    ensures Prod(r) > 0
  {
    if |r| > 0 {
      ProdPositive(r[1..]);
      MulPositive(r[0], Prod(r[1..]));
    }
  }

  lemma MulPositive(a: int, b: int)
    requires a > 0 && b > 0
    ensures a * b > 0
  {
  }

  /** The rank of a digit string lies in [0, Prod(r)). */
  lemma {:induction false} RankBounds(d: seq<int>, r: seq<int>)
    requires Digits(d, r)
    ensures 0 <= Rank(d, r) < Prod(r)
  {
    if |d| > 0 {
      RankBounds(d[1..], r[1..]);
      DigitStep(d[0], r[0], Prod(r[1..]), Rank(d[1..], r[1..]));
    }
  }

  /** One digit step of the bound: 0 <= d * w + rest < r * w. */
  lemma DigitStep(d: int, r: int, w: int, rest: int)
    requires 0 <= d < r && 0 <= rest < w
    ensures 0 <= d * w + rest < r * w
  {
    assert d * w <= (r - 1) * w;
  }

  /** Division of q * w + rest by w when 0 <= rest < w. */
  lemma DivModUnique(q: int, w: int, rest: int)
    requires 0 <= rest < w
    ensures (q * w + rest) / w == q && (q * w + rest) % w == rest
  {
    var x := q * w + rest;
    var q', rest' := x / w, x % w;
    assert x == q' * w + rest';
    assert (q - q') * w == rest' - rest;
    MultiplySign(w, q - q');
  }

  lemma MultiplySign(w: int, d: int)
    requires w > 0
    ensures d >= 1 ==> d * w >= w
    ensures d <= -1 ==> d * w <= -w
  {
  }

  /** Unranking the rank of a digit string gives it back. */
  lemma {:induction false} UnrankOfRank(d: seq<int>, r: seq<int>)
    requires Digits(d, r) && Positive(r)
    ensures Unrank(Rank(d, r), r) == d
  {
    if |d| > 0 {
      RankBounds(d[1..], r[1..]);
      DivModUnique(d[0], Prod(r[1..]), Rank(d[1..], r[1..]));
      UnrankOfRank(d[1..], r[1..]);
      assert d == [d[0]] + d[1..];
    }
  }

  /** Every i in [0, Prod(r)) unranks to a digit string of rank i. */
  lemma {:induction false} RankOfUnrank(i: int, r: seq<int>)
    requires Positive(r) && 0 <= i < Prod(r)
    ensures Digits(Unrank(i, r), r)
    ensures Rank(Unrank(i, r), r) == i
  {
    if |r| > 0 {
      var w := Prod(r[1..]);
      ProdPositive(r[1..]);
      DivSplit(i, w);
      QuotientBound(i, w, r[0]);
      var q, rest := i / w, i % w;
      RankOfUnrank(rest, r[1..]);
      var d := Unrank(i, r);
      assert d[1..] == Unrank(rest, r[1..]);
      assert Rank(d, r) == q * w + Rank(d[1..], r[1..]);
    }
  }

  lemma DivSplit(i: int, w: int)
    requires w > 0
    ensures i == (i / w) * w + i % w && 0 <= i % w < w
  {
  }

  lemma QuotientBound(i: int, w: int, r0: int)
    requires w > 0 && 0 <= i < r0 * w
    ensures 0 <= i / w < r0
  {
    assert (i / w) * w <= i;
    MultiplyMonotone(i / w, r0, w);
  }

  lemma MultiplyMonotone(a: int, b: int, w: int)
    requires w > 0
    ensures a >= b ==> a * w >= b * w
  {
  }

  /** Ranks and digit strings are in bijection: unranking is injective on
      [0, Prod(r)) and ranking is injective on digit strings. */
  lemma RankBijection(r: seq<int>)
    requires Positive(r)
    ensures forall d, e :: Digits(d, r) && Digits(e, r) && Rank(d, r) == Rank(e, r) ==> d == e
    ensures forall i, j :: 0 <= i < Prod(r) && 0 <= j < Prod(r) && Unrank(i, r) == Unrank(j, r) ==> i == j
  {
    forall d, e | Digits(d, r) && Digits(e, r) && Rank(d, r) == Rank(e, r)
      ensures d == e
    {
      UnrankOfRank(d, r);
      UnrankOfRank(e, r);
    }
    forall i, j | 0 <= i < Prod(r) && 0 <= j < Prod(r) && Unrank(i, r) == Unrank(j, r)
      ensures i == j
    {
      RankOfUnrank(i, r);
      RankOfUnrank(j, r);
    }
  }

  /** Models `ALG.combineValue(position, value)`: the number of value
      combinations of the parameters `position`, i.e. the number of digit strings. */
  method CombineValue(position: seq<int>, value: seq<int>) returns (comb: int)
    requires ValidPositions(position, value)
    ensures comb == Prod(Radices(position, value))
    ensures Positive(Radices(position, value)) ==> comb > 0
  {
    var r := Radices(position, value);
    comb := 1;
    var k := 0;
    while k < |position|
      invariant 0 <= k <= |position|
      invariant comb * Prod(r[k..]) == Prod(r)
    {
      assert r[k..][1..] == r[k + 1..];
      ghost var rest := Prod(r[k + 1..]);
      assert comb * (r[k] * rest) == (comb * r[k]) * rest;
      comb := comb * value[position[k]];
      k := k + 1;
    }
    assert r[|position|..] == [];
    if Positive(r) {
      ProdPositive(r);
    }
  }

  /** Models `ALG.val2num(pos, sch, t, value)` with t = |pos| = |sch|: the rank of
      the value combination `sch`, accumulated from the last (least significant)
      position with a running weight. */
  method Val2Num(pos: seq<int>, sch: seq<int>, value: seq<int>) returns (ret: int)
    requires ValidPositions(pos, value) && |sch| == |pos|
    ensures ret == Rank(sch, Radices(pos, value))
    ensures Digits(sch, Radices(pos, value)) ==> 0 <= ret < Prod(Radices(pos, value))
  {
    var r := Radices(pos, value);
    var com := 1;
    ret := 0;
    var k := |pos| - 1;
    while k >= 0
      invariant -1 <= k < |pos|
      invariant ret == Rank(sch[k + 1..], r[k + 1..])
      invariant com == Prod(r[k + 1..])
    {
      assert sch[k..][1..] == sch[k + 1..] && r[k..][1..] == r[k + 1..];
      ret := ret + com * sch[k];
      com := com * value[pos[k]];
      k := k - 1;
    }
    assert sch[0..] == sch && r[0..] == r;
    if Digits(sch, r) {
      RankBounds(sch, r);
    }
  }

  /** Models `ALG.num2val(i, pos, t, value)` with t = |pos| >= 1 (for t = 0 the source
      writes `ret[-1]`): the value combination of rank i. */
  method Num2Val(i: int, pos: seq<int>, value: seq<int>) returns (ret: seq<int>)
    requires ValidPositions(pos, value) && |pos| >= 1
    requires Positive(Radices(pos, value))
    requires 0 <= i < Prod(Radices(pos, value))
    ensures ret == Unrank(i, Radices(pos, value))
    ensures Digits(ret, Radices(pos, value))
    ensures Rank(ret, Radices(pos, value)) == i
  {
    var r := Radices(pos, value);
    var t := |pos|;
    var div := LeadWeight(pos, value);
    ret := [];
    var rem := i;
    var k := 0;
    while k < t - 1
      invariant 0 <= k <= t - 1 && |ret| == k
      invariant div == Prod(r[k + 1..])
      invariant 0 <= rem < Prod(r[k..])
      invariant ret + Unrank(rem, r[k..]) == Unrank(i, r)
    {
      var digit;
      ghost var rest := Unrank(rem, r[k..]);
      digit, rem, div := NextDigit(pos, value, k, rem, div);
      assert ret + rest == (ret + [digit]) + Unrank(rem, r[k + 1..]);
      ret := ret + [digit];
      k := k + 1;
    }
    LastDigit(rem, r[t - 1..]);
    assert div == 1;
    ret := ret + [rem / div];
    RankOfUnrank(i, r);
  }

  /** The last digit is the remainder itself: its weight is 1. */
  lemma LastDigit(rem: int, r: seq<int>)
    requires |r| == 1 && Positive(r)
    ensures Prod(r[1..]) == 1
    ensures Unrank(rem, r) == [rem]
  {
    assert r[1..] == [];
  }

  /** The first loop of `num2val` (lines 151-152): the
      weight of the leading digit, the product of the other radices. */
  method LeadWeight(pos: seq<int>, value: seq<int>) returns (div: int)
    requires ValidPositions(pos, value) && |pos| >= 1
    ensures div == Prod(Radices(pos, value)[1..])
  {
    var r := Radices(pos, value);
    div := 1;
    var k := |pos| - 1;
    while k > 0
      invariant 0 <= k < |pos|
      invariant div == Prod(r[k + 1..])
    {
      assert r[k..][1..] == r[k + 1..];
      div := div * value[pos[k]];
      k := k - 1;
    }
  }

  /** One pass of the digit loop of `num2val`: digit k is the quotient of
      the rest by its weight, and the weight drops to that of digit k + 1. */
  method NextDigit(pos: seq<int>, value: seq<int>, k: int, rem: int, div: int) returns (digit: int, rem': int, div': int)
    requires ValidPositions(pos, value) && Positive(Radices(pos, value)) && 0 <= k < |pos| - 1
    requires div == Prod(Radices(pos, value)[k + 1..]) && 0 <= rem < Prod(Radices(pos, value)[k..])
    ensures Unrank(rem, Radices(pos, value)[k..]) == [digit] + Unrank(rem', Radices(pos, value)[k + 1..])
    ensures div' == Prod(Radices(pos, value)[k + 2..]) && 0 <= rem' < Prod(Radices(pos, value)[k + 1..])
  {
    var r := Radices(pos, value);
    assert r[k..][1..] == r[k + 1..] && r[k..][2..] == r[k + 2..] && r[k..][1] == value[pos[k + 1]];
    UnrankStep(rem, r[k..], div);
    digit := rem / div;
    rem' := rem - digit * div;
    div' := div / value[pos[k + 1]];
  }

  /** One step of `Num2Val`'s loop: the leading digit of rem is its quotient by the
      weight `div`, the remainder is what is left to unrank, and dividing the
      weight by the next radix gives the next weight. */
  lemma UnrankStep(rem: int, rk: seq<int>, div: int)
    requires Positive(rk) && |rk| >= 2 && div == Prod(rk[1..]) && 0 <= rem < Prod(rk)
    ensures div > 0
    ensures Unrank(rem, rk) == [rem / div] + Unrank(rem - (rem / div) * div, rk[1..])
    ensures 0 <= rem - (rem / div) * div < Prod(rk[1..])
    ensures div / rk[1] == Prod(rk[2..])
  {
    ProdPositive(rk[1..]);
    ModIdentity(rem, div);
    assert Unrank(rem, rk) == [rem / div] + Unrank(rem % div, rk[1..]);
    NextWeight(rk, div);
  }

  lemma ModIdentity(a: int, b: int)
    requires b > 0
    ensures a % b == a - (a / b) * b && 0 <= a % b < b
  {
  }

  lemma NextWeight(rk: seq<int>, div: int)
    requires Positive(rk) && |rk| >= 2 && div == Prod(rk[1..])
    ensures div / rk[1] == Prod(rk[2..])
  {
    assert rk[1..][1..] == rk[2..];
    ExactDivision(rk[1], Prod(rk[2..]), div);
  }

  /** Dividing a product by one of its positive factors gives the other. */
  lemma ExactDivision(a: int, b: int, product: int)
    requires a > 0 && product == a * b
    ensures product / a == b
  {
    DivModUnique(b, a, 0);
    assert b * a + 0 == product;
  }

  /** All but position p hold a digit; position p may have overflowed by one. */
  predicate DigitsBut(c: seq<int>, r: seq<int>, p: int)
  {
    |c| == |r| && 0 <= p < |c| &&
    (forall k :: 0 <= k < |c| && k != p ==> 0 <= c[k] < r[k]) &&
    0 <= c[p] <= r[p]
  }

  /** The weight of position p: the product of the radices after it. */
  function Weight(p: int, r: seq<int>): int
    requires 0 <= p < |r|
  {
    Prod(r[p + 1..])
  }

  /** Adding delta to digit p adds delta times its weight to the rank. */
  lemma {:induction false} RankUpdate(c: seq<int>, r: seq<int>, p: int, delta: int)
    requires |c| == |r| && 0 <= p < |c|
    ensures Rank(c[p := c[p] + delta], r) == Rank(c, r) + delta * Weight(p, r)
  {
    var c' := c[p := c[p] + delta];
    if p == 0 {
      assert c'[1..] == c[1..];
    } else {
      assert c'[1..] == c[1..][p - 1 := c[p] + delta];
      RankUpdate(c[1..], r[1..], p - 1, delta);
      assert r[1..][p..] == r[p + 1..];
    }
  }

  /** One carry of the odometer (digit p wrapped to 0, digit p - 1 incremented)
      keeps the rank. */
  lemma CarryKeepsRank(c: seq<int>, r: seq<int>, p: int)
    requires |c| == |r| && 0 < p < |c| && c[p] == r[p]
    ensures Rank(c[p := 0][p - 1 := c[p - 1] + 1], r) == Rank(c, r)
  {
    RankUpdate(c, r, p, -r[p]);
    var c1 := c[p := 0];
    assert c1 == c[p := c[p] + -r[p]];
    RankUpdate(c1, r, p - 1, 1);
    assert r[p..][1..] == r[p + 1..];
    assert Weight(p - 1, r) == r[p] * Weight(p, r);
  }

  /** A string whose digits are in range except a non-negative first digit has
      rank at least that digit times its weight. */
  lemma RankAtLeastLeading(c: seq<int>, r: seq<int>)
    requires |c| == |r| && |c| > 0 && c[0] >= 0
    requires Digits(c[1..], r[1..])
    ensures Rank(c, r) >= c[0] * Prod(r[1..])
  {
    RankBounds(c[1..], r[1..]);
  }

  /** Every radix is a domain size, possibly 0. */
  predicate NonNegative(r: seq<int>)
  {
    forall i :: 0 <= i < |r| ==> r[i] >= 0
  }

  /** Over non-negative radices the product is positive exactly when every radix
      is, and 0 otherwise. */
  lemma {:induction false} ProdSign(r: seq<int>)
    requires NonNegative(r)
    ensures Positive(r) ==> Prod(r) > 0
    ensures !Positive(r) ==> Prod(r) == 0
  {
    if |r| > 0 {
      ProdSign(r[1..]);
      if Positive(r) {
        assert Positive(r[1..]);
        MulPositive(r[0], Prod(r[1..]));
      } else if r[0] != 0 {
        assert !Positive(r[1..]) by {
          var i :| 0 <= i < |r| && r[i] <= 0;
          assert r[1..][i - 1] == r[i];
        }
      }
    }
  }

  /** Models `ALG.allV(pos, t, value)` with t = |pos|: every value combination of the
      parameters `pos`, in odometer order, row i being the combination of rank i.
      For t = 0 the result is a single empty row; when a chosen domain is empty
      the product `comb` is 0 and so is the number of rows. */
  method AllV(pos: seq<int>, value: seq<int>) returns (data: seq<seq<int>>)
    requires ValidPositions(pos, value) && NonNegative(Radices(pos, value))
    ensures |pos| == 0 ==> data == [[]]
    ensures (exists k :: 0 <= k < |pos| && value[pos[k]] == 0) ==> data == []
    ensures |data| == Prod(Radices(pos, value))
    ensures forall i :: 0 <= i < |data| ==> Positive(Radices(pos, value)) && data[i] == Unrank(i, Radices(pos, value))
    ensures forall i :: 0 <= i < |data| ==> Digits(data[i], Radices(pos, value))
  {
    var r := Radices(pos, value);
    if |pos| == 0 {
      assert Unrank(0, r) == [];
      return [[]];
    }
    var t := |pos|;
    var counterMax := seq(t, k requires 0 <= k < t => value[pos[k]] - 1);
    var comb := CombineValue(pos, value);
    ProdSign(r);
    if comb == 0 {
      // an empty domain: the row loop runs no times
      return [];
    }
    data := Odometer(r, counterMax, comb);
  }

  /** data holds the first i rows of the odometer: row j is the digit string of rank j. */
  predicate RowsSoFar(data: seq<seq<int>>, r: seq<int>, i: int)
    requires Positive(r)
  {
    |data| == i && forall j :: 0 <= j < i ==> data[j] == Unrank(j, r) && Digits(data[j], r)
  }

  lemma RowsAppend(data: seq<seq<int>>, r: seq<int>, i: int, counter: seq<int>)
    requires Positive(r) && RowsSoFar(data, r, i)
    requires counter == Unrank(i, r) && Digits(counter, r)
    ensures RowsSoFar(data + [counter], r, i + 1)
  {
  }

  /** The row loop of `ALG.allV` over positive radices, with `comb` their
      product: starting from the all-zero counter, each row is the current
      counter and the counter then advances. */
  method Odometer(r: seq<int>, counterMax: seq<int>, comb: int) returns (data: seq<seq<int>>)
    requires Positive(r) && |r| > 0 && comb == Prod(r)
    requires |counterMax| == |r| && forall k :: 0 <= k < |r| ==> counterMax[k] == r[k] - 1
    ensures |data| == Prod(r)
    ensures forall i :: 0 <= i < |data| ==> data[i] == Unrank(i, r) && Digits(data[i], r)
  {
    var counter := seq(|r|, _ => 0);
    assert Digits(counter, r);
    UnrankOfRank(counter, r);
    ZeroRank(counter, r);
    ProdPositive(r);
    data := [];
    var i := 0;
    while i < comb
      invariant 0 <= i <= comb && |counter| == |r|
      invariant RowsSoFar(data, r, i)
      invariant i < comb ==> counter == Unrank(i, r) && Digits(counter, r)
    {
      RowsAppend(data, r, i, counter);
      data := data + [counter];
      RankOfUnrank(i, r);
      counter := Advance(counter, counterMax, r);
      if i + 1 < comb {
        UnrankOfRank(counter, r);
      }
      i := i + 1;
    }
  }

  /** Models the "move counter to the next one" step of `ALG.allV`: increment the
      last digit and propagate carries leftwards. The rank grows by one, and the
      result is again a digit string unless the counter has passed the last one. */
  method Advance(counter: seq<int>, counterMax: seq<int>, ghost r: seq<int>) returns (next: seq<int>)
    requires Digits(counter, r) && |counter| > 0 && Positive(r)
    requires |counterMax| == |r| && forall k :: 0 <= k < |r| ==> counterMax[k] == r[k] - 1
    ensures |next| == |counter|
    ensures Rank(next, r) == Rank(counter, r) + 1
    ensures Rank(counter, r) + 1 < Prod(r) ==> Digits(next, r)
  {
    var end := |counter| - 1;
    RankUpdate(counter, r, end, 1);
    assert Weight(end, r) == 1 by {
      assert r[end + 1..] == [];
    }
    next := counter[end := counter[end] + 1];
    var ptr := end;
    while ptr > 0 && next[ptr] > counterMax[ptr]
      invariant 0 <= ptr <= end
      invariant DigitsBut(next, r, ptr)
      invariant Rank(next, r) == Rank(counter, r) + 1
    {
      CarryKeepsRank(next, r, ptr);
      next := next[ptr := 0];
      ptr := ptr - 1;
      next := next[ptr := next[ptr] + 1];
    }
    if Rank(counter, r) + 1 < Prod(r) {
      CarryDone(next, r, ptr, counterMax);
    }
  }

  /** When the carries stop, the counter is a digit string, unless its leading
      digit has overflowed, which only happens past the last combination. */
  lemma CarryDone(next: seq<int>, r: seq<int>, ptr: int, counterMax: seq<int>)
    requires Positive(r) && DigitsBut(next, r, ptr)
    requires |counterMax| == |r| && forall k :: 0 <= k < |r| ==> counterMax[k] == r[k] - 1
    requires ptr == 0 || next[ptr] <= counterMax[ptr]
    requires Rank(next, r) < Prod(r)
    ensures Digits(next, r)
  {
    if next[ptr] == r[ptr] {
      assert Digits(next[1..], r[1..]);
      RankAtLeastLeading(next, r);
    }
  }

  /** The all-zero string has rank 0. */
  lemma {:induction false} ZeroRank(c: seq<int>, r: seq<int>)
    requires |c| == |r| && forall k :: 0 <= k < |c| ==> c[k] == 0
    ensures Rank(c, r) == 0
  {
    if |c| > 0 {
      ZeroRank(c[1..], r[1..]);
    }
  }

  /** The examples in the source's comments, over four parameters of three values:
      (1, 2) on parameters {0, 1} has rank 5, and rank 4 is (1, 1). */
  lemma DocExamples()
    ensures Rank([1, 2], Radices([0, 1], [3, 3, 3, 3])) == 5
    ensures Unrank(4, Radices([0, 1], [3, 3, 3, 3])) == [1, 1]
  {
    var r := Radices([0, 1], [3, 3, 3, 3]);
    assert r == [3, 3];
    assert r[1..] == [3] && r[1..][1..] == [];
    assert Prod([3]) == 3;
    assert [1, 2][1..] == [2];
  }
}
