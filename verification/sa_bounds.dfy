/** The integer heuristics of the simulated-annealing generator `SA`: the
    lower and upper bounds on the size of a covering array, and the outer
    search that narrows the window of candidate sizes. */
module SearchBounds {

  import opened Wrappers

  /** The smallest Java `int`, the initial value of the running maxima. */
  const IntMin := -0x8000_0000

  /** v[i] is a largest entry of v and v[j], j != i, a largest of the others. */
  ghost predicate TopTwoAt(v: seq<int>, i: int, j: int)
  {
    0 <= i < |v| && 0 <= j < |v| && i != j &&
    (forall x :: 0 <= x < |v| ==> v[x] <= v[i]) &&
    (forall x :: 0 <= x < |v| && x != i ==> v[x] <= v[j])
  }

  /** a and b are the two largest entries of v, duplicates counted. */
  ghost predicate IsTopTwo(v: seq<int>, a: int, b: int)
  {
    exists i, j :: TopTwoAt(v, i, j) && v[i] == a && v[j] == b
  }

  /** v[i], v[j], v[k] at distinct indices are the three largest entries of v. */
  ghost predicate TopThreeAt(v: seq<int>, i: int, j: int, k: int)
  {
    TopTwoAt(v, i, j) && 0 <= k < |v| && k != i && k != j &&
    (forall x :: 0 <= x < |v| && x != i && x != j ==> v[x] <= v[k])
  }

  /** a, b and c are the three largest entries of v, duplicates counted. */
  ghost predicate IsTopThree(v: seq<int>, a: int, b: int, c: int)
  {
    exists i, j, k :: TopThreeAt(v, i, j, k) && v[i] == a && v[j] == b && v[k] == c
  }

  /** The two largest entries are determined by v. */
  lemma TopTwoUnique(v: seq<int>, a: int, b: int, a': int, b': int)
    requires IsTopTwo(v, a, b) && IsTopTwo(v, a', b')
    ensures a == a' && b == b'
  {
    var i, j :| TopTwoAt(v, i, j) && v[i] == a && v[j] == b;
    var i', j' :| TopTwoAt(v, i', j') && v[i'] == a' && v[j'] == b';
    assert v[i'] <= a && v[i] <= a';
    if i == i' {
      assert v[j] <= b' && v[j'] <= b;
    } else {
      assert v[i'] <= b && v[i] <= b';
      assert v[j] <= a && v[j'] <= a';
    }
  }

  /** The three largest entries come in non-increasing order. */
  lemma TopThreeOrdered(v: seq<int>, a: int, b: int, c: int)
    requires IsTopThree(v, a, b, c)
    ensures a >= b >= c
  {
    var i, j, k :| TopThreeAt(v, i, j, k) && v[i] == a && v[j] == b && v[k] == c;
    assert v[j] <= a && v[k] <= b;
  }

  /** Models `getUpperAndLower2Way` (lines 84-104): the lower bound is the
      product of the two largest domain sizes, the upper bound five times
      the square of the largest. The first two sizes are read unconditionally,
      which throws for fewer than two parameters. */
  method Bounds2Way(values: seq<int>) returns (r: Exceptional<(int, int)>)
    ensures r == Throws <==> |values| < 2
    ensures r.Returns? ==> exists a, b :: IsTopTwo(values, a, b) && r.value == (a * b, 5 * a * a)
  {
    if |values| < 2 {
      return Throws;
    }
    var max, second;
    ghost var i1, i2;
    if values[0] > values[1] {
      max, second := values[0], values[1];
      i1, i2 := 0, 1;
    } else {
      max, second := values[1], values[0];
      i1, i2 := 1, 0;
    }
    var i := 2;
    while i < |values|
      invariant 2 <= i <= |values|
      invariant 0 <= i1 < i && 0 <= i2 < i && i1 != i2
      invariant values[i1] == max && values[i2] == second
      invariant forall x :: 0 <= x < i ==> values[x] <= max
      invariant forall x :: 0 <= x < i && x != i1 ==> values[x] <= second
    {
      if values[i] > max {
        second, i2 := max, i1;
        max, i1 := values[i], i;
      } else if values[i] > second {
        second, i2 := values[i], i;
      }
      i := i + 1;
    }
    assert IsTopTwo(values, max, second);
    return Returns((max * second, 5 * max * max));
  }

  /** After the first i entries, slot 1 holds the largest, at index i1. */
  ghost predicate SlotOne(v: seq<int>, i: int, max: int, i1: int)
    requires 0 <= i <= |v|
  {
    0 <= i1 < i && v[i1] == max && forall x :: 0 <= x < i ==> v[x] <= max
  }

  /** Slot 2 holds the largest of the others, at index i2. */
  ghost predicate SlotTwo(v: seq<int>, i: int, second: int, i1: int, i2: int)
    requires 0 <= i <= |v|
  {
    0 <= i2 < i && i2 != i1 && v[i2] == second && forall x :: 0 <= x < i && x != i1 ==> v[x] <= second
  }

  /** Slot 3 holds the largest of the rest, at index i3. */
  ghost predicate SlotThree(v: seq<int>, i: int, third: int, i1: int, i2: int, i3: int)
    requires 0 <= i <= |v|
  {
    0 <= i3 < i && i3 != i1 && i3 != i2 && v[i3] == third &&
    forall x :: 0 <= x < i && x != i1 && x != i2 ==> v[x] <= third
  }

  /** The running maxima of `getUpperAndLower3Way` after the first i entries:
      slot s holds the s-th largest once i >= s, and `IntMin` before. */
  ghost predicate RunningTop(v: seq<int>, i: int, max: int, second: int, third: int, i1: int, i2: int, i3: int)
    requires 0 <= i <= |v|
  {
    (if i >= 1 then SlotOne(v, i, max, i1) else max == IntMin) &&
    (if i >= 2 then SlotTwo(v, i, second, i1, i2) else second == IntMin) &&
    (if i >= 3 then SlotThree(v, i, third, i1, i2, i3) else third == IntMin)
  }

  /** One entry of the loop of `getUpperAndLower3Way` (lines 114-125). */
  method TopThreeStep(v: seq<int>, i: int, max: int, second: int, third: int, ghost i1: int, ghost i2: int, ghost i3: int)
    returns (max': int, second': int, third': int, ghost i1': int, ghost i2': int, ghost i3': int)
    requires 0 <= i < |v| && v[i] > IntMin
    requires RunningTop(v, i, max, second, third, i1, i2, i3)
    ensures RunningTop(v, i + 1, max', second', third', i1', i2', i3')
  {
    max', second', third', i1', i2', i3' := max, second, third, i1, i2, i3;
    if v[i] > max {
      third', i3' := second, i2;
      second', i2' := max, i1;
      max', i1' := v[i], i;
    } else if v[i] > second {
      third', i3' := second, i2;
      second', i2' := v[i], i;
    } else if v[i] > third {
      third', i3' := v[i], i;
    }
  }

  /** Models `getUpperAndLower3Way` (lines 109-128): the lower bound is the
      product of the three largest domain sizes, the upper bound five times
      the cube of the largest. Domain sizes exceed `IntMin`. */
  method Bounds3Way(values: seq<int>) returns (lower: int, upper: int)
    requires |values| >= 3 && forall x :: 0 <= x < |values| ==> values[x] > IntMin
    ensures exists a, b, c :: IsTopThree(values, a, b, c) && lower == a * b * c && upper == 5 * a * a * a
  {
    var max, second, third := IntMin, IntMin, IntMin;
    ghost var i1, i2, i3 := 0, 0, 0;
    var i := 0;
    while i < |values|
      invariant 0 <= i <= |values|
      invariant RunningTop(values, i, max, second, third, i1, i2, i3)
    {
      max, second, third, i1, i2, i3 := TopThreeStep(values, i, max, second, third, i1, i2, i3);
      i := i + 1;
    }
    lower := max * second * third;
    upper := 5 * max * max * max;
    assert IsTopThree(values, max, second, third);
  }

  /** The first size the outer search tries in the window [lower, upper]:
      one third of the way down from upper. */
  function Probe(lower: int, upper: int): (n: int)
    requires 0 <= lower <= upper
    ensures lower <= n <= upper
    ensures upper - n <= (upper - lower) / 3 + 1
  {
    (lower + 2 * upper) / 3
  }

  /** Success of the inner search is upward closed on [lo, hi]: a suite of
      size x found means one of every larger size in the window is found. */
  ghost predicate Monotone(inner: int -> seq<seq<int>>, lo: int, hi: int)
  {
    forall x, y :: lo <= x <= y <= hi && inner(x) != [] ==> inner(y) != []
  }

  /** Models `outerSearch(model, lower, upper)` (lines 133-152), the inner
      search being the oracle `inner`. Sizes are tried inside the window,
      which shrinks every round. The result is the last suite found, or empty.
      Whatever the oracle does, an empty result means size `upper` failed, and a
      result found at size n means n is `lower` or size n - 1 failed; when success
      is monotone the result is the one of the least size that succeeds. */
  method OuterSearch(lower: int, upper: int, inner: int -> seq<seq<int>>) returns (a: seq<seq<int>>)
    requires 0 <= lower
    ensures a == [] || exists n :: lower <= n <= upper && a == inner(n)
    ensures lower <= upper && a == [] ==> inner(upper) == []
    ensures a != [] ==> exists n :: lower <= n <= upper && a == inner(n) && (n == lower || inner(n - 1) == [])
    ensures Monotone(inner, lower, upper) ==>
      (a == [] <==> forall n :: lower <= n <= upper ==> inner(n) == [])
    ensures Monotone(inner, lower, upper) && a != [] ==>
      exists n :: lower <= n <= upper && a == inner(n) && forall n' :: lower <= n' < n ==> inner(n') == []
  {
    a := [];
    var lo, hi := lower, upper;
    while hi >= lo
      invariant lower <= lo && hi <= upper
      invariant a == [] ==> hi == upper
      invariant a != [] ==> lo <= hi + 1 && lower <= hi + 1 <= upper && a == inner(hi + 1)
      invariant lo <= hi + 1 || (lo == lower && hi == upper)
      invariant lo == lower || inner(lo - 1) == []
      invariant Monotone(inner, lower, upper) ==> forall n :: lower <= n < lo ==> inner(n) == []
      decreases hi - lo
    {
      var n := Probe(lo, hi);
      var a1 := inner(n);
      if a1 != [] {
        a := a1;
        hi := n - 1;
      } else {
        lo := n + 1;
      }
    }
  }
}
