/** Binomial coefficients and factorials: the arithmetic leaves of ALG.java.

    `Binom` is the reference definition (Pascal's rule); `Combine` models the
    multiply-then-divide loop of `ALG.combine` and is proved to compute it, every
    intermediate division being exact. */
module Binomial {

  /** C(n, k) by Pascal's rule, with C(n, 0) = 1 and C(0, k) = 0 for k > 0. */
  function Binom(n: nat, k: nat): nat
    decreases n, k
  {
    if k == 0 then 1
    else if n == 0 then 0
    else Binom(n - 1, k - 1) + Binom(n - 1, k)
  }

  /** Choosing more elements than there are gives no subsets. */
  lemma {:induction false} BinomAbove(n: nat, k: nat)
    requires n < k
    ensures Binom(n, k) == 0
    decreases n
  {
    if n > 0 {
      BinomAbove(n - 1, k - 1);
      BinomAbove(n - 1, k);
    }
  }

  /** Choosing all elements gives exactly one subset. */
  lemma {:induction false} BinomAll(n: nat)
    ensures Binom(n, n) == 1
  {
    if n > 0 {
      BinomAll(n - 1);
      BinomAbove(n - 1, n);
    }
  }

  /** Choosing one element gives as many subsets as elements. */
  lemma {:induction false} BinomOne(a: nat)
    ensures Binom(a, 1) == a
  {
    if a > 0 {
      BinomOne(a - 1);
    }
  }

  /** The absorption identity x * C(n, x) = (n - x + 1) * C(n, x - 1); it is
      what makes every division in `Combine` exact. */
  lemma {:induction false} BinomAbsorption(n: nat, x: nat)
    requires x >= 1
    ensures x * Binom(n, x) == (n - x + 1) * Binom(n, x - 1)
    decreases n, x
  {
    if n == 0 {
      if x > 1 {
        BinomAbove(0, x - 1);
      }
    } else if x == 1 {
      BinomAbsorption(n - 1, 1);
      assert Binom(n - 1, 1) == n - 1;
    } else {
      BinomAbsorption(n - 1, x);
      BinomAbsorption(n - 1, x - 1);
      AbsorptionStep(x, n, Binom(n - 1, x - 2), Binom(n - 1, x - 1), Binom(n - 1, x));
    }
  }

  /** The arithmetic of one inductive step of `BinomAbsorption`, on plain integers. */
  lemma AbsorptionStep(x: int, n: int, a: int, b: int, c: int)
    requires x * c == (n - x) * b
    requires (x - 1) * b == (n - x + 1) * a
    ensures x * (b + c) == (n - x + 1) * (a + b)
  {
    calc {
      x * (b + c);
      x * b + x * c;
      (x - 1) * b + b + (n - x) * b;
      (n - x + 1) * a + (n - x + 1) * b;
    }
  }

  /** Models `ALG.combine(n, m)`: after iteration x the accumulator is C(n, x),
      so the result is C(n, m), and 0 as soon as m exceeds n. Both operands of the
      division are non-negative, so Java's truncating division agrees with Dafny's. */
  method Combine(n: nat, m: nat) returns (ret: int)
    ensures ret == Binom(n, m)
    ensures m == 0 ==> ret == 1
    ensures n < m ==> ret == 0
    ensures m == n ==> ret == 1
  {
    ret := 1;
    var p: int := n;
    var x := 1;
    while x <= m
      invariant 1 <= x <= m + 1
      invariant p == n - x + 1
      invariant ret == Binom(n, x - 1)
    {
      BinomAbsorption(n, x);
      ret := ret * p;
      ExactDivision(x, Binom(n, x), ret);
      ret := ret / x;
      x := x + 1;
      p := p - 1;
    }
    if n < m {
      BinomAbove(n, m);
    }
    if m == n {
      BinomAll(n);
    }
  }

  /** n! */
  function Fact(n: nat): nat
  {
    if n == 0 then 1 else n * Fact(n - 1)
  }

  /** Models `ALG.cal_factorial(t)`: the product 2 * 3 * ... * t, which is 1 for
      every t <= 1 (including negative t). */
  method CalFactorial(t: int) returns (n: int)
    ensures t <= 1 ==> n == 1
    ensures t >= 0 ==> n == Fact(t)
  {
    n := 1;
    var i := 2;
    while i <= t
      invariant 2 <= i
      invariant i <= t + 1 || i == 2
      invariant n == Fact(i - 1)
    {
      n := n * i;
      i := i + 1;
    }
  }

  /** The factorial form of the binomial coefficient: C(n, k) * k! * (n - k)! = n!. */
  lemma {:induction false} BinomFactorial(n: nat, k: nat)
    requires k <= n
    ensures Binom(n, k) * Fact(k) * Fact(n - k) == Fact(n)
    decreases k
  {
    if k == 0 {
    } else {
      BinomFactorial(n, k - 1);
      BinomAbsorption(n, k);
      FactorialStep(k, n - k + 1, Binom(n, k - 1), Binom(n, k), Fact(k - 1), Fact(n - k), Fact(n));
    }
  }

  /** The arithmetic of one inductive step of `BinomFactorial`, on plain integers. */
  lemma FactorialStep(k: int, d: int, b0: int, b1: int, f: int, g: int, total: int)
    requires k * b1 == d * b0
    requires b0 * f * (d * g) == total
    ensures b1 * (k * f) * g == total
  {
    calc {
      b1 * (k * f) * g;
      (k * b1) * f * g;
      (d * b0) * f * g;
      b0 * f * (d * g);
    }
  }

  /** A division whose dividend is a known multiple of the divisor is exact. */
  lemma ExactDivision(x: int, b: int, product: int)
    requires x > 0 && product == x * b
    ensures product / x == b
  {
    var q, r := product / x, product % x;
    assert product == x * q + r && 0 <= r < x;
    var d := b - q;
    assert x * d == r;
    MultiplySign(x, d);
  }

  lemma MultiplySign(x: int, d: int)
    requires x > 0
    ensures d >= 1 ==> x * d >= x
    ensures d <= -1 ==> x * d <= -x
  {
  }
}
