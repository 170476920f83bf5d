/** A constraint is a forbidden tuple written as a disjunction of negative
    literals, one per (parameter, value) pair it forbids together. */
module Constraints {

  datatype Constraint = Constraint(disjunction: seq<int>)

  /** The first index of x in ys, or |ys| when x does not occur. */
  method IndexOf(ys: seq<int>, x: int) returns (j: int)
    ensures 0 <= j <= |ys|
    ensures j < |ys| ==> ys[j] == x
    ensures forall k :: 0 <= k < j ==> ys[k] != x
    ensures j == |ys| <==> x !in ys
  {
    j := 0;
    while j < |ys|
      invariant 0 <= j <= |ys|
      invariant forall k :: 0 <= k < j ==> ys[k] != x
    {
      if ys[j] == x {
        return;
      }
      j := j + 1;
    }
  }

  /** Every literal of xs occurs in ys. */
  predicate Included(xs: seq<int>, ys: seq<int>)
  {
    forall i :: 0 <= i < |xs| ==> xs[i] in ys
  }

  /** a is superior to b: b is at least as long and contains every literal of a,
      so every test that hits b also hits a. */
  predicate Superior(a: Constraint, b: Constraint)
  {
    |b.disjunction| >= |a.disjunction| && Included(a.disjunction, b.disjunction)
  }

  /** Models `Constraint.isSuperior` (lines 53-66): a length test, then a search
      of every literal of `self` (the receiver) in `con`. The second half of the test at line 62
      never decides anything: when the search reached the end, the last literal
      of `con` is not the one sought. */
  method IsSuperior(self: Constraint, con: Constraint) returns (r: bool)
    ensures r <==> Superior(self, con)
    ensures |con.disjunction| < |self.disjunction| ==> !r
    ensures self == con ==> r
  {
    var a, b := self.disjunction, con.disjunction;
    if |b| < |a| {
      return false;
    }
    var i := 0;
    while i < |a|
      invariant 0 <= i <= |a|
      invariant Included(a[..i], b)
    {
      var j := IndexOf(b, a[i]);
      if j == |b| && a[i] != b[j - 1] {
        return false;
      }
      i := i + 1;
    }
    assert a[..i] == a;
    return true;
  }
}
