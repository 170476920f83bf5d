/** `ConflictCounter`: the number of minimum forbidden tuples a test matches,
    the fitness penalty of the simulated annealing. The match loop is the one
    `isValid` uses, so it carries the same out-of-bounds read. */
module ConflictCounting {
  import opened Ids
  import opened Constraints
  import opened Matching

  /** A count, or the out-of-bounds read of the match loop as written. */
  datatype Count = Crashed | Counted(n: nat)

  /** The number of constraints of hard that the encoded test tc matches. */
  function Violations(hard: seq<Constraint>, tc: seq<int>): nat
  {
    if |hard| == 0 then 0
    else Violations(hard[..|hard| - 1], tc) + (if Matches(hard[|hard| - 1].disjunction, tc) then 1 else 0)
  }

  /** The indices of the constraints that tc matches. */
  ghost function MatchedSet(hard: seq<Constraint>, tc: seq<int>): set<int>
  {
    set i | 0 <= i < |hard| && Matches(hard[i].disjunction, tc)
  }

  /** The matched set of a list is that of all but its last constraint, plus
      the last index if that one matches. */
  lemma MatchedSetSplit(hard: seq<Constraint>, tc: seq<int>)
    requires |hard| > 0
    ensures MatchedSet(hard, tc) ==
      MatchedSet(hard[..|hard| - 1], tc) + (if Matches(hard[|hard| - 1].disjunction, tc) then {|hard| - 1} else {})
    ensures |hard| - 1 !in MatchedSet(hard[..|hard| - 1], tc)
  {
    var n := |hard| - 1;
    var init := hard[..n];
    forall i
      ensures i in MatchedSet(hard, tc) <==>
        i in MatchedSet(init, tc) + (if Matches(hard[n].disjunction, tc) then {n} else {})
    {
      if 0 <= i < n {
        assert init[i] == hard[i];
      }
    }
  }

  /** The count is the number of matched constraints, so it lies in 0 .. |hard|. */
  lemma {:induction false} ViolationsCount(hard: seq<Constraint>, tc: seq<int>)
    ensures Violations(hard, tc) == |MatchedSet(hard, tc)|
    ensures Violations(hard, tc) <= |hard|
  {
    if |hard| > 0 {
      var n := |hard| - 1;
      var init := hard[..n];
      ViolationsCount(init, tc);
      MatchedSetSplit(hard, tc);
      var extra := if Matches(hard[n].disjunction, tc) then {n} else {};
      assert Violations(hard, tc) == Violations(init, tc) + |extra|;
      assert |MatchedSet(init, tc) + extra| == |MatchedSet(init, tc)| + |extra|;
    }
  }

  /** No violation exactly when the test is valid. */
  lemma ViolationsZero(hard: seq<Constraint>, tc: seq<int>)
    ensures Violations(hard, tc) == 0 <==> Valid(hard, tc)
  {
    ViolationsCount(hard, tc);
    if !Valid(hard, tc) {
      var i :| 0 <= i < |hard| && Matches(hard[i].disjunction, tc);
      assert i in MatchedSet(hard, tc);
    } else {
      assert MatchedSet(hard, tc) == {};
    }
  }

  /** On a test within the parameters' domains and ordered constraints, the
      count is the number of constraints whose every literal the test assigns. */
  lemma ViolationsHit(value: seq<int>, hard: seq<Constraint>, test: seq<int>)
    requires ValidValues(value) && InRange(value, test)
    requires forall i :: 0 <= i < |hard| ==> Ordered(hard[i].disjunction)
    ensures Violations(hard, Encode(value, test)) ==
      |set i | 0 <= i < |hard| && Hit(value, hard[i].disjunction, test)|
  {
    var tc := Encode(value, test);
    ViolationsCount(hard, tc);
    forall i | 0 <= i < |hard|
      ensures Matches(hard[i].disjunction, tc) <==> Hit(value, hard[i].disjunction, test)
    {
      MatchesMeaning(value, hard[i].disjunction, test);
    }
    assert MatchedSet(hard, tc) == set i | 0 <= i < |hard| && Hit(value, hard[i].disjunction, test);
  }

  /** Models `violateConstraintNum(int[])` (lines 34-77): no constraint gives
      0 at once; otherwise the test is encoded and every constraint it
      matches counts once. As written, a constraint that runs past the last
      test entry makes the loop read beyond the encoded test. */
  method ViolateConstraintNum(value: seq<int>, hard: seq<Constraint>, test: seq<int>, asWritten: bool)
    returns (o: Count)
    requires |hard| > 0 ==> |test| <= |value|
    ensures |hard| == 0 ==> o == Counted(0)
    ensures |hard| > 0 && !asWritten ==> o == Counted(Violations(hard, Encode(value, test)))
    ensures |hard| > 0 && o != Crashed ==> o == Counted(Violations(hard, Encode(value, test)))
    ensures o.Counted? ==> o.n <= |hard|
  {
    if |hard| == 0 {
      return Counted(0);
    }
    var tc := EncodeTest(value, test);
    var violateCount := 0;
    var c := 0;
    while c < |hard|
      invariant 0 <= c <= |hard|
      invariant violateCount == Violations(hard[..c], tc)
    {
      assert hard[..c + 1][..c] == hard[..c];
      var matched := Match(hard[c].disjunction, tc, asWritten);
      ScanAgreesIfDone(hard[c].disjunction, tc);
      if matched == Crash {
        return Crashed;
      }
      if matched == Done(true) {
        violateCount := violateCount + 1;
      }
      c := c + 1;
    }
    assert hard[..c] == hard;
    ViolationsCount(hard, tc);
    return Counted(violateCount);
  }

  /** An as-written scan that does not crash agrees with the corrected one. */
  lemma ScanAgreesIfDone(lits: seq<int>, tc: seq<int>)
    ensures Scan(lits, tc, 0, 0, true) != Crash ==> Scan(lits, tc, 0, 0, true) == Scan(lits, tc, 0, 0, false)
  {
    if Scan(lits, tc, 0, 0, true) != Crash {
      ScanAgrees(lits, tc, 0, 0);
    }
  }

  /** The total number of violations over a test suite. */
  function SuiteViolations(value: seq<int>, hard: seq<Constraint>, suite: seq<seq<int>>): nat
    requires forall r :: 0 <= r < |suite| ==> |suite[r]| <= |value|
  {
    if |suite| == 0 then 0
    else SuiteViolations(value, hard, suite[..|suite| - 1]) + Violations(hard, Encode(value, suite[|suite| - 1]))
  }

  /** A suite has no violation exactly when every one of its tests is valid. */
  lemma {:induction false} SuiteViolationsZero(value: seq<int>, hard: seq<Constraint>, suite: seq<seq<int>>)
    requires forall r :: 0 <= r < |suite| ==> |suite[r]| <= |value|
    ensures SuiteViolations(value, hard, suite) == 0 <==> SuiteValid(value, hard, suite)
  {
    if |suite| > 0 {
      var n := |suite| - 1;
      SuiteViolationsZero(value, hard, suite[..n]);
      ViolationsZero(hard, Encode(value, suite[n]));
      SuiteValidSplit(value, hard, suite);
    }
  }

  /** Every test of the suite is valid. */
  ghost predicate SuiteValid(value: seq<int>, hard: seq<Constraint>, suite: seq<seq<int>>)
    requires forall r :: 0 <= r < |suite| ==> |suite[r]| <= |value|
  {
    forall r :: 0 <= r < |suite| ==> Valid(hard, Encode(value, suite[r]))
  }

  /** A suite is valid when all but its last test are and the last one is. */
  lemma SuiteValidSplit(value: seq<int>, hard: seq<Constraint>, suite: seq<seq<int>>)
    requires forall r :: 0 <= r < |suite| ==> |suite[r]| <= |value|
    requires |suite| > 0
    ensures SuiteValid(value, hard, suite) <==>
      SuiteValid(value, hard, suite[..|suite| - 1]) && Valid(hard, Encode(value, suite[|suite| - 1]))
  {
    var n := |suite| - 1;
    assert forall r :: 0 <= r < n ==> suite[..n][r] == suite[r];
  }

  /** Replacing one test changes the suite's total by the change of that test's count. */
  lemma {:induction false} SuiteViolationsReplace(value: seq<int>, hard: seq<Constraint>, suite: seq<seq<int>>, i: int, test: seq<int>)
    requires forall r :: 0 <= r < |suite| ==> |suite[r]| <= |value|
    requires 0 <= i < |suite| && |test| <= |value|
    ensures SuiteViolations(value, hard, suite[i := test]) ==
      SuiteViolations(value, hard, suite) - Violations(hard, Encode(value, suite[i])) + Violations(hard, Encode(value, test))
  {
    var n := |suite| - 1;
    if i == n {
      assert suite[i := test][..n] == suite[..n];
    } else {
      assert suite[i := test][..n] == suite[..n][i := test];
      SuiteViolationsReplace(value, hard, suite[..n], i, test);
    }
  }

  /** Models `violateConstraintNum(ArrayList<int[]>)` (lines 79-84): the sum
      of the counts of the tests of the suite. */
  method SuiteViolateConstraintNum(value: seq<int>, hard: seq<Constraint>, suite: seq<seq<int>>, asWritten: bool)
    returns (o: Count)
    requires |hard| > 0 ==> forall r :: 0 <= r < |suite| ==> |suite[r]| <= |value|
    ensures |suite| == 0 || |hard| == 0 ==> o == Counted(0)
    ensures |hard| > 0 && !asWritten ==> o == Counted(SuiteViolations(value, hard, suite))
    ensures |hard| > 0 && o != Crashed ==> o == Counted(SuiteViolations(value, hard, suite))
  {
    var violate := 0;
    var r := 0;
    while r < |suite|
      invariant 0 <= r <= |suite|
      invariant |hard| > 0 ==> violate == SuiteViolations(value, hard, suite[..r])
      invariant |hard| == 0 ==> violate == 0
    {
      assert suite[..r + 1][..r] == suite[..r];
      var one := ViolateConstraintNum(value, hard, suite[r], asWritten);
      if one == Crashed {
        return Crashed;
      }
      violate := violate + one.n;
      r := r + 1;
    }
    assert suite[..r] == suite;
    return Counted(violate);
  }

  /** A suite's total lies between 0 and |suite| * |hard|. */
  lemma {:induction false} SuiteViolationsBound(value: seq<int>, hard: seq<Constraint>, suite: seq<seq<int>>)
    requires forall r :: 0 <= r < |suite| ==> |suite[r]| <= |value|
    ensures SuiteViolations(value, hard, suite) <= |suite| * |hard|
  {
    if |suite| > 0 {
      var n := |suite| - 1;
      SuiteViolationsBound(value, hard, suite[..n]);
      ViolationsCount(hard, Encode(value, suite[n]));
      assert |suite| * |hard| == n * |hard| + |hard|;
    }
  }
}
