/** The two-pointer match of `ValidityChecker.isValid` (lines 315-358) and
    `ConflictCounter.violateConstraintNum` (lines 34-77): a test is encoded as
    the list of ids of its assigned values, and a forbidden tuple is hit when
    the magnitudes of its literals can be found, in order, in that list. */
module Matching {
  import opened Ids
  import opened Constraints

  /** What a call returns, or `Crash` for the array index exception the
      code as written can raise. */
  datatype Outcome = Crash | Done(value: bool)

  /** The encoded test: an assigned value becomes its id `relation[i][test[i]]`
      and a free parameter (-1) stays -1. */
  function Encode(value: seq<int>, test: seq<int>): (tc: seq<int>)
    requires |test| <= |value|
    ensures |tc| == |test|
    ensures forall i :: 0 <= i < |test| ==> tc[i] == if test[i] == -1 then -1 else Id(value, i, test[i])
  {
    seq(|test|, i requires 0 <= i < |test| => if test[i] == -1 then -1 else Id(value, i, test[i]))
  }

  /** Models the encoding loops (`ValidityChecker` lines 322-330,
      `ConflictCounter` lines 41-49): `baseNum` runs over the sizes of the
      parameters already passed. */
  method EncodeTest(value: seq<int>, test: seq<int>) returns (tc: seq<int>)
    requires |test| <= |value|
    ensures tc == Encode(value, test)
  {
    tc := [];
    var baseNum := 0;
    var i := 0;
    while i < |test|
      invariant 0 <= i <= |test| && |tc| == i
      invariant baseNum == Offset(value, i)
      invariant forall i' :: 0 <= i' < i ==> tc[i'] == Encode(value, test)[i']
    {
      if test[i] != -1 {
        tc := tc + [test[i] + baseNum + 1];
      } else {
        tc := tc + [-1];
      }
      baseNum := baseNum + value[i];
      i := i + 1;
    }
  }

  /** Every entry of the test is free or a value of its parameter. */
  predicate InRange(value: seq<int>, test: seq<int>)
  {
    |test| <= |value| && forall i :: 0 <= i < |test| ==> test[i] == -1 || IsPair(value, i, test[i])
  }

  /** The assigned entries of an encoded test increase strictly. */
  predicate AssignedIncrease(tc: seq<int>)
  {
    forall p, q :: 0 <= p < q < |tc| && tc[p] != -1 && tc[q] != -1 ==> tc[p] < tc[q]
  }

  /** The literals are negative and strictly decreasing: sorted as `sort` sorts,
      without repetition, so their magnitudes increase strictly. */
  predicate Ordered(lits: seq<int>)
  {
    (forall p :: 0 <= p < |lits| ==> lits[p] < 0) &&
    (forall p, q :: 0 <= p < q < |lits| ==> lits[p] > lits[q])
  }

  lemma EncodeIncreases(value: seq<int>, test: seq<int>)
    requires ValidValues(value) && InRange(value, test)
    ensures AssignedIncrease(Encode(value, test))
    ensures forall i :: 0 <= i < |test| && test[i] != -1 ==> Encode(value, test)[i] >= 1
  {
    var tc := Encode(value, test);
    forall p, q | 0 <= p < q < |tc| && tc[p] != -1 && tc[q] != -1
      ensures tc[p] < tc[q]
    {
      IdIncreasing(value, p, test[p], q, test[q]);
    }
    forall i | 0 <= i < |test| && test[i] != -1
      ensures tc[i] >= 1
    {
      IdRange(value, i, test[i]);
    }
  }

  /** The inner scan at line 338: from k, step over free entries and entries
      below the magnitude m, stopping at the first assigned entry at least m
      or at the end. */
  function Skip(m: nat, tc: seq<int>, k: int): (k': int)
    requires 0 <= k <= |tc|
    ensures k <= k' <= |tc|
    ensures forall p :: k <= p < k' ==> tc[p] == -1 || m > tc[p]
    ensures k' < |tc| ==> tc[k'] != -1 && m <= tc[k']
    decreases |tc| - k
  {
    if k < |tc| && (tc[k] == -1 || m > tc[k]) then Skip(m, tc, k + 1) else k
  }

  /** The match of literals j.. against entries k.. of an encoded test. When the
      previous literal matched the last entry (k = |tc|) no scan step runs and
      the code as written reads `TC[TC.length]`; the corrected match reports
      no match there. */
  function Scan(lits: seq<int>, tc: seq<int>, j: int, k: int, asWritten: bool): Outcome
    requires 0 <= j <= |lits| && 0 <= k <= |tc|
    decreases |lits| - j
  {
    if j == |lits| then Done(true)
    else
      var k' := Skip(Abs(lits[j]), tc, k);
      if k' == |tc| then
        if k' > k || !asWritten then Done(false) else Crash
      else if Abs(lits[j]) == tc[k'] then Scan(lits, tc, j + 1, k' + 1, asWritten)
      else Done(false)
  }

  /** The corrected match: the test hits the forbidden tuple. */
  predicate Matches(lits: seq<int>, tc: seq<int>)
  {
    Scan(lits, tc, 0, 0, false) == Done(true)
  }

  /** Models the match loop of one constraint (lines 334-352 of
      `ValidityChecker`, 54-72 of `ConflictCounter`). `asWritten` chooses what
      happens at the out-of-range read of line 345. */
  method Match(lits: seq<int>, tc: seq<int>, asWritten: bool) returns (o: Outcome)
    ensures o == Scan(lits, tc, 0, 0, asWritten)
    ensures !asWritten ==> o == Done(Matches(lits, tc))
  {
    ScanNeverCrashes(lits, tc, 0, 0);
    var matched := true;
    var k := 0;
    var j := 0;
    while j < |lits|
      invariant 0 <= j <= |lits| && 0 <= k <= |tc|
      invariant Scan(lits, tc, j, k, asWritten) == Scan(lits, tc, 0, 0, asWritten)
    {
      k, matched := SkipLoop(Abs(lits[j]), tc, k);
      if !matched {
        return Done(false);
      }
      if k == |tc| {
        if asWritten {
          return Crash;
        }
        return Done(false);
      }
      if Abs(lits[j]) == tc[k] {
        k := k + 1;
        j := j + 1;
      } else {
        return Done(false);
      }
    }
    return Done(true);
  }

  /** The inner loop of lines 338-344: `matched` turns false when the scan
      steps onto the end of the test. */
  method SkipLoop(m: nat, tc: seq<int>, k0: int) returns (k: int, matched: bool)
    requires 0 <= k0 <= |tc|
    ensures k == Skip(m, tc, k0)
    ensures matched <==> k < |tc| || k == k0
  {
    k := k0;
    matched := true;
    while k < |tc| && (tc[k] == -1 || m > tc[k])
      invariant k0 <= k <= |tc|
      invariant Skip(m, tc, k) == Skip(m, tc, k0)
      invariant matched <==> k < |tc| || k == k0
    {
      k := k + 1;
      if k == |tc| {
        matched := false;
      }
    }
  }

  lemma {:induction false} ScanNeverCrashes(lits: seq<int>, tc: seq<int>, j: int, k: int)
    requires 0 <= j <= |lits| && 0 <= k <= |tc|
    ensures Scan(lits, tc, j, k, false) != Crash
    decreases |lits| - j
  {
    if j < |lits| {
      var k' := Skip(Abs(lits[j]), tc, k);
      if k' < |tc| && Abs(lits[j]) == tc[k'] {
        ScanNeverCrashes(lits, tc, j + 1, k' + 1);
      }
    }
  }

  /** When the code as written does not crash, it agrees with the corrected
      match. */
  lemma {:induction false} ScanAgrees(lits: seq<int>, tc: seq<int>, j: int, k: int)
    requires 0 <= j <= |lits| && 0 <= k <= |tc|
    requires Scan(lits, tc, j, k, true) != Crash
    ensures Scan(lits, tc, j, k, true) == Scan(lits, tc, j, k, false)
    decreases |lits| - j
  {
    if j < |lits| {
      var k' := Skip(Abs(lits[j]), tc, k);
      if k' < |tc| && Abs(lits[j]) == tc[k'] {
        ScanAgrees(lits, tc, j + 1, k' + 1);
      }
    }
  }

  /** m occurs among entries k.. of tc. */
  predicate OccursFrom(m: int, tc: seq<int>, k: int)
  {
    exists p :: k <= p < |tc| && 0 <= p && tc[p] == m
  }

  /** Literals j.. all occur, by magnitude, among entries k.. of tc. */
  predicate OccurFrom(lits: seq<int>, tc: seq<int>, j: int, k: int)
    requires 0 <= j <= |lits|
  {
    forall j' :: j <= j' < |lits| ==> OccursFrom(Abs(lits[j']), tc, k)
  }

  /** A match finds every magnitude in the test. */
  lemma {:induction false} ScanSound(lits: seq<int>, tc: seq<int>, j: int, k: int)
    requires 0 <= j <= |lits| && 0 <= k <= |tc|
    requires Scan(lits, tc, j, k, false) == Done(true)
    ensures OccurFrom(lits, tc, j, k)
    decreases |lits| - j
  {
    if j < |lits| {
      var k' := Skip(Abs(lits[j]), tc, k);
      ScanSound(lits, tc, j + 1, k' + 1);
      forall j' | j <= j' < |lits|
        ensures OccursFrom(Abs(lits[j']), tc, k)
      {
        if j' == j {
          assert tc[k'] == Abs(lits[j']);
        } else {
          var p :| k' + 1 <= p < |tc| && 0 <= p && tc[p] == Abs(lits[j']);
          assert k <= p;
        }
      }
    }
  }

  /** With increasing magnitudes and an increasing encoded test, every
      magnitude occurring in the test is found, by the code as written too. */
  lemma {:induction false} ScanComplete(lits: seq<int>, tc: seq<int>, j: int, k: int, asWritten: bool)
    requires 0 <= j <= |lits| && 0 <= k <= |tc|
    requires Ordered(lits) && AssignedIncrease(tc)
    requires OccurFrom(lits, tc, j, k)
    ensures Scan(lits, tc, j, k, asWritten) == Done(true)
    decreases |lits| - j
  {
    if j < |lits| {
      var m := Abs(lits[j]);
      var p :| k <= p < |tc| && 0 <= p && tc[p] == m;
      SkipFinds(m, tc, k, p);
      OccurLater(lits, tc, j, k, p);
      ScanComplete(lits, tc, j + 1, p + 1, asWritten);
    }
  }

  /** The later literals, having larger magnitudes, occur after the place p
      where literal j does. */
  lemma OccurLater(lits: seq<int>, tc: seq<int>, j: int, k: int, p: int)
    requires 0 <= j < |lits| && Ordered(lits) && AssignedIncrease(tc)
    requires OccurFrom(lits, tc, j, k)
    requires 0 <= p < |tc| && tc[p] == Abs(lits[j])
    ensures OccurFrom(lits, tc, j + 1, p + 1)
  {
    forall j' | j + 1 <= j' < |lits|
      ensures OccursFrom(Abs(lits[j']), tc, p + 1)
    {
      assert OccursFrom(Abs(lits[j']), tc, k);
      var p' :| k <= p' < |tc| && 0 <= p' && tc[p'] == Abs(lits[j']);
      assert lits[j] > lits[j'];
      assert p' > p;
    }
  }

  /** In an increasing encoded test the scan for a positive magnitude stops
      where it occurs. */
  lemma SkipFinds(m: int, tc: seq<int>, k: int, p: int)
    requires AssignedIncrease(tc) && m >= 1
    requires 0 <= k <= p < |tc| && tc[p] == m
    ensures Skip(m, tc, k) == p
  {
    var k' := Skip(m, tc, k);
    if k' < p {
      assert false;
    }
  }

  /** The test assigns, for every literal, the value that literal forbids: the
      test hits the forbidden tuple. */
  predicate Hit(value: seq<int>, lits: seq<int>, test: seq<int>)
    requires |test| <= |value|
  {
    forall j :: 0 <= j < |lits| ==> Assigns(value, test, Abs(lits[j]))
  }

  /** The test assigns the value whose id is m. */
  predicate Assigns(value: seq<int>, test: seq<int>, m: int)
    requires |test| <= |value|
  {
    exists i :: 0 <= i < |test| && test[i] != -1 && Id(value, i, test[i]) == m
  }

  lemma HitOccurs(value: seq<int>, lits: seq<int>, test: seq<int>)
    requires |test| <= |value|
    ensures Hit(value, lits, test) <==> OccurFrom(lits, Encode(value, test), 0, 0)
  {
    var tc := Encode(value, test);
    if Hit(value, lits, test) {
      forall j | 0 <= j < |lits|
        ensures OccursFrom(Abs(lits[j]), tc, 0)
      {
        var i :| 0 <= i < |test| && test[i] != -1 && Id(value, i, test[i]) == Abs(lits[j]);
        assert 0 <= i < |tc|;
        assert tc[i] == Abs(lits[j]);
      }
      assert OccurFrom(lits, tc, 0, 0);
    }
    if OccurFrom(lits, tc, 0, 0) {
      forall j | 0 <= j < |lits|
        ensures Assigns(value, test, Abs(lits[j]))
      {
        var p :| 0 <= p < |tc| && 0 <= p && tc[p] == Abs(lits[j]);
        assert test[p] != -1;
        assert Id(value, p, test[p]) == Abs(lits[j]);
      }
      assert Hit(value, lits, test);
    }
  }

  /** The meaning of the corrected match: for an ordered forbidden tuple and a
      test within the domains, the match succeeds exactly when the test hits
      the tuple; free parameters never contribute. The code as written then
      finds every hit. */
  lemma MatchesMeaning(value: seq<int>, lits: seq<int>, test: seq<int>)
    requires ValidValues(value) && InRange(value, test) && Ordered(lits)
    ensures Matches(lits, Encode(value, test)) <==> Hit(value, lits, test)
    ensures Hit(value, lits, test) ==> Scan(lits, Encode(value, test), 0, 0, true) == Done(true)
  {
    var tc := Encode(value, test);
    HitOccurs(value, lits, test);
    EncodeIncreases(value, test);
    if Matches(lits, tc) {
      ScanSound(lits, tc, 0, 0);
    }
    if Hit(value, lits, test) {
      ScanComplete(lits, tc, 0, 0, false);
      ScanComplete(lits, tc, 0, 0, true);
    }
  }

  /** The outcome of the loop over the MFT list from constraint i on: the first
      crash, or invalid at the first matched constraint, or valid. */
  function Validity(mft: seq<Constraint>, tc: seq<int>, i: int, asWritten: bool): Outcome
    requires 0 <= i <= |mft|
    decreases |mft| - i
  {
    if i == |mft| then Done(true)
    else match Scan(mft[i].disjunction, tc, 0, 0, asWritten)
      case Crash => Crash
      case Done(matched) => if matched then Done(false) else Validity(mft, tc, i + 1, asWritten)
  }

  /** The corrected validity: no forbidden tuple is matched. */
  predicate Valid(mft: seq<Constraint>, tc: seq<int>)
  {
    forall i :: 0 <= i < |mft| ==> !Matches(mft[i].disjunction, tc)
  }

  lemma {:induction false} ValidityCorrected(mft: seq<Constraint>, tc: seq<int>, i: int)
    requires 0 <= i <= |mft|
    ensures Validity(mft, tc, i, false) == Done(forall i' :: i <= i' < |mft| ==> !Matches(mft[i'].disjunction, tc))
    decreases |mft| - i
  {
    if i < |mft| {
      ScanNeverCrashes(mft[i].disjunction, tc, 0, 0);
      ValidityCorrected(mft, tc, i + 1);
    }
  }

  lemma {:induction false} ValidityAgrees(mft: seq<Constraint>, tc: seq<int>, i: int)
    requires 0 <= i <= |mft|
    requires Validity(mft, tc, i, true) != Crash
    ensures Validity(mft, tc, i, true) == Validity(mft, tc, i, false)
    decreases |mft| - i
  {
    if i < |mft| {
      ScanAgrees(mft[i].disjunction, tc, 0, 0);
      if Scan(mft[i].disjunction, tc, 0, 0, true) == Done(false) {
        ValidityAgrees(mft, tc, i + 1);
      }
    }
  }

  /** Models `ValidityChecker.isValid` (lines 315-358): valid when there is no
      forbidden tuple; otherwise encode the test and look for a matched tuple.
      The corrected variant never crashes and answers `Valid`; the variant as
      written agrees with it whenever it does not crash. */
  method IsValid(value: seq<int>, mft: seq<Constraint>, test: seq<int>, asWritten: bool) returns (o: Outcome)
    requires |mft| > 0 ==> |test| <= |value|
    ensures |mft| == 0 ==> o == Done(true)
    ensures |mft| > 0 ==> o == Validity(mft, Encode(value, test), 0, asWritten)
    ensures |mft| > 0 && !asWritten ==> o == Done(Valid(mft, Encode(value, test)))
    ensures |mft| > 0 && o != Crash ==> o == Done(Valid(mft, Encode(value, test)))
  {
    if |mft| == 0 {
      return Done(true);
    }
    var tc := EncodeTest(value, test);
    ValidityCorrected(mft, tc, 0);
    var i := 0;
    while i < |mft|
      invariant 0 <= i <= |mft|
      invariant Validity(mft, tc, i, asWritten) == Validity(mft, tc, 0, asWritten)
    {
      var m := Match(mft[i].disjunction, tc, asWritten);
      if m == Crash {
        return Crash;
      }
      if m.value {
        ValidityAgreesIfDone(mft, tc);
        return Done(false);
      }
      i := i + 1;
    }
    ValidityAgreesIfDone(mft, tc);
    return Done(true);
  }

  lemma ValidityAgreesIfDone(mft: seq<Constraint>, tc: seq<int>)
    ensures Validity(mft, tc, 0, true) != Crash ==> Validity(mft, tc, 0, true) == Done(Valid(mft, tc))
  {
    ValidityCorrected(mft, tc, 0);
    if Validity(mft, tc, 0, true) != Crash {
      ValidityAgrees(mft, tc, 0);
    }
  }

  /** For ordered tuples and a test within the domains, the corrected validity
      holds exactly when the test hits none of the forbidden tuples. */
  lemma ValidMeaning(value: seq<int>, mft: seq<Constraint>, test: seq<int>)
    requires ValidValues(value) && InRange(value, test)
    requires forall i :: 0 <= i < |mft| ==> Ordered(mft[i].disjunction)
    ensures Valid(mft, Encode(value, test)) <==> forall i :: 0 <= i < |mft| ==> !Hit(value, mft[i].disjunction, test)
  {
    forall i | 0 <= i < |mft|
      ensures Matches(mft[i].disjunction, Encode(value, test)) <==> Hit(value, mft[i].disjunction, test)
    {
      MatchesMeaning(value, mft[i].disjunction, test);
    }
  }

  /** The code as written reads past the encoded test: with two parameters of
      two values each, the ordered tuple [-3, -4] (both values of the second
      parameter) and the complete test [0, 0], encoded [1, 3], the literal -3
      matches the last entry and the scan for -4 then reads `TC[2]`. The
      corrected match reports no match, the test being valid. */
  lemma OutOfBoundsRead()
    ensures Encode([2, 2], [0, 0]) == [1, 3]
    ensures Ordered([-3, -4]) && InRange([2, 2], [0, 0])
    ensures Scan([-3, -4], [1, 3], 0, 0, true) == Crash
    ensures Scan([-3, -4], [1, 3], 0, 0, false) == Done(false)
    ensures !Hit([2, 2], [-3, -4], [0, 0])
  {
    assert Id([2, 2], 1, 0) == 3;
    assert Skip(3, [1, 3], 0) == 1;
    assert Skip(4, [1, 3], 2) == 2;
    var test, lits := [0, 0], [-3, -4];
    assert Offset([2, 2], 1) == 2;
    forall i | 0 <= i < |test|
      ensures !(test[i] != -1 && Id([2, 2], i, test[i]) == Abs(lits[1]))
    {
    }
  }
}
