/** The inner search of the simulated-annealing generator `SA`: its integer
    bookkeeping. Random draws come from a stream `rand` read at a running
    counter (`nextInt(b)` is the next draw reduced modulo b), and the
    acceptance of a worsening move is an arbitrary boolean `accept(round)`
    standing for the comparison of `nextDouble` with `e^(delta/T)`. */
module Annealing {
  import opened Wrappers
  import opened Ids
  import opened Matching
  import opened ConflictCounting
  import opened Coverage
  import Closure
  import opened CombinatorialModel
  import opened Combinations
  import opened Occupancy

  /** Models `sample(model)` (lines 312-317): parameter i takes the draw
      k + i reduced into its domain. */
  function Sample(value: seq<int>, rand: nat -> nat, k: nat): (test: seq<int>)
    requires ValidValues(value)
    ensures Closure.Complete(value, test)
  {
    seq(|value|, i requires 0 <= i < |value| => rand(k + i) % value[i])
  }

  /** Every test of the suite violates no minimum forbidden tuple. */
  predicate AllValid(m: CTModel, suite: seq<seq<int>>)
    requires Tests(m, suite)
  {
    forall q :: 0 <= q < |suite| ==> Valid(m.mft, Encode(m.value, suite[q]))
  }

  /** `isValid` on a complete test is validity against the forbidden tuples. */
  method CheckTest(m: CTModel, test: seq<int>) returns (ok: bool)
    requires Closure.Complete(m.value, test)
    ensures ok <==> Valid(m.mft, Encode(m.value, test))
  {
    ok := IsValidTest(m, test);
  }

  /** The resampling loop of lines 163-165 for hard constraints, with at most
      `tries` fresh samples after the first. */
  method ValidSample(m: CTModel, rand: nat -> nat, k: nat, tries: nat) returns (test: Option<seq<int>>, k': nat)
    requires ValidValues(m.value)
    ensures test.Some? ==> Closure.Complete(m.value, test.value) && Valid(m.mft, Encode(m.value, test.value))
    ensures test.None? ==> tries == 0 || exists j :: k <= j && !Valid(m.mft, Encode(m.value, Sample(m.value, rand, j)))
  {
    var t := Sample(m.value, rand, k);
    k' := k + |m.value|;
    var ok := CheckTest(m, t);
    var left := tries;
    while !ok && left > 0
      invariant Closure.Complete(m.value, t) && k' >= k
      invariant ok <==> Valid(m.mft, Encode(m.value, t))
      invariant !ok ==> exists j :: k <= j && !Valid(m.mft, Encode(m.value, Sample(m.value, rand, j)))
    {
      t := Sample(m.value, rand, k');
      k' := k' + |m.value|;
      ok := CheckTest(m, t);
      left := left - 1;
    }
    if ok {
      return Some(t), k';
    }
    return None, k';
  }

  /** Models the sampling of the initial suite (lines 160-167): N samples,
      each resampled until valid when constraints are hard. */
  method InitialSuite(m: CTModel, tolerate: bool, N: nat, rand: nat -> nat, k: nat, tries: nat)
    returns (A: Option<seq<seq<int>>>, k': nat)
    requires ValidValues(m.value)
    ensures A.Some? ==> |A.value| == N && Tests(m, A.value) && (!tolerate ==> AllValid(m, A.value))
    ensures tolerate ==> A.Some?
  {
    var suite: seq<seq<int>> := [];
    k' := k;
    while |suite| < N
      invariant |suite| <= N && Tests(m, suite) && (!tolerate ==> AllValid(m, suite))
      decreases N - |suite|
    {
      var test;
      if tolerate {
        test := Sample(m.value, rand, k');
        k' := k' + |m.value|;
      } else {
        var t;
        t, k' := ValidSample(m, rand, k', tries);
        if t.None? {
          return None, k';
        }
        test := t.value;
      }
      suite := suite + [test];
    }
    return Some(suite), k';
  }

  /** The state the loop of `innerSearch` keeps: N tests, the occupancy table
      of the suite, `uncoverNum` its number of 0 entries, and `violateCons`
      the suite's violation count, which under hard constraints is 0 with
      every test valid. */
  ghost predicate Searching(m: CTModel, tolerate: bool, N: nat, A: seq<seq<int>>, cover: seq<seq<int>>,
                            uncoverNum: int, violateCons: int)
    requires Laid(m)
  {
    |A| == N && Tests(m, A) && Tracks(m, cover, A) && uncoverNum == ZeroCells(cover) &&
    if tolerate then violateCons == SuiteViolations(m.value, m.mft, A)
    else violateCons == 0 && AllValid(m, A)
  }

  /** A state with nothing uncovered and no violation holds a covering array:
      the suite hits every unmarked cell and all its tests are valid. */
  lemma Success(m: CTModel, tolerate: bool, N: nat, A: seq<seq<int>>, cover: seq<seq<int>>)
    requires Laid(m) && Searching(m, tolerate, N, A, cover, 0, 0)
    ensures AllHit(m, A) && AllValid(m, A)
  {
    TracksZero(m, cover, A);
    if tolerate {
      SuiteViolationsZero(m.value, m.mft, A);
    }
  }

  /** The violation count of a suite under no forbidden tuple is 0. */
  lemma NoHardNoViolations(m: CTModel, A: seq<seq<int>>)
    requires Tests(m, A) && |m.mft| == 0
    ensures SuiteViolations(m.value, m.mft, A) == 0
  {
    SuiteViolationsBound(m.value, m.mft, A);
  }

  /** Models lines 158-171: the initial suite, its table and counters. */
  method Start(m: CTModel, tolerate: bool, N: nat, rand: nat -> nat, k: nat, tries: nat)
    returns (A: Option<seq<seq<int>>>, cover: seq<seq<int>>, uncoverNum: int, violateCons: int, k': nat)
    requires Laid(m) && m.combAll == Uncovered(m.combination.matrix)
    ensures A.Some? ==> Searching(m, tolerate, N, A.value, cover, uncoverNum, violateCons)
    ensures tolerate ==> A.Some?
  {
    var empty := InitCover(m);
    A, k' := InitialSuite(m, tolerate, N, rand, k, tries);
    cover, uncoverNum, violateCons := empty, 0, 0;
    if A.Some? {
      uncoverNum, cover := UpdateTestSuiteCoverage(m, empty, A.value);
      if tolerate {
        var o := SuiteViolateConstraintNum(m.value, m.mft, A.value, false);
        violateCons := o.n;
        if |m.mft| == 0 {
          NoHardNoViolations(m, A.value);
        }
      }
    }
  }

  /** The bookkeeping of an accepted move: table, zero count and violation
      count of the suite with test row replaced. */
  lemma Accepted(m: CTModel, tolerate: bool, N: nat, A: seq<seq<int>>, cover: seq<seq<int>>,
                 uncoverNum: int, violateCons: int, row: int, tmp: seq<int>,
                 mid: seq<seq<int>>, next: seq<seq<int>>, coverNumA: nat, coverNumA1: nat, v0: int, v1: int)
    requires Laid(m) && Searching(m, tolerate, N, A, cover, uncoverNum, violateCons)
    requires 0 <= row < N && Closure.Complete(m.value, tmp)
    requires !tolerate ==> Valid(m.mft, Encode(m.value, tmp)) && v0 == 0 && v1 == 0
    requires tolerate ==> v0 == Violations(m.mft, Encode(m.value, A[row])) && v1 == Violations(m.mft, Encode(m.value, tmp))
    requires Updated(cover, Columns(m, A[row]), 0, mid) && coverNumA == Flipped(cover, Columns(m, A[row]), 0)
    requires Updated(mid, Columns(m, tmp), 1, next) && coverNumA1 == Flipped(mid, Columns(m, tmp), 1)
    ensures Searching(m, tolerate, N, A[row := tmp], next, uncoverNum - (coverNumA1 as int - coverNumA), violateCons + (v1 - v0))
  {
    RemoveTracks(m, cover, A, row, mid);
    HitCellsNonzero(m, cover, A, row);
    UpdatedZeros(cover, Columns(m, A[row]), 0, mid);
    AddTracks(m, mid, Without(A, row), tmp, next);
    UpdatedZeros(mid, Columns(m, tmp), 1, next);
    ReplaceTracks(m, next, A, row, tmp);
    if tolerate {
      SuiteViolationsReplace(m.value, m.mft, A, row, tmp);
    }
  }

  /** One move of lines 189-232 that was not skipped: take test row away, add
      its modified copy tmp, and keep the result when delta >= 0 or the move
      is accepted anyway; otherwise the table snapshot is restored. */
  method Move(m: CTModel, tolerate: bool, N: nat, A: seq<seq<int>>, cover: seq<seq<int>>,
              uncoverNum: int, violateCons: int, row: int, tmp: seq<int>, accept: bool)
    returns (A': seq<seq<int>>, cover': seq<seq<int>>, uncoverNum': int, violateCons': int)
    requires Laid(m) && Searching(m, tolerate, N, A, cover, uncoverNum, violateCons)
    requires 0 <= row < N && Closure.Complete(m.value, tmp)
    requires !tolerate ==> Valid(m.mft, Encode(m.value, tmp))
    ensures Searching(m, tolerate, N, A', cover', uncoverNum', violateCons')
    ensures A' == A || A' == A[row := tmp]
  {
    var coverNumA, mid := UpdateTestCaseCoverage(m, cover, A[row], 0);
    var coverNumA1, next := UpdateTestCaseCoverage(m, mid, tmp, 1);
    var v0: int, v1: int := 0, 0;
    if tolerate {
      var o0 := ViolateConstraintNum(m.value, m.mft, A[row], false);
      var o1 := ViolateConstraintNum(m.value, m.mft, tmp, false);
      v0, v1 := o0.n, o1.n;
    }
    var delta: int := coverNumA1 as int - coverNumA as int - 4 * (v1 - v0);
    if delta >= 0 || accept {
      Accepted(m, tolerate, N, A, cover, uncoverNum, violateCons, row, tmp, mid, next, coverNumA, coverNumA1, v0, v1);
      A', cover' := A[row := tmp], next;
      uncoverNum', violateCons' := uncoverNum - (coverNumA1 as int - coverNumA), violateCons + (v1 - v0);
    } else {
      A', cover', uncoverNum', violateCons' := A, cover, uncoverNum, violateCons;
    }
  }

  /** The draws of one pass (lines 177-183): a row of the suite, a parameter,
      and a value of its domain. */
  function Draws(value: seq<int>, N: nat, rand: nat -> nat, k: nat): (d: (int, int, int))
    requires ValidValues(value) && N >= 1 && |value| >= 1
    ensures 0 <= d.0 < N && IsPair(value, d.1, d.2)
  {
    var column := rand(k + 1) % |value|;
    (rand(k) % N, column, rand(k + 2) % value[column])
  }

  /** Lines 186-187: the pass is discarded when the value does not change or,
      under hard constraints, the modified test is invalid. */
  method Skipped(m: CTModel, tolerate: bool, test: seq<int>, column: int, symbol: int) returns (skip: bool)
    requires Closure.Complete(m.value, test) && IsPair(m.value, column, symbol)
    ensures Closure.Complete(m.value, test[column := symbol])
    ensures skip <==> symbol == test[column] || (!tolerate && !Valid(m.mft, Encode(m.value, test[column := symbol])))
  {
    skip := symbol == test[column];
    if !skip && !tolerate {
      var ok := CheckTest(m, test[column := symbol]);
      skip := !ok;
    }
  }

  /** Models `innerSearch(model, N)` (lines 157-250), with the round counter
      advanced on every pass, discarded ones included. The model comes fresh
      from `initialization` and `removeInvalidCombinations`, so `combAll` is
      its number of uncovered cells; `nextInt(N)` and `nextInt(parameter)`
      need N >= 1 and a parameter. A non-empty result has N tests, all
      valid, that hit every valid combination; the loop makes at most
      `maxRound` passes. */
  method InnerSearch(m: CTModel, tolerate: bool, N: nat, maxRound: nat, rand: nat -> nat,
                     accept: nat -> bool, tries: nat)
    returns (found: seq<seq<int>>, passes: nat)
    requires Laid(m) && m.combAll == Uncovered(m.combination.matrix)
    requires N >= 1 && |m.value| >= 1
    ensures found != [] ==> |found| == N && Tests(m, found) && AllHit(m, found) && AllValid(m, found)
    ensures passes <= maxRound
  {
    var init, cover, uncoverNum, violateCons, k := Start(m, tolerate, N, rand, 0, tries);
    passes := 0;
    if init.None? {
      return [], passes;
    }
    var A := init.value;
    var round := 0;
    while round < maxRound
      invariant Searching(m, tolerate, N, A, cover, uncoverNum, violateCons)
      invariant passes == round <= maxRound
      decreases maxRound - round
    {
      var (row, column, symbol) := Draws(m.value, N, rand, k);
      k := k + 3;
      passes := passes + 1;
      var skip := Skipped(m, tolerate, A[row], column, symbol);
      if !skip {
        A, cover, uncoverNum, violateCons :=
          Move(m, tolerate, N, A, cover, uncoverNum, violateCons, row, A[row][column := symbol], accept(round));
        if uncoverNum == 0 && violateCons == 0 {
          Success(m, tolerate, N, A, cover);
          return A, passes;
        }
      }
      round := round + 1;
    }
    return [], passes;
  }

  /** Every domain has a single value. */
  predicate AllOnes(value: seq<int>)
  {
    forall i :: 0 <= i < |value| ==> value[i] == 1
  }

  /** The loop of `innerSearch` as written, run for at most `budget` passes
      from a search state: a discarded pass `continue`s past `round++`. It
      returns like the source on a covering array; with every domain of
      size 1 each pass is discarded, so round stays 0 and it never returns,
      whatever the budget: the source loop does not terminate there. */
  method InnerLoopAsWritten(m: CTModel, tolerate: bool, N: nat, maxRound: nat, rand: nat -> nat,
                            accept: nat -> bool, A0: seq<seq<int>>, cover0: seq<seq<int>>,
                            uncover0: int, violate0: int, k0: nat, budget: nat)
    returns (A: seq<seq<int>>, round: nat, passes: nat, returned: bool)
    requires Laid(m) && Searching(m, tolerate, N, A0, cover0, uncover0, violate0)
    requires N >= 1 && |m.value| >= 1
    ensures returned ==> |A| == N && Tests(m, A) && AllHit(m, A) && AllValid(m, A)
    ensures AllOnes(m.value) && maxRound > 0 ==> !returned && round == 0 && passes == budget
  {
    A := A0;
    var cover, uncoverNum, violateCons, k := cover0, uncover0, violate0, k0;
    round, passes, returned := 0, 0, false;
    while round < maxRound && passes < budget
      invariant Searching(m, tolerate, N, A, cover, uncoverNum, violateCons)
      invariant passes <= budget
      invariant AllOnes(m.value) ==> round == 0
      decreases budget - passes
    {
      var (row, column, symbol) := Draws(m.value, N, rand, k);
      k := k + 3;
      passes := passes + 1;
      var skip := Skipped(m, tolerate, A[row], column, symbol);
      if AllOnes(m.value) {
        assert A[row][column] == 0 == symbol;
      }
      if skip {
        continue;
      }
      A, cover, uncoverNum, violateCons :=
        Move(m, tolerate, N, A, cover, uncoverNum, violateCons, row, A[row][column := symbol], accept(round));
      if uncoverNum == 0 && violateCons == 0 {
        Success(m, tolerate, N, A, cover);
        returned := true;
        return;
      }
      round := round + 1;
    }
  }
}
