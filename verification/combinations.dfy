/** The coverage bookkeeping of `CTModel`: the matrix of t-way combinations,
    one row per parameter combination (in `allPc` order) and one cell per value
    combination (in mixed-radix order), a cell being true once its combination
    is covered or known to be invalid; `combUncovered` counts the false cells. */
module Combinations {
  import opened Wrappers
  import opened Binomial
  import opened Subsets
  import opened MixedRadix
  import opened BoolMatrix
  import opened Coverage
  import opened Ids
  import Closure
  import opened CombinatorialModel

  /** A t-way parameter combination of the model. */
  predicate IsPosition(m: CTModel, pos: seq<int>)
  {
    |pos| == m.tWay && IsSubsetOf(pos, 0, |m.value|)
  }

  /** The coverage matrix is laid out: one row per parameter combination, as
      wide as its number of value combinations. */
  ghost predicate Laid(m: CTModel)
  {
    ValidValues(m.value) &&
    m.allPc == Positions(|m.value|, m.tWay) &&
    |m.combination.matrix| == |m.allPc| &&
    forall r :: 0 <= r < |m.allPc| ==>
      m.combination.matrix[r].Some? && |m.combination.matrix[r].value| == Prod(Radices(m.allPc[r], m.value))
  }

  /** The coverage state is set up: the matrix is laid out, the pool of zero
      cells is complete, and `combUncovered` is the number of false cells. */
  ghost predicate Shaped(m: CTModel)
  {
    Laid(m) && Complete(m.combination) && m.combUncovered == Uncovered(m.combination.matrix)
  }

  /** Row r of `allPc` is a t-way parameter combination of rank r. */
  lemma PositionOf(m: CTModel, r: int)
    requires Laid(m) && 0 <= r < |m.allPc|
    ensures IsPosition(m, m.allPc[r]) && RankFrom(m.allPc[r], 0, |m.value|) == r
  {
    PositionAt(|m.value|, m.tWay, r);
  }

  lemma RadicesPositive(value: seq<int>, pos: seq<int>)
    requires ValidValues(value) && ValidPositions(pos, value)
    ensures Positive(Radices(pos, value))
  {
  }

  /** The cell of the t-way combination (pos, sch): row `combine2num(pos)`,
      column `val2num(pos, sch)`. */
  function CellOf(m: CTModel, pos: seq<int>, sch: seq<int>): (p: Position)
    requires Laid(m) && IsPosition(m, pos) && Digits(sch, Radices(pos, m.value))
    ensures IsCell(m.combination, p) && m.allPc[p.row] == pos
    ensures p.row == RankFrom(pos, 0, |m.value|) && p.column == Rank(sch, Radices(pos, m.value))
  {
    PositionRow(|m.value|, m.tWay, pos);
    RankBounds(sch, Radices(pos, m.value));
    Position(RankFrom(pos, 0, |m.value|), Rank(sch, Radices(pos, m.value)))
  }

  /** The value combination of a cell. */
  function SchemaAt(m: CTModel, p: Position): (sch: seq<int>)
    requires Laid(m) && IsCell(m.combination, p)
    ensures Digits(sch, Radices(m.allPc[p.row], m.value))
    ensures IsPosition(m, m.allPc[p.row]) && CellOf(m, m.allPc[p.row], sch) == p
  {
    var r := Radices(m.allPc[p.row], m.value);
    PositionOf(m, p.row);
    RadicesPositive(m.value, m.allPc[p.row]);
    MixedRadix.RankOfUnrank(p.column, r);
    MixedRadix.Unrank(p.column, r)
  }

  /** The combination (pos, sch) is marked in the matrix. */
  ghost predicate CoveredAt(m: CTModel, pos: seq<int>, sch: seq<int>)
    requires Laid(m) && IsPosition(m, pos) && Digits(sch, Radices(pos, m.value))
  {
    var p := CellOf(m, pos, sch);
    GetElement(m.combination, p.row, p.column)
  }

  /** m' differs from m at most in its coverage matrix and counters. */
  predicate SameModel(m: CTModel, m': CTModel)
  {
    m' == m.(combination := m'.combination, combAll := m'.combAll, combUncovered := m'.combUncovered)
  }

  /** The cells of m' are those of m, and no true cell of m is false in m'. */
  ghost predicate Grows(m: CTModel, m': CTModel)
  {
    forall p :: IsCell(m.combination, p) ==>
      IsCell(m'.combination, p) &&
      (GetElement(m.combination, p.row, p.column) ==> GetElement(m'.combination, p.row, p.column))
  }

  /** Models `covered(position, schema, FLAG)` (lines 334-348): the cell of
      the combination tells whether it is covered; with the flag, an uncovered
      cell is marked and `combUncovered` drops by one. Nothing else changes. */
  method Covered(m: CTModel, position: seq<int>, schema: seq<int>, flag: bool) returns (cov: bool, m': CTModel)
    requires Shaped(m) && IsPosition(m, position) && Digits(schema, Radices(position, m.value))
    ensures cov == CoveredAt(m, position, schema)
    ensures Shaped(m') && SameModel(m, m') && m'.combAll == m.combAll && Grows(m, m')
    ensures !flag || cov ==> m' == m
    ensures flag ==> CoveredAt(m', position, schema)
    ensures forall p :: IsCell(m.combination, p) && p != CellOf(m, position, schema) ==>
      GetElement(m'.combination, p.row, p.column) == GetElement(m.combination, p.row, p.column)
    ensures m'.combUncovered == m.combUncovered - (if flag && !cov then 1 else 0)
  {
    var row := Combine2Num(position, |m.value|, m.tWay);
    var column := Val2Num(position, schema, m.value);
    ghost var p := CellOf(m, position, schema);
    assert row == p.row && column == p.column;
    cov := GetElement(m.combination, row, column);
    m' := m;
    if !cov && flag {
      m' := MarkCell(m, Position(row, column));
      assert CellOf(m', position, schema) == p;
    }
  }

  /** The model with the false cell p marked and one uncovered cell fewer. */
  function MarkCell(m: CTModel, p: Position): (m': CTModel)
    requires Shaped(m) && IsCell(m.combination, p) && !GetElement(m.combination, p.row, p.column)
    ensures Shaped(m') && SameModel(m, m') && m'.combAll == m.combAll && Grows(m, m')
    ensures GetElement(m'.combination, p.row, p.column)
    ensures forall q :: IsCell(m.combination, q) && q != p ==>
      GetElement(m'.combination, q.row, q.column) == GetElement(m.combination, q.row, q.column)
    ensures m'.combUncovered == m.combUncovered - 1
  {
    SetTrueKeepsComplete(m.combination, p.row, p.column);
    SetTrueUncovered(m.combination, p.row, p.column);
    m.(combination := SetElement(m.combination, p.row, p.column, true), combUncovered := m.combUncovered - 1)
  }

  /** The cell, in row r, of the combination that a complete test covers there. */
  function TestCell(m: CTModel, r: int, test: seq<int>): (p: Position)
    requires Laid(m) && 0 <= r < |m.allPc| && Closure.Complete(m.value, test)
    ensures IsCell(m.combination, p) && p.row == r
  {
    var pos := m.allPc[r];
    PositionOf(m, r);
    assert Digits(Proj(test, pos), Radices(pos, m.value));
    CellOf(m, pos, Proj(test, pos))
  }

  /** The test's combination in row r is marked. */
  ghost predicate TestCovered(m: CTModel, r: int, test: seq<int>)
    requires Laid(m) && 0 <= r < |m.allPc| && Closure.Complete(m.value, test)
  {
    var p := TestCell(m, r, test);
    GetElement(m.combination, p.row, p.column)
  }

  /** The column of a test's combination is its mixed-radix rank. */
  lemma TestColumn(m: CTModel, r: int, test: seq<int>)
    requires Laid(m) && 0 <= r < |m.allPc| && Closure.Complete(m.value, test)
    ensures TestCell(m, r, test).column == Rank(Proj(test, m.allPc[r]), Radices(m.allPc[r], m.value))
    ensures TestCell(m, r, test).column < Prod(Radices(m.allPc[r], m.value))
  {
  }

  /** The cell layout depends only on the parameters and `allPc`. */
  lemma SameLayout(m: CTModel, m': CTModel, r: int, test: seq<int>)
    requires Laid(m) && Laid(m') && SameModel(m, m') && 0 <= r < |m.allPc| && Closure.Complete(m.value, test)
    ensures TestCell(m', r, test) == TestCell(m, r, test)
  {
  }

  /** The rows below `upto` whose combination, in the test, is not yet covered. */
  ghost function UncoveredRows(m: CTModel, test: seq<int>, upto: int): set<int>
    requires Laid(m) && 0 <= upto <= |m.allPc| && Closure.Complete(m.value, test)
  {
    set r | 0 <= r < upto && !TestCovered(m, r, test)
  }

  /** Every cell of m' is as in m, except the test's cells in the rows below i. */
  ghost predicate OnlyTestCells(m: CTModel, m': CTModel, test: seq<int>, i: int)
    requires Laid(m) && Closure.Complete(m.value, test)
  {
    forall p :: IsCell(m.combination, p) && (p.row >= i || p != TestCell(m, p.row, test)) ==>
      IsCell(m'.combination, p) && GetElement(m'.combination, p.row, p.column) == GetElement(m.combination, p.row, p.column)
  }

  /** The test's combinations in the rows below i are marked. */
  ghost predicate CoveredBelow(m: CTModel, test: seq<int>, i: int)
    requires Laid(m) && 0 <= i <= |m.allPc| && Closure.Complete(m.value, test)
  {
    forall r :: 0 <= r < i ==> TestCovered(m, r, test)
  }

  /** The state of `fitness` after rows below i, started from m: m' is m with
      the test's cells below i marked when flag holds, and num counts the rows
      below i where the test's combination was uncovered in m. */
  ghost predicate FitnessState(m: CTModel, m': CTModel, test: seq<int>, flag: bool, num: int, i: int)
    requires Laid(m) && Closure.Complete(m.value, test) && 0 <= i <= |m.allPc|
  {
    Shaped(m') && SameModel(m, m') && m'.combAll == m.combAll && Grows(m, m') &&
    (!flag ==> m' == m) &&
    num == |UncoveredRows(m, test, i)| &&
    m'.combUncovered == m.combUncovered - (if flag then num else 0) &&
    (flag ==> CoveredBelow(m', test, i)) &&
    OnlyTestCells(m, m', test, i)
  }

  /** One row of the loop of `fitness` (lines 315-322). */
  method FitnessRow(m: CTModel, m0: CTModel, test: seq<int>, flag: bool, num: int, i: int) returns (num': int, m': CTModel)
    requires Shaped(m) && Closure.Complete(m.value, test) && 0 <= i < |m.allPc|
    requires FitnessState(m, m0, test, flag, num, i)
    ensures FitnessState(m, m', test, flag, num', i + 1)
  {
    var cov;
    cov, m' := FitnessMark(m, m0, test, flag, i);
    UncoveredRowsStep(m, test, i);
    num' := if cov then num else num + 1;
  }

  /** Looks up, and with the flag marks, the test's combination in row i. */
  method FitnessMark(m: CTModel, m0: CTModel, test: seq<int>, flag: bool, i: int) returns (cov: bool, m': CTModel)
    requires Shaped(m) && Closure.Complete(m.value, test) && 0 <= i < |m.allPc|
    requires Shaped(m0) && SameModel(m, m0) && m0.combAll == m.combAll && Grows(m, m0)
    requires !flag ==> m0 == m
    requires OnlyTestCells(m, m0, test, i)
    requires flag ==> CoveredBelow(m0, test, i)
    ensures cov == TestCovered(m, i, test)
    ensures Shaped(m') && SameModel(m, m') && m'.combAll == m.combAll && Grows(m, m')
    ensures !flag ==> m' == m
    ensures OnlyTestCells(m, m', test, i + 1)
    ensures flag ==> CoveredBelow(m', test, i + 1)
    ensures m'.combUncovered == m0.combUncovered - (if flag && !cov then 1 else 0)
  {
    var position := m.allPc[i];
    var schema := Proj(test, position);
    SameLayout(m, m0, i, test);
    PositionOf(m, i);
    ghost var cell := TestCell(m, i, test);
    assert cell == CellOf(m0, position, schema);
    cov, m' := Covered(m0, position, schema, flag);
    if flag {
      forall r | 0 <= r < i + 1
        ensures TestCovered(m', r, test)
      {
        SameLayout(m0, m', r, test);
        if r < i {
          assert TestCovered(m0, r, test);
          assert TestCell(m0, r, test) != cell;
        }
      }
    }
  }

  /** One more row adds one uncovered row exactly when the test's combination there is uncovered. */
  lemma UncoveredRowsStep(m: CTModel, test: seq<int>, i: int)
    requires Laid(m) && 0 <= i < |m.allPc| && Closure.Complete(m.value, test)
    ensures |UncoveredRows(m, test, i + 1)| == |UncoveredRows(m, test, i)| + (if TestCovered(m, i, test) then 0 else 1)
  {
    var extra := if TestCovered(m, i, test) then {} else {i};
    forall x
      ensures x in UncoveredRows(m, test, i + 1) <==> x in UncoveredRows(m, test, i) + extra
    {
    }
    assert UncoveredRows(m, test, i + 1) == UncoveredRows(m, test, i) + extra;
  }

  /** Models `fitness(test, FLAG)` (lines 312-324): the number of t-way
      combinations of the test that are not yet covered; with the flag, they
      are all marked, and exactly the test's cells change. */
  method Fitness(m: CTModel, test: seq<int>, flag: bool) returns (num: int, m': CTModel)
    requires Shaped(m) && Closure.Complete(m.value, test)
    ensures num == |UncoveredRows(m, test, |m.allPc|)|
    ensures !flag ==> m' == m
    ensures Shaped(m') && SameModel(m, m') && m'.combAll == m.combAll && Grows(m, m')
    ensures m'.combUncovered == m.combUncovered - (if flag then num else 0)
    ensures flag ==> CoveredBelow(m', test, |m.allPc|)
    ensures OnlyTestCells(m, m', test, |m.allPc|)
  {
    num := 0;
    m' := m;
    var i := 0;
    assert UncoveredRows(m, test, 0) == {};
    while i < |m.allPc|
      invariant 0 <= i <= |m.allPc|
      invariant FitnessState(m, m', test, flag, num, i)
    {
      num, m' := FitnessRow(m, m', test, flag, num, i);
      i := i + 1;
    }
  }

  /** A set of integers below n has at most n elements. */
  lemma {:induction false} BoundedCardinality(s: set<int>, n: nat)
    requires forall x :: x in s ==> 0 <= x < n
    ensures |s| <= n
  {
    if n > 0 {
      BoundedCardinality(s - {n - 1}, n - 1);
    } else {
      assert forall x :: x !in s;
      assert s == {};
    }
  }

  /** Models `fitnessValue(int[])` (lines 257-259): the number of the test's
      combinations still uncovered, which is 0 exactly when all of them are
      covered; the model is left as it is. */
  method FitnessValueOf(m: CTModel, test: seq<int>) returns (num: int)
    requires Shaped(m) && Closure.Complete(m.value, test)
    ensures num == |UncoveredRows(m, test, |m.allPc|)|
    ensures 0 <= num <= |m.allPc|
    ensures num == 0 <==> CoveredBelow(m, test, |m.allPc|)
  {
    var m';
    num, m' := Fitness(m, test, false);
    ghost var rows := UncoveredRows(m, test, |m.allPc|);
    BoundedCardinality(rows, |m.allPc|);
    forall r | 0 <= r < |m.allPc| && !TestCovered(m, r, test)
      ensures r in rows
    {
    }
    if num != 0 {
      ghost var r :| r in rows;
    }
  }

  /** Models `updateCombination(test)` (lines 302-304): every combination of
      the test is covered afterwards, so its fitness drops to 0; the count of
      uncovered cells drops by the test's fitness. */
  method UpdateCombination(m: CTModel, test: seq<int>) returns (m': CTModel)
    requires Shaped(m) && Closure.Complete(m.value, test)
    ensures Shaped(m') && SameModel(m, m') && m'.combAll == m.combAll && Grows(m, m')
    ensures m'.combUncovered == m.combUncovered - |UncoveredRows(m, test, |m.allPc|)|
    ensures UncoveredRows(m', test, |m'.allPc|) == {}
  {
    var num;
    num, m' := Fitness(m, test, true);
  }

  /** The columns, in row r, of the combinations the tests of a suite cover. */
  ghost function ColumnsHit(m: CTModel, r: int, suite: seq<seq<int>>): set<int>
    requires Laid(m) && 0 <= r < |m.allPc|
    requires forall q :: 0 <= q < |suite| ==> Closure.Complete(m.value, suite[q])
  {
    set q | 0 <= q < |suite| :: TestCell(m, r, suite[q]).column
  }

  /** Appending a test adds its column. */
  lemma ColumnsHitStep(m: CTModel, r: int, suite: seq<seq<int>>, q: int)
    requires Laid(m) && 0 <= r < |m.allPc| && 0 <= q < |suite|
    requires forall q :: 0 <= q < |suite| ==> Closure.Complete(m.value, suite[q])
    ensures ColumnsHit(m, r, suite[..q + 1]) == ColumnsHit(m, r, suite[..q]) + {TestCell(m, r, suite[q]).column}
  {
    var a := suite[..q + 1];
    var b := suite[..q];
    assert forall k :: 0 <= k < q ==> a[k] == b[k];
    assert a[q] == suite[q];
    forall x
      ensures x in ColumnsHit(m, r, a) <==> x in ColumnsHit(m, r, b) + {TestCell(m, r, suite[q]).column}
    {
      if x in ColumnsHit(m, r, a) {
        var k :| 0 <= k < q + 1 && x == TestCell(m, r, a[k]).column;
        if k < q {
          assert x == TestCell(m, r, b[k]).column;
        }
      }
      if x in ColumnsHit(m, r, b) {
        var k :| 0 <= k < q && x == TestCell(m, r, b[k]).column;
        assert x == TestCell(m, r, a[k]).column;
      }
    }
  }

  /** The columns hit lie within the row. */
  lemma ColumnsHitInRow(m: CTModel, r: int, suite: seq<seq<int>>)
    requires Laid(m) && 0 <= r < |m.allPc|
    requires forall q :: 0 <= q < |suite| ==> Closure.Complete(m.value, suite[q])
    ensures forall x :: x in ColumnsHit(m, r, suite) ==> 0 <= x < Prod(Radices(m.allPc[r], m.value))
  {
  }

  /** The number of distinct combinations a suite covers in rows below upto. */
  ghost function SuiteCovered(m: CTModel, suite: seq<seq<int>>, upto: int): int
    requires Laid(m) && 0 <= upto <= |m.allPc|
    requires forall q :: 0 <= q < |suite| ==> Closure.Complete(m.value, suite[q])
  {
    if upto == 0 then 0 else SuiteCovered(m, suite, upto - 1) + |ColumnsHit(m, upto - 1, suite)|
  }

  /** A single test covers exactly one combination per row. */
  lemma {:induction false} SingleTestCovers(m: CTModel, test: seq<int>, upto: int)
    requires Laid(m) && 0 <= upto <= |m.allPc| && Closure.Complete(m.value, test)
    ensures SuiteCovered(m, [test], upto) == upto
  {
    if upto > 0 {
      SingleTestCovers(m, test, upto - 1);
      OneColumn(m, upto - 1, test);
    }
  }

  /** A single test hits one column of a row. */
  lemma OneColumn(m: CTModel, r: int, test: seq<int>)
    requires Laid(m) && 0 <= r < |m.allPc| && Closure.Complete(m.value, test)
    ensures |ColumnsHit(m, r, [test])| == 1
  {
    var c := TestCell(m, r, test).column;
    assert [test][0] == test;
    assert c in ColumnsHit(m, r, [test]);
    assert forall x :: x in ColumnsHit(m, r, [test]) ==> x == c;
    assert ColumnsHit(m, r, [test]) == {c};
  }

  /** The array `cover` marks exactly the columns in `hit`, and `covered` counts them. */
  ghost predicate Marks(cover: seq<bool>, hit: set<int>, covered: int)
  {
    (forall x :: 0 <= x < |cover| ==> (cover[x] <==> x in hit)) && covered == |hit|
  }

  /** Counts the distinct combinations a suite covers in row r, marking them in
      a fresh array (lines 275-289). */
  method CountRow(m: CTModel, r: int, suite: seq<seq<int>>) returns (covered: int)
    requires Laid(m) && 0 <= r < |m.allPc|
    requires forall q :: 0 <= q < |suite| ==> Closure.Complete(m.value, suite[q])
    ensures covered == |ColumnsHit(m, r, suite)|
  {
    var pos := m.allPc[r];
    var len := CombineValue(pos, m.value);
    var cover := seq(len, _ => false);
    covered := 0;
    var q := 0;
    ghost var hit: set<int> := {};
    assert ColumnsHit(m, r, suite[..0]) == {};
    while q < |suite|
      invariant 0 <= q <= |suite| && |cover| == len
      invariant hit == ColumnsHit(m, r, suite[..q])
      invariant Marks(cover, hit, covered)
    {
      cover, covered, hit := CountStep(m, r, suite, q, cover, covered, hit);
      q := q + 1;
    }
    assert suite[..q] == suite;
  }

  /** One test of the loop of `CountRow`. */
  method CountStep(m: CTModel, r: int, suite: seq<seq<int>>, q: int, cover: seq<bool>, covered: int, ghost hit: set<int>)
    returns (cover': seq<bool>, covered': int, ghost hit': set<int>)
    requires Laid(m) && 0 <= r < |m.allPc| && 0 <= q < |suite|
    requires forall q :: 0 <= q < |suite| ==> Closure.Complete(m.value, suite[q])
    requires |cover| == Prod(Radices(m.allPc[r], m.value))
    requires hit == ColumnsHit(m, r, suite[..q]) && Marks(cover, hit, covered)
    ensures |cover'| == |cover| && hit' == ColumnsHit(m, r, suite[..q + 1]) && Marks(cover', hit', covered')
  {
    var pos := m.allPc[r];
    var sch := Proj(suite[q], pos);
    var index := Val2Num(pos, sch, m.value);
    TestColumn(m, r, suite[q]);
    ColumnsHitStep(m, r, suite, q);
    MarkStep(cover, hit, index);
    cover', covered' := cover, covered;
    if !cover[index] {
      cover' := cover[index := true];
      covered' := covered + 1;
    }
    hit' := hit + {index};
  }

  /** Marking one more index in an array that marks exactly a set marks the
      set with that index added. */
  lemma MarkStep(cover: seq<bool>, hit: set<int>, index: int)
    requires forall x :: 0 <= x < |cover| ==> (cover[x] <==> x in hit)
    requires 0 <= index < |cover|
    ensures forall x :: 0 <= x < |cover| ==> (cover[index := true][x] <==> x in hit + {index})
    ensures |hit + {index}| == |hit| + (if cover[index] then 0 else 1)
  {
    if cover[index] {
      assert hit + {index} == hit;
    }
  }

  /** Models `fitnessValue(ArrayList<int[]>)` (lines 267-294): -1 for an empty
      suite; otherwise `combUncovered` becomes `combAll` less the number of
      distinct combinations the suite covers, and is returned. */
  method FitnessValue(m: CTModel, suite: seq<seq<int>>) returns (res: int, m': CTModel)
    requires Laid(m)
    requires forall q :: 0 <= q < |suite| ==> Closure.Complete(m.value, suite[q])
    ensures |suite| == 0 ==> res == -1 && m' == m
    ensures |suite| > 0 ==> res == m.combAll - SuiteCovered(m, suite, |m.allPc|) && m' == m.(combUncovered := res)
  {
    if |suite| == 0 {
      return -1, m;
    }
    var totalCovered := TotalCovered(m, suite);
    res := m.combAll - totalCovered;
    m' := m.(combUncovered := res);
  }

  /** The loop of `fitnessValue` over the rows (lines 275-291). */
  method TotalCovered(m: CTModel, suite: seq<seq<int>>) returns (total: int)
    requires Laid(m)
    requires forall q :: 0 <= q < |suite| ==> Closure.Complete(m.value, suite[q])
    ensures total == SuiteCovered(m, suite, |m.allPc|)
  {
    total := 0;
    var r := 0;
    while r < |m.allPc|
      invariant 0 <= r <= |m.allPc|
      invariant total == SuiteCovered(m, suite, r)
    {
      total := CountThrough(m, suite, r, total);
      r := r + 1;
    }
  }

  /** Adds the combinations the suite covers in row r to the count of those below. */
  method CountThrough(m: CTModel, suite: seq<seq<int>>, r: int, total: int) returns (total': int)
    requires Laid(m) && 0 <= r < |m.allPc|
    requires forall q :: 0 <= q < |suite| ==> Closure.Complete(m.value, suite[q])
    requires total == SuiteCovered(m, suite, r)
    ensures total' == SuiteCovered(m, suite, r + 1)
  {
    var covered := CountRow(m, r, suite);
    total' := total + covered;
  }

  /** The number of value combinations of the parameter combinations pcs. */
  function TupleCount(value: seq<int>, pcs: seq<seq<int>>): int
    requires forall i :: 0 <= i < |pcs| ==> ValidPositions(pcs[i], value)
  {
    if |pcs| == 0 then 0 else TupleCount(value, pcs[..|pcs| - 1]) + Prod(Radices(pcs[|pcs| - 1], value))
  }

  lemma {:induction false} NoRowsNoCells(m: seq<Option<seq<bool>>>)
    requires forall i :: 0 <= i < |m| ==> m[i].None?
    ensures Sum(Widths(m)) == 0
  {
    if |m| > 0 {
      NoRowsNoCells(m[..|m| - 1]);
      assert Widths(m)[..|m| - 1] == Widths(m[..|m| - 1]);
    }
  }

  /** Row r holds one false cell per value combination of pcs[r]. */
  ghost predicate FalseRow(b: BArray, value: seq<int>, pcs: seq<seq<int>>, r: int)
    requires 0 <= r < |b.matrix| && 0 <= r < |pcs| && ValidPositions(pcs[r], value)
  {
    b.matrix[r].Some? && |b.matrix[r].value| == Prod(Radices(pcs[r], value)) &&
    b.matrix[r].value == seq(|b.matrix[r].value|, _ => false)
  }

  /** The row loop of `initialization` (lines 183-193): rows below i are false
      rows, the rest null, and `raw` counts the cells made so far. */
  method InitializeRows(value: seq<int>, pcs: seq<seq<int>>, rows: nat) returns (b: BArray, raw: int)
    requires ValidValues(value) && |pcs| == rows
    requires forall i :: 0 <= i < |pcs| ==> ValidPositions(pcs[i], value)
    ensures |b.matrix| == rows && AllRowsInitialised(b)
    ensures forall r :: 0 <= r < rows ==> FalseRow(b, value, pcs, r)
    ensures b.zeroTotal == Sum(Widths(b.matrix)) && raw == b.zeroTotal
    ensures raw == TupleCount(value, pcs)
  {
    b := NewRows(rows);
    NoRowsNoCells(b.matrix);
    raw := 0;
    var i := 0;
    while i < |pcs|
      invariant 0 <= i <= |pcs| && |b.matrix| == |pcs|
      invariant forall r :: 0 <= r < i ==> FalseRow(b, value, pcs, r)
      invariant forall r :: i <= r < |pcs| ==> b.matrix[r].None?
      invariant b.zeroTotal == Sum(Widths(b.matrix)) && raw == b.zeroTotal
      invariant raw == TupleCount(value, pcs[..i])
    {
      assert pcs[..i + 1][..i] == pcs[..i];
      var cc := CombineValue(pcs[i], value);
      ghost var before := b;
      b := InitializeRow(b, i, cc);
      assert FalseRow(b, value, pcs, i);
      forall r | 0 <= r < i
        ensures FalseRow(b, value, pcs, r)
      {
        assert FalseRow(before, value, pcs, r);
      }
      raw := raw + cc;
      i := i + 1;
    }
    assert pcs[..i] == pcs;
    forall r | 0 <= r < rows
      ensures b.matrix[r].Some?
    {
      assert FalseRow(b, value, pcs, r);
    }
  }

  /** Models `initialization()` (lines 173-196): `allPc` lists the t-way
      parameter combinations, row i of the matrix gets one false cell per value
      combination of `allPc[i]`, the pool lists every cell, and `combRaw`,
      `combAll` and `combUncovered` all become the number of cells. */
  method Initialization(m: CTModel) returns (m': CTModel)
    requires ValidValues(m.value) && m.uniformRow == Binom(|m.value|, m.tWay)
    ensures Shaped(m')
    ensures m' == m.(allPc := m'.allPc, combination := m'.combination, combRaw := m'.combRaw,
                     combAll := m'.combAll, combUncovered := m'.combUncovered)
    ensures |m'.combination.matrix| == m.uniformRow
    ensures forall p :: IsCell(m'.combination, p) ==> !GetElement(m'.combination, p.row, p.column)
    ensures PoolExact(m'.combination)
    ensures m'.combRaw == TupleCount(m'.value, m'.allPc)
    ensures m'.combAll == m'.combRaw && m'.combUncovered == m'.combRaw
  {
    var allPc := AllCombination(|m.value|, m.tWay);
    assert allPc == Positions(|m.value|, m.tWay);
    var b0, raw := InitializeRows(m.value, allPc, m.uniformRow);
    var b := InitializeZeros(b0);
    forall i | 0 <= i < |b.matrix|
      ensures b.matrix[i].Some? && b.matrix[i].value == seq(|b.matrix[i].value|, _ => false)
    {
      assert FalseRow(b0, m.value, allPc, i);
    }
    UncoveredAllFalse(b.matrix);
    m' := m.(allPc := allPc, combination := b, combRaw := raw, combAll := raw, combUncovered := raw);
    forall p | IsCell(m'.combination, p)
      ensures !GetElement(m'.combination, p.row, p.column)
    {
      assert FalseRow(b0, m.value, allPc, p.row);
    }
    forall r | 0 <= r < |allPc|
      ensures b.matrix[r].Some? && |b.matrix[r].value| == Prod(Radices(allPc[r], m.value))
    {
      assert FalseRow(b0, m.value, allPc, r);
    }
  }

  /** Cell p comes before cell (r, c) in row-major order. */
  predicate Before(p: Position, r: int, c: int)
  {
    p.row < r || (p.row == r && p.column < c)
  }

  /** Every cell of m' is its cell of m, marked as well when it comes before
      (r, c) and its combination is invalid. */
  ghost predicate InvalidMarked(m: CTModel, m': CTModel, r: int, c: int)
    requires Shaped(m)
  {
    forall p :: IsCell(m.combination, p) ==>
      IsCell(m'.combination, p) &&
      GetElement(m'.combination, p.row, p.column) ==
      (GetElement(m.combination, p.row, p.column) || (Before(p, r, c) && !TupleValid(m, m.allPc[p.row], SchemaAt(m, p))))
  }

  /** The body of the inner loop of `removeInvalidCombinations` (lines 209-211)
      for cell (r, c), whose combination is sch. */
  method RemoveInvalidCell(m: CTModel, m0: CTModel, r: int, c: int, sch: seq<int>) returns (m': CTModel)
    requires Shaped(m) && IsCell(m.combination, Position(r, c)) && sch == SchemaAt(m, Position(r, c))
    requires Shaped(m0) && SameModel(m, m0) && InvalidMarked(m, m0, r, c)
    ensures Shaped(m') && SameModel(m, m') && InvalidMarked(m, m', r, c + 1)
    ensures m'.combAll - m'.combUncovered == m0.combAll - m0.combUncovered
  {
    var pos := m.allPc[r];
    ghost var cell := Position(r, c);
    assert CellOf(m0, pos, sch) == cell;
    var valid := IsValidAt(m0, pos, sch);
    m' := m0;
    if !valid {
      var cov;
      cov, m' := Covered(m0, pos, sch, true);
      if !cov {
        m' := m'.(combAll := m'.combAll - 1);
      }
    }
    forall p | IsCell(m.combination, p)
      ensures IsCell(m'.combination, p)
      ensures GetElement(m'.combination, p.row, p.column) ==
        (GetElement(m.combination, p.row, p.column) || (Before(p, r, c + 1) && !TupleValid(m, m.allPc[p.row], SchemaAt(m, p))))
    {
      if p != cell {
        assert Before(p, r, c + 1) == Before(p, r, c);
      }
    }
  }

  /** A row's worth of cells completes the row. */
  lemma RowDone(m: CTModel, m': CTModel, r: int)
    requires Shaped(m) && 0 <= r < |m.allPc|
    requires InvalidMarked(m, m', r, Prod(Radices(m.allPc[r], m.value)))
    ensures InvalidMarked(m, m', r + 1, 0)
  {
    forall p | IsCell(m.combination, p)
      ensures Before(p, r, Prod(Radices(m.allPc[r], m.value))) == Before(p, r + 1, 0)
    {
    }
  }

  /** The inner loop of lines 208-212 for row r. */
  method RemoveInvalidRow(m: CTModel, m0: CTModel, r: int) returns (m': CTModel)
    requires Shaped(m) && 0 <= r < |m.allPc|
    requires Shaped(m0) && SameModel(m, m0) && InvalidMarked(m, m0, r, 0)
    ensures Shaped(m') && SameModel(m, m') && InvalidMarked(m, m', r + 1, 0)
    ensures m'.combAll - m'.combUncovered == m0.combAll - m0.combUncovered
  {
    var pos := m.allPc[r];
    RadicesPositive(m.value, pos);
    var data := AllV(pos, m.value);
    m' := m0;
    var c := 0;
    while c < |data|
      invariant 0 <= c <= |data|
      invariant Shaped(m') && SameModel(m, m') && InvalidMarked(m, m', r, c)
      invariant m'.combAll - m'.combUncovered == m0.combAll - m0.combUncovered
    {
      m' := RemoveInvalidCell(m, m', r, c, data[c]);
      c := c + 1;
    }
    RowDone(m, m', r);
  }

  /** Models `removeInvalidCombinations()` (lines 204-214): every invalid
      combination is marked covered, and each one not marked before is taken
      off `combAll` (and, through `covered`, off `combUncovered`). Valid
      combinations are not touched. */
  method RemoveInvalidCombinations(m: CTModel) returns (m': CTModel)
    requires Shaped(m)
    ensures Shaped(m') && SameModel(m, m') && Grows(m, m')
    ensures m'.combAll - m'.combUncovered == m.combAll - m.combUncovered
    ensures forall p :: IsCell(m.combination, p) ==>
      GetElement(m'.combination, p.row, p.column) ==
      (GetElement(m.combination, p.row, p.column) || !TupleValid(m, m.allPc[p.row], SchemaAt(m, p)))
  {
    m' := m;
    var r := 0;
    while r < |m.allPc|
      invariant 0 <= r <= |m.allPc|
      invariant Shaped(m') && SameModel(m, m') && InvalidMarked(m, m', r, 0)
      invariant m'.combAll - m'.combUncovered == m.combAll - m.combUncovered
    {
      m' := RemoveInvalidRow(m, m', r);
      r := r + 1;
    }
  }

  /** Cell p was false in m and is true in m'. */
  ghost predicate MarkedNow(m: CTModel, m': CTModel, p: Position)
  {
    IsCell(m.combination, p) && IsCell(m'.combination, p) &&
    !GetElement(m.combination, p.row, p.column) && GetElement(m'.combination, p.row, p.column)
  }

  /** Only invalid combinations got marked between m and m'. */
  ghost predicate OnlyInvalidMarked(m: CTModel, m': CTModel)
    requires Shaped(m)
  {
    forall p :: MarkedNow(m, m', p) ==> !TupleValid(m, m.allPc[p.row], SchemaAt(m, p))
  }

  /** m' is m with some invalid combinations marked, and still set up. */
  ghost predicate Progress(m: CTModel, m': CTModel)
    requires Shaped(m)
  {
    Shaped(m') && SameModel(m, m') && m'.combAll == m.combAll && Grows(m, m') && OnlyInvalidMarked(m, m')
  }

  /** The drawn cell e of m' is uncovered, (pos, sch) is its combination and
      `valid` tells whether that combination is valid. */
  ghost predicate Drawn(m: CTModel, m': CTModel, e: Position, pos: seq<int>, sch: seq<int>, valid: bool)
    requires Shaped(m)
  {
    IsCell(m.combination, e) && IsCell(m'.combination, e) && !GetElement(m'.combination, e.row, e.column) &&
    pos == m.allPc[e.row] && sch == SchemaAt(m, e) && valid == TupleValid(m, pos, sch)
  }

  /** The loop body of `getAnUncoveredTuple` (lines 240-245): the invalid
      drawn cell is marked and another cell is drawn. */
  method Retry(m: CTModel, m0: CTModel, e0: Position, rand: nat -> nat)
    returns (e: Option<Position>, pos: seq<int>, sch: seq<int>, valid: bool, m': CTModel)
    requires Shaped(m) && m.tWay >= 1 && Progress(m, m0)
    requires IsCell(m.combination, e0) && Drawn(m, m0, e0, m.allPc[e0.row], SchemaAt(m, e0), false)
    ensures Progress(m, m') && Uncovered(m'.combination.matrix) < Uncovered(m0.combination.matrix)
    ensures e.None? ==> Uncovered(m'.combination.matrix) == 0
    ensures e.Some? ==> Drawn(m, m', e.value, pos, sch, valid)
  {
    var m1 := MarkInvalid(m, m0, e0);
    e, pos, sch, valid, m' := DrawTuple(m, m1, rand);
  }

  /** One draw of `getRandomZeroPosition` (lines 234 and 242): the matrix is
      kept, and a drawn cell is an uncovered one; no draw means every cell is
      covered. */
  method Draw(m0: CTModel, rand: nat -> nat) returns (e: Option<Position>, m': CTModel)
    requires Shaped(m0)
    ensures Shaped(m') && SameModel(m0, m') && m'.combAll == m0.combAll
    ensures m'.combination.matrix == m0.combination.matrix
    ensures e.None? ==> Uncovered(m'.combination.matrix) == 0
    ensures e.Some? ==> IsCell(m'.combination, e.value) && !GetElement(m'.combination, e.value.row, e.value.column)
  {
    var b;
    e, b := GetRandomZeroPosition(m0.combination, rand);
    m' := m0.(combination := b);
    if e.None? {
      var mat := m'.combination.matrix;
      forall i, j | 0 <= i < |mat| && mat[i].Some? && 0 <= j < |mat[i].value|
        ensures mat[i].value[j]
      {
        assert IsCell(m0.combination, Position(i, j));
      }
      UncoveredZero(mat);
    }
  }

  /** The loop body of `getAnUncoveredTuple` (lines 240-245): the invalid
      drawn cell is marked, which leaves one uncovered cell fewer. */
  method MarkInvalid(m: CTModel, m0: CTModel, e: Position) returns (m': CTModel)
    requires Shaped(m) && Shaped(m0) && SameModel(m, m0) && m0.combAll == m.combAll && Grows(m, m0)
    requires IsCell(m0.combination, e) && !GetElement(m0.combination, e.row, e.column)
    requires !TupleValid(m, m.allPc[e.row], SchemaAt(m, e))
    requires OnlyInvalidMarked(m, m0)
    ensures Shaped(m') && SameModel(m, m') && m'.combAll == m.combAll && Grows(m, m')
    ensures OnlyInvalidMarked(m, m')
    ensures Uncovered(m'.combination.matrix) < Uncovered(m0.combination.matrix)
  {
    var pos := m0.allPc[e.row];
    var sch := SchemaAt(m0, e);
    assert CellOf(m0, pos, sch) == e;
    var cov;
    cov, m' := Covered(m0, pos, sch, true);
    forall p | MarkedNow(m, m', p)
      ensures !TupleValid(m, m.allPc[p.row], SchemaAt(m, p))
    {
      if p != e {
        assert MarkedNow(m, m0, p);
      }
    }
  }

  /** A draw together with the combination of the drawn cell and its validity
      (lines 234-239 and 242-245). */
  method DrawTuple(m: CTModel, m0: CTModel, rand: nat -> nat) returns (e: Option<Position>, pos: seq<int>, sch: seq<int>, valid: bool, m': CTModel)
    requires Shaped(m) && m.tWay >= 1
    requires Shaped(m0) && SameModel(m, m0) && m0.combAll == m.combAll && Grows(m, m0) && OnlyInvalidMarked(m, m0)
    ensures Shaped(m') && SameModel(m, m') && m'.combAll == m.combAll && Grows(m, m') && OnlyInvalidMarked(m, m')
    ensures m'.combination.matrix == m0.combination.matrix
    ensures e.None? ==> Uncovered(m'.combination.matrix) == 0
    ensures e.Some? ==> IsCell(m'.combination, e.value) && !GetElement(m'.combination, e.value.row, e.value.column)
    ensures e.Some? ==> pos == m.allPc[e.value.row] && sch == SchemaAt(m, e.value) && valid == TupleValid(m, pos, sch)
  {
    e, m' := Draw(m0, rand);
    assert forall p :: MarkedNow(m, m', p) ==> MarkedNow(m, m0, p);
    if e.None? {
      return e, [], [], false, m';
    }
    pos := m'.allPc[e.value.row];
    PositionOf(m', e.value.row);
    RadicesPositive(m'.value, pos);
    sch := Num2Val(e.value.column, pos, m'.value);
    assert sch == SchemaAt(m', e.value) == SchemaAt(m, e.value);
    valid := IsValidAt(m', pos, sch);
  }

  /** Models `getAnUncoveredTuple()` (lines 223-248) with the corrected checker:
      nothing when `combUncovered` is 0 or the pool runs dry; otherwise random
      zero cells are drawn (draw k of attempt a being `rand(a, k)`), each
      invalid one is marked covered, and the first valid one is returned. */
  method GetAnUncoveredTuple(m: CTModel, rand: (nat, nat) -> nat) returns (t: Option<Tuple>, m': CTModel)
    requires Shaped(m) && m.tWay >= 1
    ensures Shaped(m') && SameModel(m, m') && m'.combAll == m.combAll && Grows(m, m')
    ensures t.None? ==> Uncovered(m'.combination.matrix) == 0
    ensures t.Some? ==> IsPosition(m, t.value.position) && Digits(t.value.schema, Radices(t.value.position, m.value))
    ensures t.Some? ==> TupleValid(m, t.value.position, t.value.schema) && !CoveredAt(m', t.value.position, t.value.schema)
    ensures OnlyInvalidMarked(m, m')
  {
    m' := m;
    if m.combUncovered == 0 {
      return None, m';
    }
    var attempt: nat := 0;
    var e, pos, sch, valid;
    e, pos, sch, valid, m' := DrawTuple(m, m', (k: nat) => rand(attempt, k));
    if e.None? {
      return None, m';
    }
    while !valid
      invariant Progress(m, m') && e.Some? && Drawn(m, m', e.value, pos, sch, valid)
      decreases Uncovered(m'.combination.matrix)
    {
      attempt := attempt + 1;
      e, pos, sch, valid, m' := Retry(m, m', e.value, (k: nat) => rand(attempt, k));
      if e.None? {
        return None, m';
      }
    }
    assert CellOf(m', pos, sch) == e.value;
    t := Some(Tuple(pos, sch));
  }
}
