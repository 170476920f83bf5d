/** The occupancy table `cover` of the simulated-annealing generator `SA`.
    It has one entry per cell of the coverage matrix: -1 for a cell the matrix
    marks (an invalid combination), otherwise the number of tests of the
    current suite whose value combination the cell is. */
module Occupancy {
  import opened Wrappers
  import opened MixedRadix
  import opened BoolMatrix
  import opened Coverage
  import Closure
  import opened CombinatorialModel
  import opened Combinations

  /* ---------- tables of counters ---------- */

  /** The number of 0 entries of a row. */
  function ZerosIn(row: seq<int>): nat
  {
    if |row| == 0 then 0 else ZerosIn(row[..|row| - 1]) + (if row[|row| - 1] == 0 then 1 else 0)
  }

  /** The number of 0 entries of a table: `uncoverNum`'s intended value. */
  function ZeroCells(t: seq<seq<int>>): nat
  {
    if |t| == 0 then 0 else ZeroCells(t[..|t| - 1]) + ZerosIn(t[|t| - 1])
  }

  /** A row has no 0 entry exactly when every entry differs from 0. */
  lemma {:induction false} ZerosInZero(row: seq<int>)
    ensures ZerosIn(row) == 0 <==> forall j :: 0 <= j < |row| ==> row[j] != 0
  {
    if |row| > 0 {
      var n := |row| - 1;
      ZerosInZero(row[..n]);
      assert forall j :: 0 <= j < n ==> row[..n][j] == row[j];
    }
  }

  /** A table has no 0 entry exactly when none of its rows has one. */
  lemma {:induction false} ZeroCellsZero(t: seq<seq<int>>)
    ensures ZeroCells(t) == 0 <==> forall i, j :: 0 <= i < |t| && 0 <= j < |t[i]| ==> t[i][j] != 0
  {
    if |t| > 0 {
      var n := |t| - 1;
      ZeroCellsZero(t[..n]);
      assert forall i :: 0 <= i < n ==> t[..n][i] == t[i];
      ZerosInZero(t[n]);
    }
  }

  /** Setting one entry changes the count of its row by the change of that entry. */
  lemma {:induction false} ZerosInUpdate(row: seq<int>, j: int, v: int)
    requires 0 <= j < |row|
    ensures ZerosIn(row[j := v]) == ZerosIn(row) - (if row[j] == 0 then 1 else 0) + (if v == 0 then 1 else 0)
  {
    var n := |row| - 1;
    if j < n {
      assert row[j := v][..n] == row[..n][j := v];
      ZerosInUpdate(row[..n], j, v);
    } else {
      assert row[j := v][..n] == row[..n];
    }
  }

  /** One entry after `updateTestCaseCoverage` touched it with `flag`: 0 takes
      a test away, 1 adds one; -1 entries and any other flag leave it alone. */
  function Bump(x: int, flag: int): int
  {
    if x == -1 then x else if flag == 0 then x - 1 else if flag == 1 then x + 1 else x
  }

  /** The touch is one the update counts: flag 0 brings the entry to 0, flag 1
      takes it from 0. */
  predicate Flips(x: int, flag: int)
  {
    x != -1 && ((flag == 0 && x == 1) || (flag == 1 && x == 0))
  }

  /** cols names one entry in each row of a. */
  predicate Aimed(a: seq<seq<int>>, cols: seq<int>)
  {
    |cols| == |a| && forall r :: 0 <= r < |a| ==> 0 <= cols[r] < |a[r]|
  }

  /** b is a with the entry cols[r] of every row r touched with flag. */
  predicate Updated(a: seq<seq<int>>, cols: seq<int>, flag: int, b: seq<seq<int>>)
  {
    Aimed(a, cols) && |b| == |a| &&
    forall r :: 0 <= r < |a| ==> b[r] == a[r][cols[r] := Bump(a[r][cols[r]], flag)]
  }

  /** The number of rows whose touched entry flips. */
  function Flipped(a: seq<seq<int>>, cols: seq<int>, flag: int): nat
    requires Aimed(a, cols)
  {
    if |a| == 0 then 0
    else
      var n := |a| - 1;
      Flipped(a[..n], cols[..n], flag) + (if Flips(a[n][cols[n]], flag) then 1 else 0)
  }

  /** Every entry is -1 or a count. */
  predicate Counters(t: seq<seq<int>>)
  {
    forall i, j :: 0 <= i < |t| && 0 <= j < |t[i]| ==> t[i][j] >= -1
  }

  /** What the return value of `updateTestCaseCoverage` does to the zero count:
      adding a test removes the flipped zeros; taking one away whose entries
      are not 0 creates them. */
  lemma {:induction false} UpdatedZeros(a: seq<seq<int>>, cols: seq<int>, flag: int, b: seq<seq<int>>)
    requires Updated(a, cols, flag, b)
    requires flag == 0 ==> forall r :: 0 <= r < |a| ==> a[r][cols[r]] != 0
    ensures flag == 0 ==> ZeroCells(b) == ZeroCells(a) + Flipped(a, cols, flag)
    ensures flag != 0 ==> ZeroCells(b) == ZeroCells(a) - Flipped(a, cols, flag)
  {
    if |a| > 0 {
      var n := |a| - 1;
      assert Updated(a[..n], cols[..n], flag, b[..n]);
      UpdatedZeros(a[..n], cols[..n], flag, b[..n]);
      ZerosInUpdate(a[n], cols[n], Bump(a[n][cols[n]], flag));
    }
  }

  /** Adding a test and taking it away again restores the table, and both
      updates report the same number of flips. */
  lemma {:induction false} AddThenRemove(a: seq<seq<int>>, cols: seq<int>, b: seq<seq<int>>, c: seq<seq<int>>)
    requires Counters(a) && Updated(a, cols, 1, b) && Updated(b, cols, 0, c)
    ensures c == a
    ensures Flipped(b, cols, 0) == Flipped(a, cols, 1)
  {
    forall r | 0 <= r < |a|
      ensures c[r] == a[r]
    {
      assert c[r] == a[r][cols[r] := Bump(Bump(a[r][cols[r]], 1), 0)];
    }
    if |a| > 0 {
      var n := |a| - 1;
      assert Updated(a[..n], cols[..n], 1, b[..n]);
      assert Updated(b[..n], cols[..n], 0, c[..n]);
      AddThenRemove(a[..n], cols[..n], b[..n], c[..n]);
    }
  }

  /* ---------- the table of a model and a suite ---------- */

  /** Every test of the suite gives every parameter a value of its domain. */
  predicate Tests(m: CTModel, suite: seq<seq<int>>)
  {
    forall q :: 0 <= q < |suite| ==> Closure.Complete(m.value, suite[q])
  }

  /** The table has the shape of the coverage matrix. */
  ghost predicate Fits(m: CTModel, cover: seq<seq<int>>)
    requires Laid(m)
  {
    |cover| == |m.allPc| &&
    forall r :: 0 <= r < |cover| ==> |cover[r]| == |m.combination.matrix[r].value|
  }

  /** The column of row r that a test hits, for every row. */
  ghost function Columns(m: CTModel, test: seq<int>): (cols: seq<int>)
    requires Laid(m) && Closure.Complete(m.value, test)
    ensures |cols| == |m.allPc|
    ensures forall r :: 0 <= r < |m.allPc| ==> cols[r] == TestCell(m, r, test).column
  {
    seq(|m.allPc|, r requires 0 <= r < |m.allPc| => TestCell(m, r, test).column)
  }

  /** The number of tests of the suite whose combination in row r is column c. */
  ghost function Count(m: CTModel, r: int, c: int, suite: seq<seq<int>>): nat
    requires Laid(m) && 0 <= r < |m.allPc| && Tests(m, suite)
  {
    if |suite| == 0 then 0
    else
      var n := |suite| - 1;
      Count(m, r, c, suite[..n]) + (if TestCell(m, r, suite[n]).column == c then 1 else 0)
  }

  /** The table is the occupancy of the suite: -1 on marked cells, the
      number of tests hitting the cell elsewhere. */
  ghost predicate Tracks(m: CTModel, cover: seq<seq<int>>, suite: seq<seq<int>>)
    requires Laid(m) && Tests(m, suite)
  {
    Fits(m, cover) &&
    forall r, c :: 0 <= r < |cover| && 0 <= c < |cover[r]| ==>
      cover[r][c] == if m.combination.matrix[r].value[c] then -1 else Count(m, r, c, suite)
  }

  /** Every unmarked cell of the matrix is hit by some test of the suite. */
  ghost predicate AllHit(m: CTModel, suite: seq<seq<int>>)
    requires Laid(m) && Tests(m, suite)
  {
    forall r, c ::
      (0 <= r < |m.allPc| && 0 <= c < |m.combination.matrix[r].value| && !m.combination.matrix[r].value[c]) ==>
      exists q :: 0 <= q < |suite| && TestCell(m, r, suite[q]).column == c
  }

  /** A count is positive exactly when some test hits the cell. */
  lemma {:induction false} CountPositive(m: CTModel, r: int, c: int, suite: seq<seq<int>>)
    requires Laid(m) && 0 <= r < |m.allPc| && Tests(m, suite)
    ensures Count(m, r, c, suite) > 0 <==> exists q :: 0 <= q < |suite| && TestCell(m, r, suite[q]).column == c
  {
    if |suite| > 0 {
      var n := |suite| - 1;
      var prefix := suite[..n];
      CountPositive(m, r, c, prefix);
      if Count(m, r, c, prefix) > 0 {
        var q :| 0 <= q < n && TestCell(m, r, prefix[q]).column == c;
        assert suite[q] == prefix[q];
      }
      if exists q :: 0 <= q < |suite| && TestCell(m, r, suite[q]).column == c {
        var q :| 0 <= q < |suite| && TestCell(m, r, suite[q]).column == c;
        if q < n {
          assert prefix[q] == suite[q];
        }
      }
    }
  }

  /** The table of a suite is all counters. */
  lemma TracksCounters(m: CTModel, cover: seq<seq<int>>, suite: seq<seq<int>>)
    requires Laid(m) && Tests(m, suite) && Tracks(m, cover, suite)
    ensures Counters(cover)
  {
  }

  /** The table of a suite has no 0 entry exactly when the suite hits every
      unmarked cell: `uncoverNum == 0` is the covering-array test. */
  lemma TracksZero(m: CTModel, cover: seq<seq<int>>, suite: seq<seq<int>>)
    requires Laid(m) && Tests(m, suite) && Tracks(m, cover, suite)
    ensures ZeroCells(cover) == 0 <==> AllHit(m, suite)
  {
    ZeroCellsZero(cover);
    forall r, c | 0 <= r < |cover| && 0 <= c < |cover[r]|
      ensures cover[r][c] != 0 <==> (m.combination.matrix[r].value[c] ||
        exists q :: 0 <= q < |suite| && TestCell(m, r, suite[q]).column == c)
    {
      CountPositive(m, r, c, suite);
    }
  }

  /** A test of the suite makes its own cells nonzero. */
  lemma HitCellsNonzero(m: CTModel, cover: seq<seq<int>>, suite: seq<seq<int>>, i: int)
    requires Laid(m) && Tests(m, suite) && Tracks(m, cover, suite) && 0 <= i < |suite|
    ensures forall r :: 0 <= r < |cover| ==> cover[r][Columns(m, suite[i])[r]] != 0
  {
    forall r | 0 <= r < |cover|
      ensures cover[r][Columns(m, suite[i])[r]] != 0
    {
      CountPositive(m, r, TestCell(m, r, suite[i]).column, suite);
    }
  }

  /** The suite without its i-th test. */
  function Without(suite: seq<seq<int>>, i: int): (s: seq<seq<int>>)
    requires 0 <= i < |suite|
    ensures |s| == |suite| - 1
    ensures forall q :: 0 <= q < |s| ==> s[q] == if q < i then suite[q] else suite[q + 1]
  {
    suite[..i] + suite[i + 1..]
  }

  /** Appending a test adds its hit to every count. */
  lemma CountAppend(m: CTModel, r: int, c: int, suite: seq<seq<int>>, test: seq<int>)
    requires Laid(m) && 0 <= r < |m.allPc| && Tests(m, suite) && Closure.Complete(m.value, test)
    ensures Tests(m, suite + [test])
    ensures Count(m, r, c, suite + [test]) == Count(m, r, c, suite) + (if TestCell(m, r, test).column == c then 1 else 0)
  {
    assert (suite + [test])[..|suite|] == suite;
  }

  /** Leaving out one test removes its hit from every count. */
  lemma {:induction false} CountWithout(m: CTModel, r: int, c: int, suite: seq<seq<int>>, i: int)
    requires Laid(m) && 0 <= r < |m.allPc| && Tests(m, suite) && 0 <= i < |suite|
    ensures Tests(m, Without(suite, i))
    ensures Count(m, r, c, suite) == Count(m, r, c, Without(suite, i)) + (if TestCell(m, r, suite[i]).column == c then 1 else 0)
  {
    var n := |suite| - 1;
    var prefix := suite[..n];
    if i == n {
      assert Without(suite, i) == prefix;
    } else {
      assert Tests(m, prefix);
      CountWithout(m, r, c, prefix, i);
      var w := Without(prefix, i);
      assert Without(suite, i) == w + [suite[n]];
      CountAppend(m, r, c, w, suite[n]);
    }
  }

  /** Replacing the i-th test is leaving it out and appending the new one, as
      far as the counts go. */
  lemma CountReplace(m: CTModel, r: int, c: int, suite: seq<seq<int>>, i: int, test: seq<int>)
    requires Laid(m) && 0 <= r < |m.allPc| && Tests(m, suite) && 0 <= i < |suite|
    requires Closure.Complete(m.value, test)
    ensures Tests(m, suite[i := test]) && Tests(m, Without(suite, i) + [test])
    ensures Count(m, r, c, suite[i := test]) == Count(m, r, c, Without(suite, i) + [test])
  {
    CountWithout(m, r, c, suite[i := test], i);
    assert Without(suite[i := test], i) == Without(suite, i);
    CountWithout(m, r, c, suite, i);
    CountAppend(m, r, c, Without(suite, i), test);
  }

  /** Touching with flag 1 the cells of a new test keeps the table in step
      with the suite that has the test appended. */
  lemma AddTracks(m: CTModel, cover: seq<seq<int>>, suite: seq<seq<int>>, test: seq<int>, cover': seq<seq<int>>)
    requires Laid(m) && Tests(m, suite) && Closure.Complete(m.value, test)
    requires Tracks(m, cover, suite) && Updated(cover, Columns(m, test), 1, cover')
    ensures Tests(m, suite + [test]) && Tracks(m, cover', suite + [test])
  {
    forall r, c | 0 <= r < |cover'| && 0 <= c < |cover'[r]|
      ensures cover'[r][c] == if m.combination.matrix[r].value[c] then -1 else Count(m, r, c, suite + [test])
    {
      CountAppend(m, r, c, suite, test);
    }
  }

  /** Touching with flag 0 the cells of the i-th test keeps the table in step
      with the suite that leaves it out. */
  lemma RemoveTracks(m: CTModel, cover: seq<seq<int>>, suite: seq<seq<int>>, i: int, cover': seq<seq<int>>)
    requires Laid(m) && Tests(m, suite) && 0 <= i < |suite|
    requires Tracks(m, cover, suite) && Updated(cover, Columns(m, suite[i]), 0, cover')
    ensures Tests(m, Without(suite, i)) && Tracks(m, cover', Without(suite, i))
  {
    forall r, c | 0 <= r < |cover'| && 0 <= c < |cover'[r]|
      ensures cover'[r][c] == if m.combination.matrix[r].value[c] then -1 else Count(m, r, c, Without(suite, i))
    {
      CountWithout(m, r, c, suite, i);
    }
  }

  /** A table kept in step with "leave out test i, append test" is the table
      of the suite with test i replaced. */
  lemma ReplaceTracks(m: CTModel, cover: seq<seq<int>>, suite: seq<seq<int>>, i: int, test: seq<int>)
    requires Laid(m) && Tests(m, suite) && 0 <= i < |suite| && Closure.Complete(m.value, test)
    requires Tests(m, Without(suite, i) + [test]) && Tracks(m, cover, Without(suite, i) + [test])
    ensures Tests(m, suite[i := test]) && Tracks(m, cover, suite[i := test])
  {
    forall r, c | 0 <= r < |cover| && 0 <= c < |cover[r]|
      ensures cover[r][c] == if m.combination.matrix[r].value[c] then -1 else Count(m, r, c, suite[i := test])
    {
      CountReplace(m, r, c, suite, i, test);
    }
  }

  /* ---------- the operations ---------- */

  /** The digits `updateTestCaseCoverage` weighs: a test's values at pos, an
      unassigned (-1) value weighing nothing. */
  function Known(test: seq<int>, pos: seq<int>): (d: seq<int>)
    requires forall k :: 0 <= k < |pos| ==> 0 <= pos[k] < |test|
    ensures |d| == |pos|
  {
    seq(|pos|, k requires 0 <= k < |pos| => if test[pos[k]] == -1 then 0 else test[pos[k]])
  }

  /** On a complete test the weighed digits are its projection. */
  lemma KnownComplete(m: CTModel, r: int, test: seq<int>)
    requires Laid(m) && 0 <= r < |m.allPc| && Closure.Complete(m.value, test)
    ensures ValidPositions(m.allPc[r], test)
    ensures Known(test, m.allPc[r]) == Proj(test, m.allPc[r])
    ensures Rank(Known(test, m.allPc[r]), Radices(m.allPc[r], m.value)) == Columns(m, test)[r]
  {
    PositionOf(m, r);
    TestColumn(m, r, test);
  }

  /** The column loop of `updateTestCaseCoverage` (lines 270-276): the rank of
      the weighed digits, last position least significant. */
  method ColumnOf(pos: seq<int>, test: seq<int>, value: seq<int>) returns (col: int)
    requires ValidPositions(pos, value) && ValidPositions(pos, test)
    ensures col == Rank(Known(test, pos), Radices(pos, value))
  {
    ghost var d := Known(test, pos);
    ghost var r := Radices(pos, value);
    col := 0;
    var sd := 1;
    var j := |pos| - 1;
    while j >= 0
      invariant -1 <= j < |pos|
      invariant col == Rank(d[j + 1..], r[j + 1..])
      invariant sd == Prod(r[j + 1..])
    {
      assert d[j..][1..] == d[j + 1..] && r[j..][1..] == r[j + 1..];
      if test[pos[j]] != -1 {
        col := col + sd * test[pos[j]];
      }
      sd := sd * value[pos[j]];
      j := j - 1;
    }
    assert d[0..] == d && r[0..] == r;
  }

  /** Rows below i of cover' are touched, the others are still those of cover. */
  ghost predicate TouchedBelow(cover: seq<seq<int>>, cols: seq<int>, flag: int, cover': seq<seq<int>>, i: int)
    requires Aimed(cover, cols) && 0 <= i <= |cover|
  {
    |cover'| == |cover| &&
    (forall r :: 0 <= r < i ==> cover'[r] == cover[r][cols[r] := Bump(cover[r][cols[r]], flag)]) &&
    (forall r :: i <= r < |cover| ==> cover'[r] == cover[r])
  }

  /** The flips of the first i + 1 rows are those of the first i and row i's. */
  lemma FlippedStep(a: seq<seq<int>>, cols: seq<int>, flag: int, i: int)
    requires Aimed(a, cols) && 0 <= i < |a|
    ensures Aimed(a[..i], cols[..i]) && Aimed(a[..i + 1], cols[..i + 1])
    ensures Flipped(a[..i + 1], cols[..i + 1], flag) == Flipped(a[..i], cols[..i], flag) + (if Flips(a[i][cols[i]], flag) then 1 else 0)
  {
    assert a[..i + 1][..i] == a[..i] && cols[..i + 1][..i] == cols[..i];
  }

  /** The cell of row i that a complete test hits, by the column loop. */
  method RowColumn(m: CTModel, test: seq<int>, i: int) returns (col: int)
    requires Laid(m) && 0 <= i < |m.allPc| && Closure.Complete(m.value, test)
    ensures col == Columns(m, test)[i]
  {
    KnownComplete(m, i, test);
    PositionOf(m, i);
    col := ColumnOf(m.allPc[i], test, m.value);
  }

  /** One row of `updateTestCaseCoverage` (lines 277-289). */
  method TouchRow(m: CTModel, cover: seq<seq<int>>, test: seq<int>, flag: int, ghost cols: seq<int>,
                  i: int, change: nat, cover': seq<seq<int>>)
    returns (change': nat, cover'': seq<seq<int>>)
    requires Laid(m) && Fits(m, cover) && Closure.Complete(m.value, test) && cols == Columns(m, test)
    requires 0 <= i < |cover| && Aimed(cover, cols) && TouchedBelow(cover, cols, flag, cover', i)
    requires change == Flipped(cover[..i], cols[..i], flag)
    ensures TouchedBelow(cover, cols, flag, cover'', i + 1)
    ensures change' == Flipped(cover[..i + 1], cols[..i + 1], flag)
  {
    var col := RowColumn(m, test, i);
    FlippedStep(cover, cols, flag, i);
    var x := cover'[i][col];
    change' := change + (if (x != -1 && ((flag == 0 && x - 1 == 0) || (flag == 1 && x == 0))) then 1 else 0);
    cover'' := cover'[i := cover'[i][col := Bump(x, flag)]];
  }

  /** Models `updateTestCaseCoverage(model, test, flag)` (lines 266-293) on a
      complete test: each row's entry of the test's cell is touched with flag,
      and the result is the number of entries that flip. */
  method UpdateTestCaseCoverage(m: CTModel, cover: seq<seq<int>>, test: seq<int>, flag: int)
    returns (change: nat, cover': seq<seq<int>>)
    requires Laid(m) && Fits(m, cover) && Closure.Complete(m.value, test)
    ensures Fits(m, cover')
    ensures Updated(cover, Columns(m, test), flag, cover')
    ensures change == Flipped(cover, Columns(m, test), flag)
  {
    ghost var cols := Columns(m, test);
    assert Aimed(cover, cols);
    change := 0;
    cover' := cover;
    var i := 0;
    while i < |cover|
      invariant 0 <= i <= |cover|
      invariant TouchedBelow(cover, cols, flag, cover', i)
      invariant change == Flipped(cover[..i], cols[..i], flag)
    {
      change, cover' := TouchRow(m, cover, test, flag, cols, i, change, cover');
      i := i + 1;
    }
    assert cover[..i] == cover && cols[..i] == cols;
  }

  /** The table with -1 on the marked cells and 0 elsewhere is the table of
      the empty suite. */
  lemma TracksEmpty(m: CTModel, cover: seq<seq<int>>)
    requires Laid(m) && |cover| == |m.allPc|
    requires forall r :: 0 <= r < |cover| ==> |cover[r]| == |m.combination.matrix[r].value|
    requires forall r, c :: 0 <= r < |cover| && 0 <= c < |cover[r]| ==>
      cover[r][c] == if m.combination.matrix[r].value[c] then -1 else 0
    ensures Tracks(m, cover, [])
  {
  }

  /** Models the row loop of `initCover` (lines 302-306). */
  method InitRow(row: seq<bool>) returns (c: seq<int>)
    ensures |c| == |row|
    ensures forall j :: 0 <= j < |row| ==> (c[j] == -1 <==> row[j]) && (c[j] == 0 <==> !row[j])
    ensures ZerosIn(c) == FalseIn(row)
  {
    c := [];
    var j := 0;
    while j < |row|
      invariant 0 <= j <= |row| && |c| == j
      invariant forall k :: 0 <= k < j ==> c[k] == if row[k] then -1 else 0
      invariant ZerosIn(c) == FalseIn(row[..j])
    {
      assert row[..j + 1][..j] == row[..j];
      assert (c + [if row[j] then -1 else 0])[..j] == c;
      c := c + [if row[j] then -1 else 0];
      j := j + 1;
    }
    assert row[..j] == row;
  }

  /** The first i rows of cover are those `initCover` builds from mat. */
  ghost predicate InitialisedBelow(mat: seq<Option<seq<bool>>>, cover: seq<seq<int>>, i: int)
    requires 0 <= i <= |mat| && forall r :: 0 <= r < |mat| ==> mat[r].Some?
  {
    |cover| == i &&
    (forall r :: 0 <= r < i ==> |cover[r]| == |mat[r].value|) &&
    (forall r, c :: 0 <= r < i && 0 <= c < |cover[r]| ==> cover[r][c] == if mat[r].value[c] then -1 else 0) &&
    ZeroCells(cover) == Uncovered(mat[..i])
  }

  /** One row of `initCover` (lines 300-306). */
  method InitStep(mat: seq<Option<seq<bool>>>, cover: seq<seq<int>>, i: int) returns (cover': seq<seq<int>>)
    requires 0 <= i < |mat| && forall r :: 0 <= r < |mat| ==> mat[r].Some?
    requires InitialisedBelow(mat, cover, i)
    ensures InitialisedBelow(mat, cover', i + 1)
  {
    var row := InitRow(mat[i].value);
    assert mat[..i + 1][..i] == mat[..i];
    assert (cover + [row])[..i] == cover;
    cover' := cover + [row];
  }

  /** Models `initCover(model)` (lines 298-307): the table of the empty suite,
      with as many 0 entries as the matrix has uncovered cells. */
  method InitCover(m: CTModel) returns (cover: seq<seq<int>>)
    requires Laid(m)
    ensures Tracks(m, cover, [])
    ensures ZeroCells(cover) == Uncovered(m.combination.matrix)
  {
    var mat := m.combination.matrix;
    cover := [];
    var i := 0;
    while i < |mat|
      invariant 0 <= i <= |mat| && InitialisedBelow(mat, cover, i)
    {
      cover := InitStep(mat, cover, i);
      i := i + 1;
    }
    assert mat[..i] == mat;
    TracksEmpty(m, cover);
  }

  /** Models `updateTestSuiteCoverage(model, suite)` (lines 252-257) on the
      table of the empty suite: afterwards the table is the suite's, and
      `uncoverNum` is `combAll` less the zeros the suite filled. */
  method UpdateTestSuiteCoverage(m: CTModel, cover: seq<seq<int>>, suite: seq<seq<int>>)
    returns (uncoverNum: int, cover': seq<seq<int>>)
    requires Laid(m) && Tests(m, suite) && Tracks(m, cover, [])
    ensures Tracks(m, cover', suite)
    ensures uncoverNum == m.combAll - (ZeroCells(cover) - ZeroCells(cover'))
  {
    var covered := 0;
    cover' := cover;
    var q := 0;
    while q < |suite|
      invariant 0 <= q <= |suite|
      invariant Tests(m, suite[..q]) && Tracks(m, cover', suite[..q])
      invariant covered == ZeroCells(cover) - ZeroCells(cover')
    {
      assert suite[..q + 1] == suite[..q] + [suite[q]];
      var change, next := UpdateTestCaseCoverage(m, cover', suite[q], 1);
      AddTracks(m, cover', suite[..q], suite[q], next);
      UpdatedZeros(cover', Columns(m, suite[q]), 1, next);
      covered := covered + change;
      cover' := next;
      q := q + 1;
    }
    assert suite[..q] == suite;
    uncoverNum := m.combAll - covered;
  }
}
