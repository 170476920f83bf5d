/** The number of uncovered (false) cells of the coverage matrix: the quantity
    that `CTModel.combUncovered` keeps track of. */
module Coverage {
  import opened Wrappers
  import opened BoolMatrix

  /** The number of false cells of a row. */
  function FalseIn(row: seq<bool>): nat
  {
    if |row| == 0 then 0 else FalseIn(row[..|row| - 1]) + (if row[|row| - 1] then 0 else 1)
  }

  /** The number of false cells of a matrix; a null row has none. */
  function Uncovered(m: seq<Option<seq<bool>>>): nat
  {
    if |m| == 0 then 0
    else Uncovered(m[..|m| - 1]) + (if m[|m| - 1].Some? then FalseIn(m[|m| - 1].value) else 0)
  }

  /** A row has no false cell exactly when all its cells are true, and never
      more false cells than cells. */
  lemma {:induction false} FalseInZero(row: seq<bool>)
    ensures FalseIn(row) == 0 <==> forall j :: 0 <= j < |row| ==> row[j]
    ensures FalseIn(row) <= |row|
  {
    if |row| > 0 {
      var n := |row| - 1;
      FalseInZero(row[..n]);
      assert forall j :: 0 <= j < n ==> row[..n][j] == row[j];
    }
  }

  /** An all-false row of width w has w false cells. */
  lemma {:induction false} FalseInAllFalse(w: nat)
    ensures FalseIn(seq(w, _ => false)) == w
  {
    if w > 0 {
      FalseInAllFalse(w - 1);
      assert seq(w, _ => false)[..w - 1] == seq(w - 1, _ => false);
    }
  }

  /** Setting one cell of a row changes its count by the change of that cell. */
  lemma {:induction false} FalseInUpdate(row: seq<bool>, j: int, v: bool)
    requires 0 <= j < |row|
    ensures FalseIn(row[j := v]) == FalseIn(row) - (if row[j] then 0 else 1) + (if v then 0 else 1)
  {
    var n := |row| - 1;
    var row' := row[j := v];
    if j < n {
      assert row'[..n] == row[..n][j := v];
      FalseInUpdate(row[..n], j, v);
    } else {
      assert row'[..n] == row[..n];
    }
  }

  /** Replacing an initialised row changes the matrix count by the change of that row. */
  lemma {:induction false} UncoveredUpdate(m: seq<Option<seq<bool>>>, i: int, r: seq<bool>)
    requires 0 <= i < |m| && m[i].Some?
    ensures Uncovered(m[i := Some(r)]) == Uncovered(m) - FalseIn(m[i].value) + FalseIn(r)
  {
    var n := |m| - 1;
    var m' := m[i := Some(r)];
    if i < n {
      assert m'[..n] == m[..n][i := Some(r)];
      UncoveredUpdate(m[..n], i, r);
    } else {
      assert m'[..n] == m[..n];
    }
  }

  /** Marking a cell covered removes one uncovered cell if it was uncovered, none otherwise. */
  lemma SetTrueUncovered(b: BArray, i: int, j: int)
    requires IsCell(b, Position(i, j))
    ensures Uncovered(SetElement(b, i, j, true).matrix) == Uncovered(b.matrix) - (if GetElement(b, i, j) then 0 else 1)
  {
    UncoveredUpdate(b.matrix, i, b.matrix[i].value[j := true]);
    FalseInUpdate(b.matrix[i].value, j, true);
    assert SetElement(b, i, j, true).matrix == b.matrix[i := Some(b.matrix[i].value[j := true])];
  }

  /** No uncovered cell exactly when every cell of every initialised row is true. */
  lemma {:induction false} UncoveredZero(m: seq<Option<seq<bool>>>)
    ensures Uncovered(m) == 0 <==>
      forall i, j :: 0 <= i < |m| && m[i].Some? && 0 <= j < |m[i].value| ==> m[i].value[j]
  {
    if |m| > 0 {
      var n := |m| - 1;
      UncoveredZero(m[..n]);
      assert forall i :: 0 <= i < n ==> m[..n][i] == m[i];
      if m[n].Some? {
        FalseInZero(m[n].value);
      }
    }
  }

  /** A matrix of all-false initialised rows has as many uncovered cells as cells. */
  lemma {:induction false} UncoveredAllFalse(m: seq<Option<seq<bool>>>)
    requires forall i :: 0 <= i < |m| ==> m[i].Some? && m[i].value == seq(|m[i].value|, _ => false)
    ensures Uncovered(m) == Sum(Widths(m))
  {
    if |m| > 0 {
      var n := |m| - 1;
      UncoveredAllFalse(m[..n]);
      assert Widths(m)[..n] == Widths(m[..n]);
      FalseInAllFalse(|m[n].value|);
    }
  }
}
