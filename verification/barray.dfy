/** The coverage matrix `BArray`: a ragged boolean matrix together with a pool of
    candidate zero cells, of which the first `zeroTotal` are live.

    The two parallel arrays `zero_row` / `zero_column` of the source are one
    sequence of positions here. Rows that the source leaves `null` are `None`. */
module BoolMatrix {
  import opened Wrappers

  /** A (row, column) cell, the source's `Position`. */
  datatype Position = Position(row: int, column: int)

  datatype BArray = BArray(matrix: seq<Option<seq<bool>>>, pool: seq<Position>, zeroTotal: int)

  /** Number of cells of a row; a null row has none. */
  function Width(r: Option<seq<bool>>): nat
  {
    if r.Some? then |r.value| else 0
  }

  function Widths(m: seq<Option<seq<bool>>>): (w: seq<nat>)
    ensures |w| == |m| && forall i :: 0 <= i < |m| ==> w[i] == Width(m[i])
  {
    seq(|m|, i requires 0 <= i < |m| => Width(m[i]))
  }

  function Sum(w: seq<nat>): nat
  {
    if |w| == 0 then 0 else Sum(w[..|w| - 1]) + w[|w| - 1]
  }

  /** The cells of row i, left to right. */
  function RowCells(i: int, w: nat): (c: seq<Position>)
    ensures |c| == w && forall j :: 0 <= j < w ==> c[j] == Position(i, j)
  {
    seq(w, j requires 0 <= j < w => Position(i, j))
  }

  /** All cells of a ragged matrix with row widths w, in row-major order. */
  function Cells(w: seq<nat>): seq<Position>
  {
    if |w| == 0 then [] else Cells(w[..|w| - 1]) + RowCells(|w| - 1, w[|w| - 1])
  }

  /** p is a cell of an initialised row of b. */
  predicate IsCell(b: BArray, p: Position)
  {
    0 <= p.row < |b.matrix| && b.matrix[p.row].Some? && 0 <= p.column < |b.matrix[p.row].value|
  }

  predicate AllRowsInitialised(b: BArray)
  {
    forall i :: 0 <= i < |b.matrix| ==> b.matrix[i].Some?
  }

  /** The live part of the pool is in range and names cells. */
  predicate PoolValid(b: BArray)
  {
    0 <= b.zeroTotal <= |b.pool| &&
    forall k :: 0 <= k < b.zeroTotal ==> IsCell(b, b.pool[k])
  }

  /** The pool is exact: it lists every cell once and nothing else, and all of it
      is live. */
  ghost predicate PoolExact(b: BArray)
  {
    |b.pool| == b.zeroTotal &&
    (forall p :: p in b.pool <==> IsCell(b, p)) &&
    (forall k, l :: 0 <= k < l < |b.pool| ==> b.pool[k] != b.pool[l])
  }

  /** Every false cell is live in the pool: a sample from the live pool can only
      miss a zero cell by hitting a true one. */
  ghost predicate Complete(b: BArray)
  {
    PoolValid(b) &&
    forall p :: IsCell(b, p) && !b.matrix[p.row].value[p.column] ==> p in b.pool[..b.zeroTotal]
  }

  /** Models `BArray(row)`: `row` null rows and an empty pool. */
  function NewRows(row: nat): (b: BArray)
    ensures |b.matrix| == row && b.zeroTotal == 0
    ensures forall i :: 0 <= i < row ==> b.matrix[i] == None
    ensures forall p :: !IsCell(b, p)
  {
    BArray(seq(row, _ => None), [], 0)
  }

  /** Models `BArray(row, column)`: a row x column matrix of false cells whose pool
      lists every cell once, in row-major order, all of it live. */
  method NewFull(row: nat, column: nat) returns (b: BArray)
    ensures |b.matrix| == row
    ensures forall i :: 0 <= i < row ==> b.matrix[i] == Some(seq(column, _ => false))
    ensures b.zeroTotal == row * column
    ensures b.pool == Cells(Widths(b.matrix))
    ensures PoolExact(b) && Complete(b)
  {
    var matrix := seq(row, _ => Some(seq(column, _ => false)));
    var w := Widths(matrix);
    var pool := [];
    var i := 0;
    while i < row
      invariant 0 <= i <= row
      invariant pool == Cells(w[..i])
    {
      var j := 0;
      while j < column
        invariant 0 <= j <= column
        invariant pool == Cells(w[..i]) + RowCells(i, j)
      {
        pool := pool + [Position(i, j)];
        j := j + 1;
      }
      assert w[..i + 1][..i] == w[..i];
      i := i + 1;
    }
    assert w[..row] == w;
    b := BArray(matrix, pool, row * column);
    UniformSum(w, column);
    CellsExact(b);
  }

  /** Rows of one width w sum to |rows| * w. */
  lemma {:induction false} UniformSum(ws: seq<nat>, w: nat)
    requires forall i :: 0 <= i < |ws| ==> ws[i] == w
    ensures Sum(ws) == |ws| * w
    decreases |ws|
  {
    if |ws| > 0 {
      UniformSum(ws[..|ws| - 1], w);
    }
  }

  /** Row-major cells: exactly the cells of the widths, each once, Sum(w) in all. */
  lemma {:induction false} CellsFacts(w: seq<nat>)
    ensures |Cells(w)| == Sum(w)
    ensures forall p :: p in Cells(w) <==> 0 <= p.row < |w| && 0 <= p.column < w[p.row]
    ensures forall k, l :: 0 <= k < l < |Cells(w)| ==> Cells(w)[k] != Cells(w)[l]
    decreases |w|
  {
    if |w| > 0 {
      var front := w[..|w| - 1];
      CellsFacts(front);
      var last := RowCells(|w| - 1, w[|w| - 1]);
      assert Cells(w) == Cells(front) + last;
      forall p
        ensures p in Cells(w) <==> 0 <= p.row < |w| && 0 <= p.column < w[p.row]
      {
        if p in last {
          assert p.row == |w| - 1;
        }
        if p.row == |w| - 1 && 0 <= p.column < w[p.row] {
          assert last[p.column] == p;
        }
      }
      forall k, l | 0 <= k < l < |Cells(w)|
        ensures Cells(w)[k] != Cells(w)[l]
      {
        var n := |Cells(front)|;
        if k < n && l >= n {
          assert Cells(w)[k] in Cells(front);
          assert Cells(w)[l] == last[l - n];
        }
      }
    }
  }

  /** A pool holding the row-major cells of a fully initialised matrix, all live,
      is exact and complete. */
  lemma CellsExact(b: BArray)
    requires AllRowsInitialised(b)
    requires b.pool == Cells(Widths(b.matrix)) && b.zeroTotal == Sum(Widths(b.matrix))
    ensures PoolExact(b) && Complete(b)
  {
    CellsFacts(Widths(b.matrix));
    assert b.pool[..b.zeroTotal] == b.pool;
  }

  /** Models `initializeRow(index, column)`: a null row gets `column` false cells
      and `zeroTotal` grows by `column`; an initialised row is left alone. The pool
      is not touched. */
  function InitializeRow(b: BArray, index: int, column: nat): (b': BArray)
    requires 0 <= index < |b.matrix|
    ensures b'.pool == b.pool && |b'.matrix| == |b.matrix|
    ensures forall i :: 0 <= i < |b.matrix| && i != index ==> b'.matrix[i] == b.matrix[i]
    ensures b.matrix[index].None? ==>
      b'.matrix[index] == Some(seq(column, _ => false)) && b'.zeroTotal == b.zeroTotal + column
    ensures b.matrix[index].Some? ==> b' == b
    ensures Sum(Widths(b'.matrix)) - b'.zeroTotal == Sum(Widths(b.matrix)) - b.zeroTotal
  {
    if b.matrix[index].None? then
      var b' := b.(matrix := b.matrix[index := Some(seq(column, _ => false))], zeroTotal := b.zeroTotal + column);
      SumUpdate(Widths(b.matrix), index, column);
      assert Widths(b'.matrix) == Widths(b.matrix)[index := column];
      b'
    else b
  }

  /** Replacing one width by v changes the sum by the difference. */
  lemma {:induction false} SumUpdate(w: seq<nat>, index: int, v: nat)
    requires 0 <= index < |w|
    ensures Sum(w[index := v]) == Sum(w) - w[index] + v
    decreases |w|
  {
    var w' := w[index := v];
    if index < |w| - 1 {
      assert w'[..|w'| - 1] == w[..|w| - 1][index := v];
      SumUpdate(w[..|w| - 1], index, v);
    } else {
      assert w'[..|w'| - 1] == w[..|w| - 1];
    }
  }

  /** Initialising a row twice is the same as initialising it once. */
  lemma InitializeRowIdempotent(b: BArray, index: int, column: nat)
    requires 0 <= index < |b.matrix|
    ensures InitializeRow(InitializeRow(b, index, column), index, column) == InitializeRow(b, index, column)
  {
  }

  /** Models `initializeZeros()`: once every row is initialised, rebuild the pool
      as the row-major list of all cells, `zeroTotal` of them. That `zeroTotal`
      counts the cells is what the source relies on for the pool's size; rows
      created through `initializeRow` keep it so (see `InitializeRow`). */
  method InitializeZeros(b: BArray) returns (b': BArray)
    requires AllRowsInitialised(b)
    requires b.zeroTotal == Sum(Widths(b.matrix))
    ensures b'.matrix == b.matrix && b'.zeroTotal == b.zeroTotal
    ensures b'.pool == Cells(Widths(b.matrix))
    ensures PoolExact(b') && Complete(b')
  {
    var w := Widths(b.matrix);
    var pool := [];
    var i := 0;
    while i < |b.matrix|
      invariant 0 <= i <= |b.matrix|
      invariant pool == Cells(w[..i])
    {
      var j := 0;
      while j < |b.matrix[i].value|
        invariant 0 <= j <= |b.matrix[i].value|
        invariant pool == Cells(w[..i]) + RowCells(i, j)
      {
        pool := pool + [Position(i, j)];
        j := j + 1;
      }
      assert w[..i + 1][..i] == w[..i];
      i := i + 1;
    }
    assert w[..|b.matrix|] == w;
    b' := b.(pool := pool);
    CellsExact(b');
  }

  /** Models `getElement(i, j)`. */
  function GetElement(b: BArray, i: int, j: int): bool
    requires IsCell(b, Position(i, j))
  {
    b.matrix[i].value[j]
  }

  /** Models `setElement(i, j, value)`: that cell becomes `value`, every other cell,
      the shape and the pool stay as they were. */
  function SetElement(b: BArray, i: int, j: int, value: bool): (b': BArray)
    requires IsCell(b, Position(i, j))
    ensures b'.pool == b.pool && b'.zeroTotal == b.zeroTotal
    ensures |b'.matrix| == |b.matrix|
    ensures forall p :: IsCell(b', p) <==> IsCell(b, p)
    ensures GetElement(b', i, j) == value
    ensures forall p :: IsCell(b, p) && p != Position(i, j) ==>
      GetElement(b', p.row, p.column) == GetElement(b, p.row, p.column)
  {
    b.(matrix := b.matrix[i := Some(b.matrix[i].value[j := value])])
  }

  /** Setting a cell to true keeps every false cell live: the pool stays complete. */
  lemma SetTrueKeepsComplete(b: BArray, i: int, j: int)
    requires IsCell(b, Position(i, j)) && Complete(b)
    ensures Complete(SetElement(b, i, j, true))
  {
    var b' := SetElement(b, i, j, true);
    forall p | IsCell(b', p) && !b'.matrix[p.row].value[p.column]
      ensures p in b'.pool[..b'.zeroTotal]
    {
      assert GetElement(b', p.row, p.column) == GetElement(b, p.row, p.column);
    }
  }

  /** The eviction of lines 124-127: the live entry at `index` is overwritten by
      the last live one and the live part shrinks by exactly one. When the evicted
      cell is true, every false cell stays live. */
  function Evict(b: BArray, index: int): (b': BArray)
    requires PoolValid(b) && 0 <= index < b.zeroTotal
    ensures b'.matrix == b.matrix && |b'.pool| == |b.pool|
    ensures b'.zeroTotal == b.zeroTotal - 1
    ensures PoolValid(b')
    ensures multiset(b'.pool[..b'.zeroTotal]) + multiset{b.pool[index]} == multiset(b.pool[..b.zeroTotal])
    ensures Complete(b) && b.matrix[b.pool[index].row].value[b.pool[index].column] ==> Complete(b')
  {
    var right := b.zeroTotal - 1;
    var b' := b.(pool := b.pool[index := b.pool[right]], zeroTotal := right);
    EvictFacts(b, index, b');
    b'
  }

  lemma EvictFacts(b: BArray, index: int, b': BArray)
    requires PoolValid(b) && 0 <= index < b.zeroTotal
    requires b' == b.(pool := b.pool[index := b.pool[b.zeroTotal - 1]], zeroTotal := b.zeroTotal - 1)
    ensures PoolValid(b')
    ensures multiset(b'.pool[..b'.zeroTotal]) + multiset{b.pool[index]} == multiset(b.pool[..b.zeroTotal])
    ensures Complete(b) && b.matrix[b.pool[index].row].value[b.pool[index].column] ==> Complete(b')
  {
    var right := b.zeroTotal - 1;
    var live := b.pool[..b.zeroTotal];
    assert live == b.pool[..right] + [b.pool[right]];
    if index == right {
      assert b'.pool[..b'.zeroTotal] == b.pool[..right];
    } else {
      assert b'.pool[..b'.zeroTotal] == b.pool[..right][index := b.pool[right]];
      assert b.pool[..right] == b.pool[..right][index := b.pool[index]];
    }
    if Complete(b) && b.matrix[b.pool[index].row].value[b.pool[index].column] {
      forall p | IsCell(b', p) && !b'.matrix[p.row].value[p.column]
        ensures p in b'.pool[..b'.zeroTotal]
      {
        assert p in live;
        var m :| 0 <= m < b.zeroTotal && b.pool[m] == p;
        if m == right {
          assert b'.pool[index] == p;
        } else {
          assert m != index;
          assert b'.pool[m] == p;
        }
      }
    }
  }

  /** Models `getRandomZeroPosition()`. Draw k picks live index `rand(k) % zeroTotal`
      (`Random.nextInt`). A true cell drawn is evicted from the live pool and the
      search goes on; a false cell is returned; an empty live pool gives `None`.
      The matrix never changes and `zeroTotal` never grows. */
  method GetRandomZeroPosition(b: BArray, rand: nat -> nat) returns (pos: Option<Position>, b': BArray)
    requires PoolValid(b)
    ensures b'.matrix == b.matrix && |b'.pool| == |b.pool| && PoolValid(b')
    ensures 0 <= b'.zeroTotal <= b.zeroTotal
    ensures pos.Some? ==> IsCell(b, pos.value) && !GetElement(b, pos.value.row, pos.value.column)
    ensures pos.Some? ==> pos.value in b'.pool[..b'.zeroTotal]
    ensures pos.None? ==> b'.zeroTotal == 0
    ensures Complete(b) ==> Complete(b')
    ensures Complete(b) && pos.None? ==> forall p :: IsCell(b, p) ==> GetElement(b, p.row, p.column)
  {
    b' := b;
    var k := 0;
    while b'.zeroTotal > 0
      invariant b'.matrix == b.matrix && |b'.pool| == |b.pool| && PoolValid(b')
      invariant 0 <= b'.zeroTotal <= b.zeroTotal
      invariant Complete(b) ==> Complete(b')
      decreases b'.zeroTotal
    {
      var index := rand(k) % b'.zeroTotal;
      k := k + 1;
      var p := b'.pool[index];
      if b'.matrix[p.row].value[p.column] {
        b' := Evict(b', index);
      } else {
        return Some(p), b';
      }
    }
    pos := None;
    assert b'.pool[..b'.zeroTotal] == [];
  }
}
