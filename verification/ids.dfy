/** The global id mapping of `CTModel`: value j of parameter i gets the id
    1 + value[0] + ... + value[i-1] + j, so ids run from 1, parameter by parameter.
    A constraint literal "par/val" becomes the negative id of that pair. */
module Ids {

  function Abs(x: int): nat
  {
    if x < 0 then -x else x
  }

  /** Domain sizes are positive. */
  predicate ValidValues(value: seq<int>)
  {
    forall i :: 0 <= i < |value| ==> value[i] >= 1
  }

  /** value[0] + ... + value[i-1]; nothing for i <= 0. */
  function Offset(value: seq<int>, i: int): int
    requires i <= |value|
    decreases i
  {
    if i <= 0 then 0 else Offset(value, i - 1) + value[i - 1]
  }

  /** The number of ids. */
  function Total(value: seq<int>): int
  {
    Offset(value, |value|)
  }

  /** The id of value j of parameter i: `relation[i][j]`. */
  function Id(value: seq<int>, i: int, j: int): int
    requires 0 <= i < |value|
  {
    1 + Offset(value, i) + j
  }

  /** j is a value of parameter i. */
  predicate IsPair(value: seq<int>, i: int, j: int)
  {
    0 <= i < |value| && 0 <= j < value[i]
  }

  /** Models the mapping loop of the `CTModel` constructor (lines 88-97): row i of
      `relation` lists the ids of parameter i's values, counting on from where
      row i - 1 stopped. */
  method BuildRelation(value: seq<int>) returns (relation: seq<seq<int>>)
    requires forall i :: 0 <= i < |value| ==> value[i] >= 0
    ensures |relation| == |value|
    ensures forall i :: 0 <= i < |value| ==> |relation[i]| == value[i]
    ensures forall i, j :: IsPair(value, i, j) ==> relation[i][j] == Id(value, i, j)
  {
    relation := [];
    var start := 1;
    var i := 0;
    while i < |value|
      invariant 0 <= i <= |value| && |relation| == i
      invariant start == 1 + Offset(value, i)
      invariant forall i' :: 0 <= i' < i ==> |relation[i']| == value[i']
      invariant forall i', j :: 0 <= i' < i && 0 <= j < value[i'] ==> relation[i'][j] == Id(value, i', j)
    {
      var row := [];
      var j := 0;
      while j < value[i]
        invariant 0 <= j <= value[i] && |row| == j
        invariant start == 1 + Offset(value, i) + j
        invariant forall j' :: 0 <= j' < j ==> row[j'] == Id(value, i, j')
      {
        row := row + [start];
        j := j + 1;
        start := start + 1;
      }
      relation := relation + [row];
      i := i + 1;
    }
  }

  lemma {:induction false} OffsetMonotone(value: seq<int>, i: int, i': int)
    requires ValidValues(value) && 0 <= i <= i' <= |value|
    ensures Offset(value, i) <= Offset(value, i')
    ensures i < i' ==> Offset(value, i) < Offset(value, i')
    decreases i' - i
  {
    if i < i' {
      OffsetMonotone(value, i, i' - 1);
    }
  }

  /** The ids of parameter i fill the interval (Offset(i), Offset(i + 1)]. */
  lemma IdRange(value: seq<int>, i: int, j: int)
    requires ValidValues(value) && IsPair(value, i, j)
    ensures Offset(value, i) < Id(value, i, j) <= Offset(value, i + 1)
    ensures 1 <= Id(value, i, j) <= Total(value)
  {
    OffsetMonotone(value, 0, i);
    OffsetMonotone(value, i + 1, |value|);
  }

  /** Ids increase strictly with (parameter, value) in lexicographic order; in
      particular the mapping is injective. */
  lemma IdIncreasing(value: seq<int>, i: int, j: int, i': int, j': int)
    requires ValidValues(value) && IsPair(value, i, j) && IsPair(value, i', j')
    requires i < i' || (i == i' && j < j')
    ensures Id(value, i, j) < Id(value, i', j')
  {
    if i < i' {
      IdRange(value, i, j);
      IdRange(value, i', j');
      OffsetMonotone(value, i + 1, i');
    }
  }

  lemma IdInjective(value: seq<int>, i: int, j: int, i': int, j': int)
    requires ValidValues(value) && IsPair(value, i, j) && IsPair(value, i', j')
    ensures Id(value, i, j) == Id(value, i', j') <==> i == i' && j == j'
  {
    if i < i' || (i == i' && j < j') {
      IdIncreasing(value, i, j, i', j');
    } else if i' < i || (i == i' && j' < j) {
      IdIncreasing(value, i', j', i, j);
    }
  }

  /** The parameter an id in [1, Total] belongs to, searching from parameter i. */
  function ParamFrom(value: seq<int>, id: int, i: int): (p: int)
    requires ValidValues(value) && 0 <= i < |value| && Offset(value, i) < id <= Total(value)
    ensures i <= p < |value| && Offset(value, p) < id <= Offset(value, p + 1)
    decreases |value| - i
  {
    if id <= Offset(value, i + 1) then i
    else ParamFrom(value, id, i + 1)
  }

  /** The parameter of an id: the one whose interval of ids contains it. */
  function ParamOf(value: seq<int>, id: int): (p: int)
    requires ValidValues(value) && 1 <= id <= Total(value)
    ensures 0 <= p < |value| && IsPair(value, p, id - 1 - Offset(value, p))
    ensures Id(value, p, id - 1 - Offset(value, p)) == id
  {
    assert |value| > 0;
    ParamFrom(value, id, 0)
  }

  /** Pairs map into [1, Total] without collisions; with `ParamOf`, which finds
      a pair for every id in [1, Total], the mapping is a bijection. */
  lemma IdBijection(value: seq<int>)
    requires ValidValues(value)
    ensures forall i, j :: IsPair(value, i, j) ==> 1 <= Id(value, i, j) <= Total(value)
    ensures forall i, j, i', j' :: IsPair(value, i, j) && IsPair(value, i', j') && Id(value, i, j) == Id(value, i', j') ==> i == i' && j == j'
  {
    forall i, j | IsPair(value, i, j)
      ensures 1 <= Id(value, i, j) <= Total(value)
    {
      IdRange(value, i, j);
    }
    forall i, j, i', j' | IsPair(value, i, j) && IsPair(value, i', j') && Id(value, i, j) == Id(value, i', j')
      ensures i == i' && j == j'
    {
      IdInjective(value, i, j, i', j');
    }
  }

  /** The parameter of the id of (i, j) is i. */
  lemma ParamOfId(value: seq<int>, i: int, j: int)
    requires ValidValues(value) && IsPair(value, i, j)
    ensures 1 <= Id(value, i, j) <= Total(value)
    ensures ParamOf(value, Id(value, i, j)) == i
  {
    IdRange(value, i, j);
    var id := Id(value, i, j);
    var p := ParamOf(value, id);
    IdInjective(value, i, j, p, id - 1 - Offset(value, p));
  }

  /** The literal of "par/val": minus the id of that pair. */
  function Literal(value: seq<int>, par: int, val: int): int
    requires par <= |value|
  {
    -(1 + Offset(value, par) + val)
  }

  /** Models the literal loop of the `CTModel` constructor (lines 65-70): the
      variable starts at 1, adds the sizes of the parameters before `par` and
      then `val`, and the literal is its negation. For a real pair that is the
      negated id, a negative number. */
  method EncodeLiteral(value: seq<int>, par: int, val: int) returns (lit: int)
    requires par <= |value|
    ensures lit == Literal(value, par, val)
    ensures 0 <= par < |value| ==> lit == -Id(value, par, val)
    ensures ValidValues(value) && IsPair(value, par, val) ==> lit < 0 && Abs(lit) == Id(value, par, val)
  {
    var variable := 1;
    var k := 0;
    while k < par
      invariant (k == 0 || k <= par) && 0 <= k <= |value|
      invariant variable == 1 + Offset(value, k)
    {
      variable := variable + value[k];
      k := k + 1;
    }
    assert k == par || par <= 0;
    variable := variable + val;
    lit := 0 - variable;
    if ValidValues(value) && IsPair(value, par, val) {
      IdRange(value, par, val);
    }
  }

  /** Models the constraint transformation of the `CTModel` constructor
      (lines 57-73) on (par, val) pairs: each constraint becomes the list of its
      literals, in the given order. */
  method EncodeConstraints(value: seq<int>, cons: seq<seq<(int, int)>>) returns (constraint: seq<seq<int>>)
    requires forall c, l :: 0 <= c < |cons| && 0 <= l < |cons[c]| ==> cons[c][l].0 <= |value|
    ensures |constraint| == |cons|
    ensures forall c :: 0 <= c < |cons| ==> |constraint[c]| == |cons[c]|
    ensures forall c, l :: 0 <= c < |cons| && 0 <= l < |cons[c]| ==>
      constraint[c][l] == Literal(value, cons[c][l].0, cons[c][l].1)
  {
    constraint := [];
    var c := 0;
    while c < |cons|
      invariant 0 <= c <= |cons| && |constraint| == c
      invariant forall c' :: 0 <= c' < c ==> |constraint[c']| == |cons[c']|
      invariant forall c', l :: 0 <= c' < c && 0 <= l < |cons[c']| ==>
        constraint[c'][l] == Literal(value, cons[c'][l].0, cons[c'][l].1)
    {
      var formula := [];
      var index := 0;
      while index < |cons[c]|
        invariant 0 <= index <= |cons[c]| && |formula| == index
        invariant forall l :: 0 <= l < index ==> formula[l] == Literal(value, cons[c][l].0, cons[c][l].1)
      {
        var lit := EncodeLiteral(value, cons[c][index].0, cons[c][index].1);
        formula := formula + [lit];
        index := index + 1;
      }
      constraint := constraint + [formula];
      c := c + 1;
    }
  }

  /** Some constraint literal has, as magnitude, the id of a value of parameter i. */
  predicate Mentioned(value: seq<int>, constraint: seq<seq<int>>, i: int)
    requires 0 <= i < |value|
  {
    exists j, c, l :: 0 <= j < value[i] && 0 <= c < |constraint| && 0 <= l < |constraint[c]| &&
      Abs(constraint[c][l]) == Id(value, i, j)
  }

  /** Models `constrainedParameters` of the `CTModel` constructor (lines 79-97):
      the parameters one of whose ids occurs, by magnitude, in some constraint. */
  function ConstrainedParameters(value: seq<int>, constraint: seq<seq<int>>): (r: set<int>)
    requires ValidValues(value)
    ensures forall i :: i in r <==> 0 <= i < |value| && Mentioned(value, constraint, i)
  {
    var r := set c, l | 0 <= c < |constraint| && 0 <= l < |constraint[c]| && 1 <= Abs(constraint[c][l]) <= Total(value)
      :: ParamOf(value, Abs(constraint[c][l]));
    ConstrainedParametersMeaning(value, constraint, r);
    r
  }

  lemma ConstrainedParametersMeaning(value: seq<int>, constraint: seq<seq<int>>, r: set<int>)
    requires ValidValues(value)
    requires r == set c, l | 0 <= c < |constraint| && 0 <= l < |constraint[c]| && 1 <= Abs(constraint[c][l]) <= Total(value)
      :: ParamOf(value, Abs(constraint[c][l]))
    ensures forall i :: i in r <==> 0 <= i < |value| && Mentioned(value, constraint, i)
  {
    forall i
      ensures i in r <==> 0 <= i < |value| && Mentioned(value, constraint, i)
    {
      if i in r {
        var c, l :| 0 <= c < |constraint| && 0 <= l < |constraint[c]| && 1 <= Abs(constraint[c][l]) <= Total(value)
          && ParamOf(value, Abs(constraint[c][l])) == i;
        var id := Abs(constraint[c][l]);
        assert Id(value, i, id - 1 - Offset(value, i)) == id;
      }
      if 0 <= i < |value| && Mentioned(value, constraint, i) {
        var j, c, l :| 0 <= j < value[i] && 0 <= c < |constraint| && 0 <= l < |constraint[c]| &&
          Abs(constraint[c][l]) == Id(value, i, j);
        ParamOfId(value, i, j);
      }
    }
  }

  /** The example of the source's comment: five parameters of three values each;
      parameter 2 (third column) has ids 7, 8, 9, and "2/2" is the literal -9. */
  lemma MappingExample()
    ensures Id([3, 3, 3, 3, 3], 2, 0) == 7 && Id([3, 3, 3, 3, 3], 4, 2) == 15
    ensures Literal([3, 3, 3, 3, 3], 2, 2) == -9
  {
  }
}
