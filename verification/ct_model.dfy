/** The combinatorial test model `CTModel` (parameters, values, strength,
    constraints) and its validity queries. The coverage bookkeeping on the same
    record is in module `Combinations`. */
module CombinatorialModel {
  import opened Wrappers
  import opened Binomial
  import opened Subsets
  import opened MixedRadix
  import BoolMatrix
  import opened Ids
  import opened Constraints
  import opened Matching
  import opened Checker
  import opened Closure

  /** A model: `|value|` parameters with value[i] values each, strength `tWay`,
      the original constraints as literal lists, the id mapping `relation`, the
      constrained parameters, the minimum forbidden tuples of the checker and
      the coverage state that `initialization` sets up. */
  datatype CTModel = CTModel(
    value: seq<int>,
    tWay: nat,
    constraint: seq<seq<int>>,
    relation: seq<seq<int>>,
    constrainedParameters: set<int>,
    mft: seq<Constraint>,
    uniformRow: nat,
    testCaseCoverMax: nat,
    allPc: seq<seq<int>>,
    combination: BoolMatrix.BArray,
    combRaw: int,
    combAll: int,
    combUncovered: int)

  /** A t-way tuple: parameters `position` take the values `schema`. */
  datatype Tuple = Tuple(position: seq<int>, schema: seq<int>)

  /** The t-way parameter combinations of n parameters, in lexicographic order:
      `ALG.allCombination`, with what is known of it. */
  function Positions(n: nat, t: nat): (r: seq<seq<int>>)
    ensures |r| == Binom(n, t)
    ensures forall i, k :: 0 <= i < |r| && 0 <= k < |r[i]| ==> 0 <= r[i][k] < n
  {
    AllCombinationSpec(n, t);
    AllCombination(n, t)
  }

  /** Row i of the list is a t-way combination of rank i. */
  lemma PositionAt(n: nat, t: nat, i: int)
    requires 0 <= i < |Positions(n, t)|
    ensures |Positions(n, t)[i]| == t && IsSubsetOf(Positions(n, t)[i], 0, n) && RankFrom(Positions(n, t)[i], 0, n) == i
  {
    AllCombinationSpec(n, t);
  }

  /** A t-way parameter combination sits in row `RankFrom` of the list. */
  lemma PositionRow(n: nat, t: nat, pos: seq<int>)
    requires |pos| == t && IsSubsetOf(pos, 0, n)
    ensures RankFrom(pos, 0, n) < |Positions(n, t)| && Positions(n, t)[RankFrom(pos, 0, n)] == pos
  {
    AllCombinationSpec(n, t);
    RankIndexesEnum(pos, 0, n);
  }

  /** The values a test gives the parameters `pos`. */
  function Proj(test: seq<int>, pos: seq<int>): (sch: seq<int>)
    requires forall k :: 0 <= k < |pos| ==> 0 <= pos[k] < |test|
    ensures |sch| == |pos| && forall k :: 0 <= k < |pos| ==> sch[k] == test[pos[k]]
  {
    seq(|pos|, k requires 0 <= k < |pos| => test[pos[k]])
  }

  /** The partial test of a tuple: -1 everywhere but at `position`, where the
      later of two entries for one parameter wins. */
  function Tp(n: nat, position: seq<int>, schema: seq<int>): (tp: seq<int>)
    requires |schema| >= |position| && forall k :: 0 <= k < |position| ==> 0 <= position[k] < n
    ensures |tp| == n
  {
    if |position| == 0 then seq(n, _ => -1)
    else
      var k := |position| - 1;
      Tp(n, position[..k], schema)[position[k] := schema[k]]
  }

  /** Each parameter of a tuple gets its value in the tuple's test, and every
      other parameter stays free. */
  lemma {:induction false} TpMeaning(n: nat, position: seq<int>, schema: seq<int>)
    requires |schema| >= |position| && forall k :: 0 <= k < |position| ==> 0 <= position[k] < n
    ensures |Tp(n, position, schema)| == n
    ensures forall i :: 0 <= i < n && i !in position ==> Tp(n, position, schema)[i] == -1
    ensures forall k :: 0 <= k < |position| && position[k] !in position[k + 1..] ==>
      Tp(n, position, schema)[position[k]] == schema[k]
  {
    if |position| > 0 {
      var k := |position| - 1;
      var front := position[..k];
      TpMeaning(n, front, schema);
      forall i | 0 <= i < n && i !in position
        ensures Tp(n, position, schema)[i] == -1
      {
        assert i !in front;
      }
      forall k' | 0 <= k' < |position| && position[k'] !in position[k' + 1..]
        ensures Tp(n, position, schema)[position[k']] == schema[k']
      {
        if k' < k {
          assert position[k] in position[k' + 1..];
          assert front[k'] == position[k'];
          assert front[k' + 1..] + [position[k]] == position[k' + 1..];
        }
      }
    }
  }

  /** Models the `CTModel` constructor (lines 51-102) for the parsed
      constraints `cons`, each a list of (parameter, value) pairs, with at most
      `rounds` rounds of the checker's closure: literal -Id for each pair, C(n, t)
      uniform rows, the constrained parameters, the id mapping and a checker
      whose forbidden tuples reject exactly the complete tests that hit an
      original constraint. Nothing is set up for coverage yet. */
  method NewModel(value: seq<int>, tWay: nat, cons: seq<seq<(int, int)>>, rounds: nat) returns (m: CTModel)
    requires ValidValues(value)
    requires forall c, l :: 0 <= c < |cons| && 0 <= l < |cons[c]| ==> IsPair(value, cons[c][l].0, cons[c][l].1)
    requires forall c, l, l' :: 0 <= c < |cons| && 0 <= l < l' < |cons[c]| ==> cons[c][l] != cons[c][l']
    ensures m.value == value && m.tWay == tWay
    ensures |m.constraint| == |cons|
    ensures forall c :: 0 <= c < |cons| ==> |m.constraint[c]| == |cons[c]|
    ensures forall c, l :: 0 <= c < |cons| && 0 <= l < |cons[c]| ==>
      IsPair(value, cons[c][l].0, cons[c][l].1) && m.constraint[c][l] == -Id(value, cons[c][l].0, cons[c][l].1)
    ensures m.uniformRow == Binom(|value|, tWay) && m.testCaseCoverMax == m.uniformRow
    ensures forall i :: i in m.constrainedParameters <==> 0 <= i < |value| && Mentioned(value, m.constraint, i)
    ensures |m.relation| == |value| && forall i :: 0 <= i < |value| ==> |m.relation[i]| == value[i]
    ensures forall i, j :: IsPair(value, i, j) ==> m.relation[i][j] == Id(value, i, j)
    ensures WellFormed(value, m.mft) && Sound(value, m.constraint, m.mft) && Covers(m.constraint, m.mft)
    ensures forall test :: Complete(value, test) ==>
      (Valid(m.mft, Encode(value, test)) <==> !HitsSome(value, m.constraint, test))
    ensures m.allPc == [] && m.combination.matrix == []
  {
    forall c, l | 0 <= c < |cons| && 0 <= l < |cons[c]|
      ensures cons[c][l].0 <= |value|
    {
    }
    var constraint := EncodeConstraints(value, cons);
    forall c | 0 <= c < |constraint|
      ensures Literals(value, constraint[c]) && Distinct(constraint[c])
    {
      forall l | 0 <= l < |constraint[c]|
        ensures constraint[c][l] < 0 && 1 <= Abs(constraint[c][l]) <= Total(value)
      {
        IdRange(value, cons[c][l].0, cons[c][l].1);
      }
      forall l, l' | 0 <= l < l' < |constraint[c]|
        ensures constraint[c][l] != constraint[c][l']
      {
        IdInjective(value, cons[c][l].0, cons[c][l].1, cons[c][l'].0, cons[c][l'].1);
      }
    }
    var uniformRow := Combine(|value|, tWay);
    var constrained := ConstrainedParameters(value, constraint);
    var relation := BuildRelation(value);
    var mft := Init(value, constraint, rounds);
    m := CTModel(value, tWay, constraint, relation, constrained, mft, uniformRow, uniformRow,
                 [], BoolMatrix.NewRows(0), 0, 0, 0);
  }

  /** Models `isValid(int[])` (lines 132-144) with the corrected checker: the
      test is valid when it matches no minimum forbidden tuple. */
  method IsValidTest(m: CTModel, test: seq<int>) returns (r: bool)
    requires |m.mft| > 0 ==> |test| <= |m.value|
    ensures |m.mft| == 0 ==> r
    ensures |m.mft| > 0 ==> r == Valid(m.mft, Encode(m.value, test))
  {
    var o := IsValid(m.value, m.mft, test, false);
    r := o.value;
  }

  /** Models `isValid(Tuple)` (lines 146-153): the checker is asked only when
      one of the tuple's parameters is constrained; otherwise the tuple is
      taken to be valid. */
  method IsValidTuple(m: CTModel, position: seq<int>, test: seq<int>) returns (r: bool)
    requires |m.mft| > 0 ==> |test| <= |m.value|
    ensures (forall k :: 0 <= k < |position| ==> position[k] !in m.constrainedParameters) ==> r
    ensures (exists k :: 0 <= k < |position| && position[k] in m.constrainedParameters) ==>
      (r <==> |m.mft| == 0 || Valid(m.mft, Encode(m.value, test)))
  {
    var k := 0;
    while k < |position|
      invariant 0 <= k <= |position|
      invariant forall k' :: 0 <= k' < k ==> position[k'] !in m.constrainedParameters
    {
      if position[k] in m.constrainedParameters {
        r := IsValidTest(m, test);
        return;
      }
      k := k + 1;
    }
    return true;
  }

  /** The shortcut of `isValid(Tuple)` agrees with the checker when every
      literal of every forbidden tuple names a constrained parameter, no
      forbidden tuple is empty and the test assigns only the tuple's parameters. */
  lemma ShortcutSound(value: seq<int>, mft: seq<Constraint>, constrained: set<int>, position: seq<int>, test: seq<int>)
    requires ValidValues(value) && InRange(value, test)
    requires forall n :: 0 <= n < |mft| ==> Ordered(mft[n].disjunction) && |mft[n].disjunction| > 0
    requires forall n, j :: 0 <= n < |mft| && 0 <= j < |mft[n].disjunction| ==>
      1 <= Abs(mft[n].disjunction[j]) <= Total(value) && ParamOf(value, Abs(mft[n].disjunction[j])) in constrained
    requires forall i :: 0 <= i < |test| && test[i] != -1 ==> i in position
    requires forall k :: 0 <= k < |position| ==> position[k] !in constrained
    ensures Valid(mft, Encode(value, test))
  {
    forall n | 0 <= n < |mft|
      ensures !Matches(mft[n].disjunction, Encode(value, test))
    {
      var c := mft[n].disjunction;
      MatchesMeaning(value, c, test);
      if Hit(value, c, test) {
        assert Assigns(value, test, Abs(c[0]));
        var i :| 0 <= i < |test| && test[i] != -1 && Id(value, i, test[i]) == Abs(c[0]);
        ParamOfId(value, i, test[i]);
        assert false;
      }
    }
  }

  /** Models the partial test built by `isValid(int[], int[])` (lines 161-165). */
  method BuildTp(n: nat, position: seq<int>, schema: seq<int>) returns (tp: seq<int>)
    requires |schema| >= |position| && forall k :: 0 <= k < |position| ==> 0 <= position[k] < n
    ensures tp == Tp(n, position, schema)
  {
    tp := seq(n, _ => -1);
    var k := 0;
    while k < |position|
      invariant 0 <= k <= |position|
      invariant tp == Tp(n, position[..k], schema)
    {
      assert position[..k + 1][..k] == position[..k];
      tp := tp[position[k] := schema[k]];
      k := k + 1;
    }
    assert position[..k] == position;
  }

  /** A tuple over ascending parameters, each with a value of its domain. */
  predicate InDomain(value: seq<int>, position: seq<int>, schema: seq<int>)
  {
    Ascending(position) && |schema| == |position| &&
    forall k :: 0 <= k < |position| ==> IsPair(value, position[k], schema[k])
  }

  /** The tuple (position, schema) is valid for the corrected checker. */
  ghost predicate TupleValid(m: CTModel, position: seq<int>, schema: seq<int>)
    requires |schema| >= |position| && forall k :: 0 <= k < |position| ==> 0 <= position[k] < |m.value|
  {
    Valid(m.mft, Encode(m.value, Tp(|m.value|, position, schema)))
  }

  /** Models `isValid(int[] position, int[] schema)` (lines 160-167): the
      tuple's partial test is handed to the checker. For a t-way tuple over
      ascending parameters with values in their domains this rejects exactly
      the tuples that hit a minimum forbidden tuple. */
  method IsValidAt(m: CTModel, position: seq<int>, schema: seq<int>) returns (r: bool)
    requires |schema| >= |position| && forall k :: 0 <= k < |position| ==> 0 <= position[k] < |m.value|
    ensures r == TupleValid(m, position, schema)
    ensures ValidValues(m.value) && WellFormed(m.value, m.mft) && InDomain(m.value, position, schema) ==>
      (r <==> forall n :: 0 <= n < |m.mft| ==> !Hit(m.value, m.mft[n].disjunction, Tp(|m.value|, position, schema)))
  {
    var tp := BuildTp(|m.value|, position, schema);
    r := IsValidTest(m, tp);
    TpMeaning(|m.value|, position, schema);
    if ValidValues(m.value) && WellFormed(m.value, m.mft) && InDomain(m.value, position, schema) {
      forall i | 0 <= i < |tp| && tp[i] != -1
        ensures IsPair(m.value, i, tp[i])
      {
        var k :| 0 <= k < |position| && position[k] == i;
        assert position[k] !in position[k + 1..];
      }
      ValidMeaning(m.value, m.mft, tp);
    }
  }
}
