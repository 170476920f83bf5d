/** The computation of the minimum forbidden tuples in `ValidityChecker.init`
    (lines 29-208). Every round takes, for each implicit parameter, one
    constraint per value of that parameter, takes the value out of each and
    unions the rests: whatever complete test hits the union assigns the
    parameter some value, and so hits the constraint used for that value.
    The rounds therefore only add implied constraints, and minimisation only
    removes constraints that contain another; both facts hold after any number
    of rounds, which is how the loop, which has no evident variant, is bounded
    here by a number of rounds. */
module Closure {
  import opened Ids
  import opened Constraints
  import opened Matching
  import opened Checker

  /** A test that assigns every parameter one of its values. */
  predicate Complete(value: seq<int>, test: seq<int>)
  {
    |test| == |value| && forall i :: 0 <= i < |test| ==> IsPair(value, i, test[i])
  }

  /** The test hits one of the original constraints. */
  predicate HitsSome(value: seq<int>, orig: seq<seq<int>>, test: seq<int>)
    requires |test| <= |value|
  {
    exists o :: o in orig && Hit(value, o, test)
  }

  /** Every complete test that hits c hits one of the original constraints. */
  ghost predicate Implied(value: seq<int>, orig: seq<seq<int>>, c: seq<int>)
  {
    forall test :: Complete(value, test) && Hit(value, c, test) ==> HitsSome(value, orig, test)
  }

  /** Every constraint of cs is implied by the originals. */
  ghost predicate Sound(value: seq<int>, orig: seq<seq<int>>, cs: seq<Constraint>)
  {
    forall n :: 0 <= n < |cs| ==> Implied(value, orig, cs[n].disjunction)
  }

  /** Every original constraint contains the literals of one of cs. */
  ghost predicate Covers(orig: seq<seq<int>>, cs: seq<Constraint>)
  {
    forall o :: o in orig ==> exists n :: 0 <= n < |cs| && Included(cs[n].disjunction, o)
  }

  /** Every constraint is a list of literals in decreasing order. */
  predicate WellFormed(value: seq<int>, cs: seq<Constraint>)
  {
    forall n :: 0 <= n < |cs| ==> Literals(value, cs[n].disjunction) && Ordered(cs[n].disjunction)
  }

  /** A test that hits b hits every constraint whose literals b contains. */
  lemma HitIncluded(value: seq<int>, a: seq<int>, b: seq<int>, test: seq<int>)
    requires |test| <= |value| && Included(a, b) && Hit(value, b, test)
    ensures Hit(value, a, test)
  {
    forall j | 0 <= j < |a|
      ensures Assigns(value, test, Abs(a[j]))
    {
      var q :| 0 <= q < |b| && b[q] == a[j];
    }
  }

  /** A complete test never hits a tuple naming two values of one parameter,
      so the tuples `Drop` rejects are worthless. */
  lemma ClashNeverHit(value: seq<int>, m: seq<int>, test: seq<int>)
    requires ValidValues(value) && Literals(value, m) && Complete(value, test)
    requires !OnePerParam(value, m)
    ensures !Hit(value, m, test)
  {
    var p, q :| 0 <= p < q < |m| && ParamOf(value, Abs(m[p])) == ParamOf(value, Abs(m[q])) && m[p] != m[q];
    if Hit(value, m, test) {
      assert Assigns(value, test, Abs(m[p])) && Assigns(value, test, Abs(m[q]));
      var i :| 0 <= i < |test| && test[i] != -1 && Id(value, i, test[i]) == Abs(m[p]);
      var i' :| 0 <= i' < |test| && test[i'] != -1 && Id(value, i', test[i']) == Abs(m[q]);
      ParamOfId(value, i, test[i]);
      ParamOfId(value, i', test[i']);
      assert false;
    }
  }

  /** t contains the rest of a constraint of cs holding value v of parameter ip,
      once that literal is taken out. */
  ghost predicate Derivable(cs: seq<Constraint>, value: seq<int>, ip: int, v: int, t: seq<int>)
    requires 0 <= ip < |value|
  {
    exists n, k :: 0 <= n < |cs| && 0 <= k < |cs[n].disjunction| &&
      Abs(cs[n].disjunction[k]) == Id(value, ip, v) &&
      Included(cs[n].disjunction[..k] + cs[n].disjunction[k + 1..], t)
  }

  /** t is derivable for the values 0 .. upto - 1 of parameter ip. */
  ghost predicate DerivedUpTo(cs: seq<Constraint>, value: seq<int>, ip: int, upto: int, t: seq<int>)
    requires 0 <= ip < |value|
  {
    forall v :: 0 <= v < upto ==> Derivable(cs, value, ip, v, t)
  }

  lemma DerivableGrows(cs: seq<Constraint>, value: seq<int>, ip: int, v: int, t: seq<int>, t': seq<int>)
    requires 0 <= ip < |value| && Derivable(cs, value, ip, v, t)
    requires forall e :: e in t ==> e in t'
    ensures Derivable(cs, value, ip, v, t')
  {
    var n, k :| 0 <= n < |cs| && 0 <= k < |cs[n].disjunction| &&
      Abs(cs[n].disjunction[k]) == Id(value, ip, v) &&
      Included(cs[n].disjunction[..k] + cs[n].disjunction[k + 1..], t);
  }

  /** A tuple derived for every value of a parameter is implied: a complete
      test hitting it assigns the parameter some value w and so hits the
      constraint used for w. */
  lemma DerivedImplied(value: seq<int>, orig: seq<seq<int>>, cs: seq<Constraint>, ip: int, t: seq<int>)
    requires ValidValues(value) && 0 <= ip < |value| && Sound(value, orig, cs)
    requires DerivedUpTo(cs, value, ip, value[ip], t)
    ensures Implied(value, orig, t)
  {
    forall test | Complete(value, test) && Hit(value, t, test)
      ensures HitsSome(value, orig, test)
    {
      var w := test[ip];
      assert Derivable(cs, value, ip, w, t);
      var n, k :| 0 <= n < |cs| && 0 <= k < |cs[n].disjunction| &&
        Abs(cs[n].disjunction[k]) == Id(value, ip, w) &&
        Included(cs[n].disjunction[..k] + cs[n].disjunction[k + 1..], t);
      var c := cs[n].disjunction;
      var rest := c[..k] + c[k + 1..];
      HitIncluded(value, rest, t, test);
      forall j | 0 <= j < |c|
        ensures Assigns(value, test, Abs(c[j]))
      {
        if j == k {
          assert test[ip] != -1 && Id(value, ip, test[ip]) == Abs(c[j]);
        } else {
          var jj := if j < k then j else j - 1;
          assert rest[jj] == c[j];
        }
      }
      assert Hit(value, c, test);
      assert Implied(value, orig, c);
    }
  }

  lemma RemoveOrdered(value: seq<int>, c: seq<int>, k: int)
    requires Literals(value, c) && Ordered(c) && 0 <= k < |c|
    ensures Literals(value, c[..k] + c[k + 1..]) && Ordered(c[..k] + c[k + 1..])
  {
    var r := c[..k] + c[k + 1..];
    assert forall p :: 0 <= p < |r| ==> r[p] == if p < k then c[p] else c[p + 1];
  }

  /** t is c without one literal whose magnitude is id. */
  ghost predicate IsRest(c: seq<int>, id: int, t: seq<int>)
  {
    exists k :: 0 <= k < |c| && Abs(c[k]) == id && t == c[..k] + c[k + 1..]
  }

  /** t is the rest, for id, of some constraint of cs. */
  ghost predicate RestIn(cs: seq<Constraint>, id: int, t: seq<int>)
  {
    exists n :: 0 <= n < |cs| && IsRest(cs[n].disjunction, id, t)
  }

  lemma RestDerivable(cs: seq<Constraint>, value: seq<int>, ip: int, v: int, t: seq<int>)
    requires 0 <= ip < |value| && RestIn(cs, Id(value, ip, v), t)
    ensures Derivable(cs, value, ip, v, t)
  {
    var n :| 0 <= n < |cs| && IsRest(cs[n].disjunction, Id(value, ip, v), t);
    var k :| 0 <= k < |cs[n].disjunction| && Abs(cs[n].disjunction[k]) == Id(value, ip, v) &&
      t == cs[n].disjunction[..k] + cs[n].disjunction[k + 1..];
    assert Included(t, t);
  }

  /** Models the search of one constraint in lines 84-97: the constraint
      without its first literal of magnitude id, when there is one. */
  method FirstRest(value: seq<int>, cons: seq<int>, id: int) returns (found: bool, rest: seq<int>)
    requires Literals(value, cons) && Ordered(cons)
    ensures found <==> id in Magnitudes(cons)
    ensures found ==> IsRest(cons, id, rest) && Literals(value, rest) && Ordered(rest)
  {
    var k := 0;
    while k < |cons|
      invariant 0 <= k <= |cons|
      invariant forall k' :: 0 <= k' < k ==> Abs(cons[k']) != id
    {
      if Abs(cons[k]) == id {
        rest := RemoveAt(cons, k);
        RemoveOrdered(value, cons, k);
        return true, rest;
      }
      k := k + 1;
    }
    return false, [];
  }

  /** Models the collection of `tmpCons` (lines 82-99): every constraint
      holding the id (by magnitude) contributes itself without its first such
      literal, and nothing else is collected. */
  method RestsOf(cs: seq<Constraint>, value: seq<int>, id: int) returns (tmp: seq<Constraint>)
    requires WellFormed(value, cs)
    ensures WellFormed(value, tmp)
    ensures forall p :: 0 <= p < |tmp| ==> RestIn(cs, id, tmp[p].disjunction)
    ensures forall n :: 0 <= n < |cs| && id in Magnitudes(cs[n].disjunction) ==>
      exists p :: 0 <= p < |tmp| && IsRest(cs[n].disjunction, id, tmp[p].disjunction)
  {
    tmp := [];
    var n := 0;
    while n < |cs|
      invariant 0 <= n <= |cs|
      invariant RestsBelow(cs, value, id, n, tmp)
    {
      tmp := RestOf(cs, value, id, n, tmp);
      n := n + 1;
    }
  }

  /** tmp holds rests for id of constraints of cs, one for each of the first n
      constraints that holds id. */
  ghost predicate RestsBelow(cs: seq<Constraint>, value: seq<int>, id: int, n: int, tmp: seq<Constraint>)
  {
    WellFormed(value, tmp) &&
    (forall p :: 0 <= p < |tmp| ==> RestIn(cs, id, tmp[p].disjunction)) &&
    (forall n' :: 0 <= n' < n && n' < |cs| && id in Magnitudes(cs[n'].disjunction) ==>
      exists p :: 0 <= p < |tmp| && IsRest(cs[n'].disjunction, id, tmp[p].disjunction))
  }

  /** One pass of the collection loop: the rest of constraint n, if it holds id. */
  method RestOf(cs: seq<Constraint>, value: seq<int>, id: int, n: int, tmp: seq<Constraint>) returns (tmp': seq<Constraint>)
    requires WellFormed(value, cs) && 0 <= n < |cs| && RestsBelow(cs, value, id, n, tmp)
    ensures RestsBelow(cs, value, id, n + 1, tmp')
  {
    var found, tmpArray := FirstRest(value, cs[n].disjunction, id);
    tmp' := tmp;
    if found {
      tmp' := tmp + [Constraint(tmpArray)];
    }
    forall n' | 0 <= n' < n + 1 && id in Magnitudes(cs[n'].disjunction)
      ensures exists p :: 0 <= p < |tmp'| && IsRest(cs[n'].disjunction, id, tmp'[p].disjunction)
    {
      if n' < n {
        var p :| 0 <= p < |tmp| && IsRest(cs[n'].disjunction, id, tmp[p].disjunction);
        assert tmp'[p] == tmp[p];
      } else {
        assert IsRest(cs[n'].disjunction, id, tmp'[|tmp'| - 1].disjunction);
      }
    }
  }

  /** The magnitudes of the literals of a constraint. */
  function Magnitudes(c: seq<int>): (r: set<int>)
    ensures forall m :: m in r <==> exists k :: 0 <= k < |c| && Abs(c[k]) == m
  {
    set k | 0 <= k < |c| :: Abs(c[k])
  }

  /** t holds exactly the literals of x and y. */
  ghost predicate Union(t: seq<int>, x: seq<int>, y: seq<int>)
  {
    forall e :: e in t <==> e in x || e in y
  }

  /** t is the union of a tuple of cart and a tuple of tmp. */
  ghost predicate UnionOf(cart: seq<Constraint>, tmp: seq<Constraint>, t: seq<int>)
  {
    exists a, b :: 0 <= a < |cart| && 0 <= b < |tmp| && Union(t, cart[a].disjunction, tmp[b].disjunction)
  }

  /** Models one step of the Cartesian product (lines 107-161): every pair of
      a tuple of `cart` and a rest of `tmp` is merged; a merge naming two values
      of one parameter is dropped, the others are deduplicated and kept once. */
  method ProductStep(cart: seq<Constraint>, tmp: seq<Constraint>, value: seq<int>) returns (out: seq<Constraint>)
    requires ValidValues(value) && WellFormed(value, cart) && WellFormed(value, tmp)
    ensures WellFormed(value, out)
    ensures forall p :: 0 <= p < |out| ==> OnePerParam(value, out[p].disjunction)
    ensures forall p :: 0 <= p < |out| ==> UnionOf(cart, tmp, out[p].disjunction)
    ensures forall p, q :: 0 <= p < q < |out| ==> out[p] != out[q]
  {
    out := [];
    var a := 0;
    while a < |cart|
      invariant 0 <= a <= |cart| && ProductSoFar(cart, tmp, value, out)
    {
      var b := 0;
      while b < |tmp|
        invariant 0 <= b <= |tmp| && ProductSoFar(cart, tmp, value, out)
      {
        out := ProductPair(cart, tmp, value, a, b, out);
        b := b + 1;
      }
      a := a + 1;
    }
  }

  /** The tuples collected so far: well formed, one value per parameter, each
      the union of a tuple of cart and one of tmp, no two equal. */
  ghost predicate ProductSoFar(cart: seq<Constraint>, tmp: seq<Constraint>, value: seq<int>, out: seq<Constraint>)
    requires ValidValues(value)
  {
    WellFormed(value, out) &&
    (forall p :: 0 <= p < |out| ==> OnePerParam(value, out[p].disjunction)) &&
    (forall p :: 0 <= p < |out| ==> UnionOf(cart, tmp, out[p].disjunction)) &&
    (forall p, q :: 0 <= p < q < |out| ==> out[p] != out[q])
  }

  /** The body of the product loops (lines 112-159) for the pair (a, b). */
  method ProductPair(cart: seq<Constraint>, tmp: seq<Constraint>, value: seq<int>, a: int, b: int, out: seq<Constraint>)
    returns (out': seq<Constraint>)
    requires ValidValues(value) && WellFormed(value, cart) && WellFormed(value, tmp)
    requires 0 <= a < |cart| && 0 <= b < |tmp| && ProductSoFar(cart, tmp, value, out)
    ensures ProductSoFar(cart, tmp, value, out')
  {
    out' := out;
    var x, y := cart[a].disjunction, tmp[b].disjunction;
    var mergeCons := Merge(x, y);
    MergedFacts(value, x, y);
    var drop := Drop(value, mergeCons);
    if !drop {
      var deducedCons := Dedup(mergeCons);
      var dup := IsDuplicated(out, deducedCons);
      if !dup {
        DedupFacts(value, mergeCons, deducedCons, x, y);
        assert UnionOf(cart, tmp, deducedCons);
        out' := out + [Constraint(deducedCons)];
      }
    }
  }

  lemma MergedFacts(value: seq<int>, x: seq<int>, y: seq<int>)
    requires Literals(value, x) && Ordered(x) && Literals(value, y) && Ordered(y)
    ensures Literals(value, Merged(x, y)) && NonIncreasing(Merged(x, y))
    ensures forall e :: e in Merged(x, y) <==> e in x || e in y
  {
    MergedMultiset(x, y);
    MergedSorted(x, y);
    var m := Merged(x, y);
    forall e
      ensures e in m <==> e in x || e in y
    {
      assert e in m <==> e in multiset(m);
    }
    forall p | 0 <= p < |m|
      ensures m[p] < 0 && 1 <= Abs(m[p]) <= Total(value)
    {
      assert m[p] in m;
    }
  }

  lemma DedupFacts(value: seq<int>, m: seq<int>, d: seq<int>, x: seq<int>, y: seq<int>)
    requires ValidValues(value) && Literals(value, m) && NonIncreasing(m) && OnePerParam(value, m)
    requires forall e :: e in m <==> e in x || e in y
    requires forall e :: e in d <==> e in m
    requires forall p, q :: 0 <= p < q < |d| ==> d[p] > d[q]
    ensures Literals(value, d) && Ordered(d) && OnePerParam(value, d)
    ensures Union(d, x, y)
  {
    forall p | 0 <= p < |d|
      ensures d[p] < 0 && 1 <= Abs(d[p]) <= Total(value)
    {
      assert d[p] in d;
      var k :| 0 <= k < |m| && m[k] == d[p];
    }
    forall p, q | 0 <= p < q < |d|
      ensures ParamOf(value, Abs(d[p])) == ParamOf(value, Abs(d[q])) ==> d[p] == d[q]
    {
      assert d[p] in m && d[q] in m;
      var p', q' :| 0 <= p' < |m| && 0 <= q' < |m| && m[p'] == d[p] && m[q'] == d[q];
      SameParamEqual(value, m, p', q');
    }
  }

  /** In a tuple with one literal per parameter, two literals of one parameter are equal. */
  lemma SameParamEqual(value: seq<int>, m: seq<int>, p: int, q: int)
    requires ValidValues(value) && Literals(value, m) && OnePerParam(value, m)
    requires 0 <= p < |m| && 0 <= q < |m|
    ensures ParamOf(value, Abs(m[p])) == ParamOf(value, Abs(m[q])) ==> m[p] == m[q]
  {
    if p > q {
      assert ParamOf(value, Abs(m[q])) == ParamOf(value, Abs(m[p])) ==> m[q] == m[p];
    }
  }

  /** Models the Cartesian product for one implicit parameter (lines 77-165):
      every tuple of the result is derived for every value of the parameter. */
  method CartesianOf(cs: seq<Constraint>, value: seq<int>, ip: int) returns (cart: seq<Constraint>)
    requires ValidValues(value) && 0 <= ip < |value| && WellFormed(value, cs)
    ensures WellFormed(value, cart)
    ensures forall p :: 0 <= p < |cart| ==> DerivedUpTo(cs, value, ip, value[ip], cart[p].disjunction)
  {
    cart := [];
    var ii := 0;
    while ii < value[ip]
      invariant 0 <= ii <= value[ip] && WellFormed(value, cart)
      invariant forall p :: 0 <= p < |cart| ==> DerivedUpTo(cs, value, ip, ii, cart[p].disjunction)
    {
      var tmpCons := RestsOf(cs, value, Id(value, ip, ii));
      if ii == 0 {
        cart := tmpCons;
        forall p | 0 <= p < |cart|
          ensures DerivedUpTo(cs, value, ip, 1, cart[p].disjunction)
        {
          RestDerivable(cs, value, ip, 0, cart[p].disjunction);
        }
      } else {
        var next := ProductStep(cart, tmpCons, value);
        forall p | 0 <= p < |next|
          ensures DerivedUpTo(cs, value, ip, ii + 1, next[p].disjunction)
        {
          assert UnionOf(cart, tmpCons, next[p].disjunction);
          var a, b :| 0 <= a < |cart| && 0 <= b < |tmpCons| &&
            Union(next[p].disjunction, cart[a].disjunction, tmpCons[b].disjunction);
          forall v | 0 <= v < ii + 1
            ensures Derivable(cs, value, ip, v, next[p].disjunction)
          {
            if v < ii {
              DerivableGrows(cs, value, ip, v, cart[a].disjunction, next[p].disjunction);
            } else {
              RestDerivable(cs, value, ip, v, tmpCons[b].disjunction);
              DerivableGrows(cs, value, ip, v, tmpCons[b].disjunction, next[p].disjunction);
            }
          }
        }
        cart := next;
      }
      ii := ii + 1;
    }
  }

  /** t is derived for every value of some parameter. */
  ghost predicate DerivedSome(cs: seq<Constraint>, value: seq<int>, t: seq<int>)
  {
    exists ip :: 0 <= ip < |value| && DerivedUpTo(cs, value, ip, value[ip], t)
  }

  /** Models the loop over the implicit parameters (lines 75-166): the new
      constraints of one round. */
  method DeriveRound(cs: seq<Constraint>, value: seq<int>, im: seq<int>) returns (newConstraint: seq<Constraint>)
    requires ValidValues(value) && WellFormed(value, cs)
    requires forall p :: 0 <= p < |im| ==> 0 <= im[p] < |value|
    ensures WellFormed(value, newConstraint)
    ensures forall p :: 0 <= p < |newConstraint| ==> DerivedSome(cs, value, newConstraint[p].disjunction)
  {
    newConstraint := [];
    var q := 0;
    while q < |im|
      invariant 0 <= q <= |im| && WellFormed(value, newConstraint)
      invariant forall p :: 0 <= p < |newConstraint| ==> DerivedSome(cs, value, newConstraint[p].disjunction)
    {
      var cartesian := CartesianOf(cs, value, im[q]);
      forall p | 0 <= p < |cartesian|
        ensures DerivedSome(cs, value, cartesian[p].disjunction)
      {
        assert DerivedUpTo(cs, value, im[q], value[im[q]], cartesian[p].disjunction);
      }
      newConstraint := newConstraint + cartesian;
      q := q + 1;
    }
  }

  /** Some literal of lits names a value of parameter k. */
  ghost predicate Names(value: seq<int>, lits: seq<int>, k: int)
  {
    ValidValues(value) &&
    exists y :: 0 <= y < |lits| && 1 <= Abs(lits[y]) <= Total(value) && ParamOf(value, Abs(lits[y])) == k
  }

  /** One of the constraints cs[from..] names a value of parameter k. */
  ghost predicate NamedAfter(value: seq<int>, cs: seq<Constraint>, from: nat, k: int)
  {
    exists p :: from <= p < |cs| && Names(value, cs[p].disjunction, k)
  }

  lemma NamesExtend(value: seq<int>, lits: seq<int>, y: int, k: int)
    requires ValidValues(value) && Literals(value, lits) && 0 <= y < |lits|
    ensures Names(value, lits[..y + 1], k) <==> Names(value, lits[..y], k) || ParamOf(value, Abs(lits[y])) == k
  {
    if Names(value, lits[..y + 1], k) {
      var y' :| 0 <= y' < y + 1 && 1 <= Abs(lits[..y + 1][y']) <= Total(value) &&
        ParamOf(value, Abs(lits[..y + 1][y'])) == k;
      if y' < y {
        assert lits[..y][y'] == lits[y'];
      }
    }
    if Names(value, lits[..y], k) {
      var y' :| 0 <= y' < y && 1 <= Abs(lits[..y][y']) <= Total(value) && ParamOf(value, Abs(lits[..y][y'])) == k;
      assert lits[..y + 1][y'] == lits[y'];
    }
    if ParamOf(value, Abs(lits[y])) == k {
      assert lits[..y + 1][y] == lits[y];
    }
  }

  lemma NamedAfterAppend(value: seq<int>, cs: seq<Constraint>, from: nat, c: Constraint, k: int)
    requires from <= |cs|
    ensures NamedAfter(value, cs + [c], from, k) <==> NamedAfter(value, cs, from, k) || Names(value, c.disjunction, k)
  {
    var cs' := cs + [c];
    if NamedAfter(value, cs', from, k) {
      var p :| from <= p < |cs'| && Names(value, cs'[p].disjunction, k);
      if p < |cs| {
        assert cs'[p] == cs[p];
      }
    }
    if NamedAfter(value, cs, from, k) {
      var p :| from <= p < |cs| && Names(value, cs[p].disjunction, k);
      assert cs'[p] == cs[p];
    }
    if Names(value, c.disjunction, k) {
      assert cs'[|cs|] == c;
    }
  }

  /** Models the parameter scan of lines 180-188 on an ordered constraint:
      `k` follows the parameter of each literal, and the implicit parameters
      among them join `temp`. */
  method CollectParameters(value: seq<int>, lits: seq<int>, im1: seq<int>, temp: seq<int>) returns (temp': seq<int>)
    requires ValidValues(value) && Literals(value, lits) && Ordered(lits)
    requires forall p :: 0 <= p < |temp| ==> temp[p] in im1
    ensures forall p :: 0 <= p < |temp'| ==> temp'[p] in im1
    ensures forall k :: k in temp' <==> (k in temp || (k in im1 && Names(value, lits, k)))
    ensures Distinct(temp) ==> Distinct(temp')
  {
    temp' := temp;
    var k := 0;
    var y := 0;
    while y < |lits|
      invariant 0 <= y <= |lits| && 0 <= k
      invariant y < |lits| ==> k <= ParamOf(value, Abs(lits[y]))
      invariant forall p :: 0 <= p < |temp'| ==> temp'[p] in im1
      invariant forall k' :: k' in temp' <==> (k' in temp || (k' in im1 && Names(value, lits[..y], k')))
      invariant Distinct(temp) ==> Distinct(temp')
    {
      k := SeekParam(value, Abs(lits[y]), k);
      forall k' {
        NamesExtend(value, lits, y, k');
      }
      if k in im1 && k !in temp' {
        temp' := temp' + [k];
      }
      if y + 1 < |lits| {
        var next := ParamOf(value, Abs(lits[y + 1]));
        ParamOfInterval(value, Abs(lits[y]), k);
        ParamOfInterval(value, Abs(lits[y + 1]), next);
        if next < k {
          OffsetMonotone(value, next + 1, k);
        }
      }
      y := y + 1;
    }
    assert lits[..y] == lits;
  }

  /** Some constraint of cs is superior to c. */
  ghost predicate Dominated(cs: seq<Constraint>, c: Constraint)
  {
    exists q :: 0 <= q < |cs| && Superior(cs[q], c)
  }

  /** Models the storing of new constraints (lines 169-190): a new constraint
      is appended unless a constraint already present (an earlier new one
      included) is superior to it; the implicit parameters of the first
      round that the appended constraints mention form the next round's. */
  method AddNew(cs: seq<Constraint>, newConstraint: seq<Constraint>, value: seq<int>, im1: seq<int>)
    returns (cs': seq<Constraint>, temp: seq<int>)
    requires ValidValues(value) && WellFormed(value, newConstraint)
    ensures |cs| <= |cs'| && cs'[..|cs|] == cs
    ensures forall p :: |cs| <= p < |cs'| ==> cs'[p] in newConstraint
    ensures forall p :: |cs| <= p < |cs'| ==> forall q :: 0 <= q < p ==> !Superior(cs'[q], cs'[p])
    ensures forall c :: c in newConstraint ==> Dominated(cs', c)
    ensures forall p :: 0 <= p < |temp| ==> temp[p] in im1
    ensures forall k :: k in temp <==> (k in im1 && NamedAfter(value, cs', |cs|, k))
    ensures Distinct(temp)
  {
    cs', temp := cs, [];
    var r := 0;
    while r < |newConstraint|
      invariant 0 <= r <= |newConstraint|
      invariant Stored(cs, newConstraint[..r], value, im1, cs', temp)
    {
      assert newConstraint[..r + 1] == newConstraint[..r] + [newConstraint[r]];
      cs', temp := AddOne(cs, newConstraint[..r], newConstraint[r], value, im1, cs', temp);
      r := r + 1;
    }
    assert newConstraint[..r] == newConstraint;
  }

  /** The state of the storing loop after the constraints `seen`: cs' extends
      cs by some of them, none dominated by an earlier entry, every one of them
      is dominated, and temp lists, once each, the implicit parameters the
      added constraints name. */
  ghost predicate Stored(cs: seq<Constraint>, seen: seq<Constraint>, value: seq<int>, im1: seq<int>,
                         cs': seq<Constraint>, temp: seq<int>)
  {
    |cs| <= |cs'| && cs'[..|cs|] == cs &&
    (forall p :: |cs| <= p < |cs'| ==> cs'[p] in seen) &&
    (forall p :: |cs| <= p < |cs'| ==> forall q :: 0 <= q < p ==> !Superior(cs'[q], cs'[p])) &&
    (forall c :: c in seen ==> Dominated(cs', c)) &&
    (forall p :: 0 <= p < |temp| ==> temp[p] in im1) &&
    (forall k :: k in temp <==> (k in im1 && NamedAfter(value, cs', |cs|, k))) &&
    Distinct(temp)
  }

  /** One pass of the storing loop: consN is appended unless an entry is superior to it. */
  method AddOne(cs: seq<Constraint>, seen: seq<Constraint>, consN: Constraint, value: seq<int>, im1: seq<int>,
                cs': seq<Constraint>, temp: seq<int>) returns (cs'': seq<Constraint>, temp': seq<int>)
    requires ValidValues(value) && Literals(value, consN.disjunction) && Ordered(consN.disjunction)
    requires Stored(cs, seen, value, im1, cs', temp)
    ensures Stored(cs, seen + [consN], value, im1, cs'', temp')
  {
    cs'', temp' := cs', temp;
    var isNew := NotDominated(cs', consN);
    if isNew {
      assert forall p :: 0 <= p < |cs'| ==> cs'[p] == (cs' + [consN])[p];
      forall k {
        NamedAfterAppend(value, cs', |cs|, consN, k);
      }
      cs'' := cs' + [consN];
      assert Superior(cs''[|cs''| - 1], consN);
      temp' := CollectParameters(value, consN.disjunction, im1, temp);
    }
  }

  /** The inner loop of lines 172-178: no stored constraint is superior to c. */
  method NotDominated(cs: seq<Constraint>, c: Constraint) returns (isNew: bool)
    ensures isNew <==> !Dominated(cs, c)
  {
    isNew := true;
    var b := 0;
    while b < |cs|
      invariant 0 <= b <= |cs|
      invariant isNew ==> forall q :: 0 <= q < b ==> !Superior(cs[q], c)
      invariant !isNew ==> Dominated(cs, c)
    {
      var sup := IsSuperior(cs[b], c);
      if sup {
        isNew := false;
        break;
      }
      b := b + 1;
    }
  }

  /** Models the initial sort and minimisation (lines 33-39). */
  method Originals(value: seq<int>, constraint: seq<seq<int>>) returns (cs: seq<Constraint>)
    requires forall o :: o in constraint ==> Literals(value, o) && Distinct(o)
    ensures WellFormed(value, cs) && Sound(value, constraint, cs) && Covers(constraint, cs)
  {
    cs := [];
    var x := 0;
    while x < |constraint|
      invariant 0 <= x <= |constraint| && |cs| == x
      invariant WellFormed(value, cs) && Sound(value, constraint, cs)
      invariant forall x' :: 0 <= x' < x ==> Included(cs[x'].disjunction, constraint[x'])
    {
      var y := Sort(constraint[x]);
      SortedOriginal(value, constraint, x, y);
      cs := cs + [Constraint(y)];
      x := x + 1;
    }
    forall o | o in constraint
      ensures exists n :: 0 <= n < |cs| && Included(cs[n].disjunction, o)
    {
      var x' :| 0 <= x' < |constraint| && constraint[x'] == o;
      assert Included(cs[x'].disjunction, o);
    }
  }

  lemma SortedOriginal(value: seq<int>, constraint: seq<seq<int>>, x: int, y: seq<int>)
    requires 0 <= x < |constraint| && Literals(value, constraint[x]) && Distinct(constraint[x])
    requires multiset(y) == multiset(constraint[x]) && NonIncreasing(y)
    ensures Literals(value, y) && Ordered(y)
    ensures Included(y, constraint[x]) && Implied(value, constraint, y)
  {
    var o := constraint[x];
    DistinctPermutation(o, y);
    forall e
      ensures e in y <==> e in o
    {
      assert e in y <==> e in multiset(y);
      assert e in o <==> e in multiset(o);
    }
    forall p | 0 <= p < |y|
      ensures y[p] < 0 && 1 <= Abs(y[p]) <= Total(value)
    {
      assert y[p] in o;
    }
    forall test | Complete(value, test) && Hit(value, y, test)
      ensures HitsSome(value, constraint, test)
    {
      HitIncluded(value, o, y, test);
    }
  }

  /** Minimisation keeps the invariants: the survivors are constraints of cs,
      and every constraint of cs contains a survivor. */
  lemma MinimiseKeeps(value: seq<int>, orig: seq<seq<int>>, cs: seq<Constraint>, r: seq<Constraint>, idx: seq<int>)
    requires WellFormed(value, cs) && Sound(value, orig, cs) && Covers(orig, cs)
    requires |idx| == |r| && forall p :: 0 <= p < |r| ==> 0 <= idx[p] < |cs| && r[p] == cs[idx[p]]
    requires Subsumes(r, cs)
    ensures WellFormed(value, r) && Sound(value, orig, r) && Covers(orig, r)
  {
    forall p | 0 <= p < |r|
      ensures Literals(value, r[p].disjunction) && Ordered(r[p].disjunction)
      ensures Implied(value, orig, r[p].disjunction)
    {
      assert r[p] == cs[idx[p]];
    }
    CoversKept(orig, cs, r);
  }

  lemma CoversKept(orig: seq<seq<int>>, cs: seq<Constraint>, r: seq<Constraint>)
    requires Covers(orig, cs) && Subsumes(r, cs)
    ensures Covers(orig, r)
  {
    forall o | o in orig
      ensures exists p :: 0 <= p < |r| && Included(r[p].disjunction, o)
    {
      var n :| 0 <= n < |cs| && Included(cs[n].disjunction, o);
      var p :| 0 <= p < |r| && Included(r[p].disjunction, cs[n].disjunction);
      IncludedTransitive(r[p].disjunction, cs[n].disjunction, o);
    }
  }

  lemma IncludedTransitive(a: seq<int>, b: seq<int>, c: seq<int>)
    requires Included(a, b) && Included(b, c)
    ensures Included(a, c)
  {
    forall i | 0 <= i < |a|
      ensures a[i] in c
    {
      var j :| 0 <= j < |b| && b[j] == a[i];
    }
  }

  /** One round of the loop of lines 70-199. */
  method Round(cs: seq<Constraint>, value: seq<int>, im: seq<int>, im1: seq<int>, ghost orig: seq<seq<int>>)
    returns (cs': seq<Constraint>, temp: seq<int>)
    requires ValidValues(value) && WellFormed(value, cs) && Sound(value, orig, cs) && Covers(orig, cs)
    requires forall p :: 0 <= p < |im| ==> 0 <= im[p] < |value|
    ensures WellFormed(value, cs') && Sound(value, orig, cs') && Covers(orig, cs')
    ensures forall p :: 0 <= p < |temp| ==> temp[p] in im1
  {
    var newConstraint := DeriveRound(cs, value, im);
    var added;
    added, temp := AddNew(cs, newConstraint, value, im1);
    forall p | 0 <= p < |added|
      ensures Literals(value, added[p].disjunction) && Ordered(added[p].disjunction)
      ensures Implied(value, orig, added[p].disjunction)
    {
      if p < |cs| {
        assert added[p] == cs[p];
      } else {
        assert added[p] in newConstraint;
        var r :| 0 <= r < |newConstraint| && newConstraint[r] == added[p];
        assert DerivedSome(cs, value, newConstraint[r].disjunction);
        var ip :| 0 <= ip < |value| && DerivedUpTo(cs, value, ip, value[ip], newConstraint[r].disjunction);
        DerivedImplied(value, orig, cs, ip, newConstraint[r].disjunction);
      }
    }
    forall o | o in orig
      ensures exists n :: 0 <= n < |added| && Included(added[n].disjunction, o)
    {
      var n :| 0 <= n < |cs| && Included(cs[n].disjunction, o);
      assert added[n] == cs[n];
    }
    ghost var idx;
    cs', idx := Minimise(added);
    MinimiseKeeps(value, orig, added, cs', idx);
  }

  /** A complete test hits a constraint of a sound and covering set exactly
      when it hits an original constraint. */
  lemma SameHits(value: seq<int>, orig: seq<seq<int>>, cs: seq<Constraint>, test: seq<int>)
    requires Sound(value, orig, cs) && Covers(orig, cs) && Complete(value, test)
    ensures (exists n :: 0 <= n < |cs| && Hit(value, cs[n].disjunction, test)) <==> HitsSome(value, orig, test)
  {
    if HitsSome(value, orig, test) {
      var o :| o in orig && Hit(value, o, test);
      var n :| 0 <= n < |cs| && Included(cs[n].disjunction, o);
      HitIncluded(value, cs[n].disjunction, o, test);
    }
  }

  /** Models `ValidityChecker.init` (lines 29-208) with at most `rounds` rounds
      of the closure loop. Whatever the number of rounds, the minimum forbidden
      tuples are ordered, implied by the original constraints and contained in
      each of them, so that for every complete test the corrected `isValid`
      rejects exactly the tests that hit an original constraint. */
  method Init(value: seq<int>, constraint: seq<seq<int>>, rounds: nat) returns (mft: seq<Constraint>)
    requires ValidValues(value)
    requires forall o :: o in constraint ==> Literals(value, o) && Distinct(o)
    ensures WellFormed(value, mft)
    ensures Sound(value, constraint, mft) && Covers(constraint, mft)
    ensures forall test :: Complete(value, test) ==>
      (Valid(mft, Encode(value, test)) <==> !HitsSome(value, constraint, test))
  {
    var originalConstraint := Originals(value, constraint);
    var cs, idx := Minimise(originalConstraint);
    MinimiseKeeps(value, constraint, originalConstraint, cs, idx);
    var imParameter := ImplicitParameters(value, cs);
    var imParameter1 := imParameter;
    var round := 0;
    while |imParameter| != 0 && round < rounds
      invariant WellFormed(value, cs) && Sound(value, constraint, cs) && Covers(constraint, cs)
      invariant forall p :: 0 <= p < |imParameter| ==> 0 <= imParameter[p] < |value|
      invariant forall p :: 0 <= p < |imParameter1| ==> 0 <= imParameter1[p] < |value|
      decreases rounds - round
    {
      cs, imParameter := Round(cs, value, imParameter, imParameter1, constraint);
      round := round + 1;
    }
    mft := [];
    var n := 0;
    while n < |cs|
      invariant 0 <= n <= |cs| && mft == cs[..n]
    {
      var sorted := Sort(cs[n].disjunction);
      mft := mft + [Constraint(sorted)];
      n := n + 1;
    }
    assert mft == cs;
    forall test | Complete(value, test)
      ensures Valid(mft, Encode(value, test)) <==> !HitsSome(value, constraint, test)
    {
      ValidMeaning(value, mft, test);
      SameHits(value, constraint, mft, test);
    }
  }
}
