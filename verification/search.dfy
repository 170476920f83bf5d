/** `ALG.inList` and `ALG.inArray`: linear searches for an equal rows. */
module Search {

  import opened Wrappers

  /** Models `ALG.inList(list, t)`: whether some element of the list equals t
      element-wise. */
  method InList(list: seq<seq<int>>, t: seq<int>) returns (found: bool)
    ensures found <==> t in list
  {
    var k := 0;
    while k < |list|
      invariant 0 <= k <= |list|
      invariant t !in list[..k]
    {
      if list[k] == t {
        return true;
      }
      k := k + 1;
    }
    assert list[..k] == list;
    return false;
  }

  /** Some row among the first `bound`, and among those that exist, equals t. */
  predicate InPrefix(rows: seq<seq<int>>, bound: int, t: seq<int>)
  {
    exists i :: 0 <= i < bound && i < |rows| && rows[i] == t
  }

  /** Models `ALG.inArray(array, bound, t)`: whether one of the first `bound` rows
      equals t. A non-positive bound searches nothing. A bound past the last row
      reads past the array, which throws unless t was found first. */
  method InArray(rows: seq<seq<int>>, bound: int, t: seq<int>) returns (r: Exceptional<bool>)
    ensures r == Returns(true) <==> InPrefix(rows, bound, t)
    ensures r == Returns(false) <==> !InPrefix(rows, bound, t) && bound <= |rows|
    ensures r == Throws <==> !InPrefix(rows, bound, t) && bound > |rows|
    ensures bound <= 0 ==> r == Returns(false)
  {
    var i := 0;
    while i < bound
      invariant 0 <= i <= |rows| && (i == 0 || i <= bound)
      invariant forall i' :: 0 <= i' < i ==> rows[i'] != t
    {
      if i >= |rows| {
        return Throws;
      }
      if rows[i] == t {
        return Returns(true);
      }
      i := i + 1;
    }
    return Returns(false);
  }
}
