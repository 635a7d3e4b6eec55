/** Listing the keys of a table in ascending order. */
module Ordering {

  /** A non-empty key set has a least key. */
  lemma MinExists(ids: set<int>)
    requires ids != {}
    ensures exists m :: m in ids && forall k :: k in ids ==> m <= k
  {
    if forall y :: y !in ids {
      assert false;
    }
    var x :| x in ids;
    LeastFrom(ids, x);
  }

  /** A key set holding `x` has a least key, found by induction on the keys other than `x`. */
  lemma {:induction false} LeastFrom(ids: set<int>, x: int)
    requires x in ids
    ensures exists m :: m in ids && forall k :: k in ids ==> m <= k
    decreases ids
  {
    var rest := ids - {x};
    if forall y :: y !in rest {
      forall k | k in ids ensures x <= k {
        assert k !in rest;
      }
      assert x in ids && forall k :: k in ids ==> x <= k;
    } else {
      var y :| y in rest;
      LeastFrom(rest, y);
      var m :| m in rest && forall k :: k in rest ==> m <= k;
      var least := if x < m then x else m;
      forall k | k in ids ensures least <= k {
        if k != x {
          assert k in rest;
          assert m <= k;
        }
      }
      assert least in ids && forall k :: k in ids ==> least <= k;
    }
  }

  /** The least key of a non-empty key set. */
  function Min(ids: set<int>): (m: int)
    requires ids != {}
    ensures m in ids && forall k :: k in ids ==> m <= k
  {
    MinExists(ids);
    var m :| m in ids && forall k :: k in ids ==> m <= k; m
  }

  /** The keys of a table, each once, in ascending order. */
  function SortedKeys(ids: set<int>): (r: seq<int>)
    ensures |r| == |ids|
    ensures forall k :: k in ids <==> k in r
    ensures forall i, j :: 0 <= i < j < |r| ==> r[i] < r[j]
    decreases ids
  {
    if ids == {} then []
    else
      var m := Min(ids);
      var rest := SortedKeys(ids - {m});
      assert forall k :: k in rest ==> m < k;
      Prepend(m, rest);
      [m] + rest
  }

  /** A key below every key of an increasing listing can be put in front of it. */
  lemma Prepend(m: int, rest: seq<int>)
    requires forall i, j :: 0 <= i < j < |rest| ==> rest[i] < rest[j]
    requires forall k :: k in rest ==> m < k
    ensures forall i, j :: 0 <= i < j < |[m] + rest| ==> ([m] + rest)[i] < ([m] + rest)[j]
  {
    var r := [m] + rest;
    forall i, j | 0 <= i < j < |r| ensures r[i] < r[j] {
      assert r[j] == rest[j - 1];
      if 0 < i {
        assert r[i] == rest[i - 1];
      } else {
        assert rest[j - 1] in rest;
      }
    }
  }
}
