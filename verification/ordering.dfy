/** Listing a set of records in the order of a numeric column, as the store's
    `orderBy` does. Ties are broken arbitrarily, as the store does not
    promise an order among equal keys. */
module Ordering {

  /** `s` lists its elements in non-decreasing `rank`. */
  ghost predicate SortedBy<K>(s: seq<K>, rank: K -> int)
  {
    forall i, j :: 0 <= i < j < |s| ==> rank(s[i]) <= rank(s[j])
  }

  /** No element occurs twice in `s`. */
  ghost predicate Distinct<K>(s: seq<K>)
  {
    forall i, j :: 0 <= i < j < |s| ==> s[i] != s[j]
  }

  /** Every non-empty finite set has an element of least rank. */
  lemma {:induction false} MinimumExists<K>(keys: set<K>, rank: K -> int)
    requires keys != {}
    ensures exists m :: m in keys && forall k :: k in keys ==> rank(m) <= rank(k)
    decreases keys
  {
    var x :| x in keys;
    var rest := keys - {x};
    if rest != {} {
      MinimumExists(rest, rank);
      var m :| m in rest && forall k :: k in rest ==> rank(m) <= rank(k);
      if rank(x) < rank(m) {
        assert forall k :: k in keys ==> rank(x) <= rank(k);
      } else {
        assert forall k :: k in keys ==> rank(m) <= rank(k);
      }
    } else {
      forall k | k in keys
        ensures rank(x) <= rank(k)
      {
        assert k !in rest;
      }
    }
  }

  /** Lists each element of `keys` exactly once, in non-decreasing `rank`. */
  method SortBy<K(==)>(keys: set<K>, rank: K -> int) returns (s: seq<K>)
    ensures forall k :: k in keys <==> k in s
    ensures Distinct(s)
    ensures SortedBy(s, rank)
  {
    s := [];
    var rest := keys;
    while rest != {}
      invariant forall k :: k in keys <==> (k in rest || k in s)
      invariant forall k :: k in rest ==> k !in s
      invariant Distinct(s)
      invariant SortedBy(s, rank)
      invariant forall i, k :: 0 <= i < |s| && k in rest ==> rank(s[i]) <= rank(k)
      decreases rest
    {
      MinimumExists(rest, rank);
      var m :| m in rest && forall k :: k in rest ==> rank(m) <= rank(k);
      s := s + [m];
      rest := rest - {m};
    }
  }
}
