/**
 What several modules need to know of sets and sequences.
 */
module Collections {

  predicate Distinct<T(==)>(xs: seq<T>) {
    forall i, j :: 0 <= i < j < |xs| ==> xs[i] != xs[j]
  }

  lemma SubsetIsNoLarger<T>(a: set<T>, b: set<T>)
    requires a <= b
    ensures |a| <= |b|
  {
    assert b == a + (b - a) && a !! (b - a);
  }

  /** What of a list is not in another, in order. */
  function Without<T(==, !new)>(xs: seq<T>, drop: seq<T>): (r: seq<T>)
    ensures forall x :: x in r <==> x in xs && x !in drop
  {
    if xs == [] then []
    else
      var last := |xs| - 1;
      Without(xs[..last], drop) + (if xs[last] in drop then [] else [xs[last]])
  }

  function Max(a: nat, b: nat): (m: nat)
    ensures m >= a && m >= b && (m == a || m == b)
  {
    if a >= b then a else b
  }
}
