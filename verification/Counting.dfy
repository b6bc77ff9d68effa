/**
 Sizes of finite sets.
 */
module Counting {

  lemma SubsetCount<X>(a: set<X>, b: set<X>)
    requires a <= b
    ensures |a| <= |b| && (|a| == |b| ==> a == b)
  {
    assert b == a + (b - a);
  }
}
