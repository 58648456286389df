/** The optional value used for absent bounds, absent fields and failed operations, and counting in finite sets. */
module Wrappers {

  datatype Option<+T> = None | Some(value: T)

  lemma SubsetCardinality<T>(a: set<T>, b: set<T>)
    requires a <= b
    ensures |a| <= |b| && (|a| == |b| ==> a == b)
  {
    assert b == a + (b - a);
  }
}
