/** What several components share. */
module Basics {
  datatype Option<T> = None | Some(value: T)

  lemma SubsetSize<K>(a: set<K>, b: set<K>)
    requires a <= b
    ensures |a| <= |b|
  {
    assert b == a + (b - a);
  }
}
