/** A fact about finite sets that Dafny needs spelled out. */
module Sets {
  /** A subset is no larger than the set it is taken from. */
  lemma SubsetCard<T>(a: set<T>, b: set<T>)
    requires a <= b
    ensures |a| <= |b|
  {
    assert b == a + (b - a);
  }
}
