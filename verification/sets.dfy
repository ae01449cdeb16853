/** Facts about finite sets. */
module Sets {
  lemma SmallerSet<T>(a: set<T>, b: set<T>, x: T)
    requires a <= b && x in b && x !in a
    ensures |a| < |b|
  {
    assert |b - a| == |b| - |a|;
    assert x in b - a;
  }
}
