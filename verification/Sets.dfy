module Sets {
  lemma SubsetCardinality<T>(a: set<T>, b: set<T>)
    requires a <= b
    ensures |a| <= |b|
    ensures |a| == |b| ==> a == b
  {
    assert b * a == a;
    assert |b - a| == |b| - |b * a|;
    if |a| == |b| {
      assert b - a == {};
    }
  }
}
