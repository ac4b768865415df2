// Facts about finite sets shared by the search models.
module Sets {
  /** A subset is no larger: b splits into a and the disjoint rest. */
  lemma SubsetCard<T>(a: set<T>, b: set<T>)
    requires a <= b
    ensures |a| <= |b|
  {
    var c := b - a;
    assert b == a + c && a * c == {};
  }
}
