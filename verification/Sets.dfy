/** Sizes of finite sets and maps. */
module Sets {

  lemma SubsetSize<T>(a: set<T>, b: set<T>)
    requires a <= b
    ensures |a| <= |b|
  {
    assert b == a + (b - a);
  }

  lemma KeysSize<K, V>(m: map<K, V>)
    ensures |m| == |m.Keys|
  {
  }
}
