/** Facts about finite maps. */
module MapFacts {
  lemma RemoveSize<K, V>(m: map<K, V>, k: K)
    requires k in m
    ensures |m - {k}| == |m| - 1
  {
    assert (m - {k}).Keys == m.Keys - {k};
  }
}
