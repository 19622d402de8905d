/** Small facts about finite maps, phrased through an optional lookup. */
module Maps {
  import opened Wrappers

  /** The value stored under `k`, or None when `k` is absent. */
  function Get<K, V>(m: map<K, V>, k: K): Option<V>
  {
    if k in m then Some(m[k]) else None
  }

  /** Two maps that answer every lookup alike are the same map. */
  lemma Extensionality<K, V>(m1: map<K, V>, m2: map<K, V>)
    requires forall k :: Get(m1, k) == Get(m2, k)
    ensures m1 == m2
  {
    forall k
      ensures k in m1 <==> k in m2
    {
      assert Get(m1, k) == Get(m2, k);
    }
    forall k | k in m1
      ensures m1[k] == m2[k]
    {
      assert Get(m1, k) == Get(m2, k);
    }
  }

  /** A key under which `v` is stored. */
  lemma KeyOfValue<K, V>(m: map<K, V>, v: V) returns (k: K)
    requires v in m.Values
    ensures k in m && m[k] == v
  {
    k :| k in m && m[k] == v;
  }
}
