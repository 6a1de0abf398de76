/** Equality of maps, by what they hold. */
module Maps {

  lemma SameMap<K, V>(m: map<K, V>, n: map<K, V>)
    requires m.Keys == n.Keys && forall k <- m :: m[k] == n[k]
    ensures m == n
  {
  }
}
