/** python/data_structures/HashMap/HashEntry.py: the key-value record stored by the hash tables. */
module HashEntries {

  /** `HashEntry`: a string key and the value stored under it. */
  datatype HashEntry<V> = HashEntry(key: string, value: V)

  /** `matches_key`: plain string equality with the entry's key. */
  predicate MatchesKey<V>(e: HashEntry<V>, key: string)
  {
    e.key == key
  }

  /**
   * An entry matches exactly its own key: the comparison is case-sensitive, and an empty key
   * matches only the empty string.
   */
  lemma MatchesOnlyItsKey<V>(e: HashEntry<V>, key: string)
    ensures MatchesKey(e, key) <==> key == e.key
    ensures MatchesKey(HashEntry("Key", e.value), "key") == false
    ensures MatchesKey(HashEntry("", e.value), key) <==> key == ""
  {
    assert "Key"[0] != "key"[0];
  }
}
