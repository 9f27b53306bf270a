/** Small helpers over Dafny's built-in collections, named after the Java library calls they model. */
module Collections {

  /** `Map.getOrDefault`: the value stored under `key`, or `default` when the key is absent. */
  function GetOrDefault<K, V>(m: map<K, V>, key: K, default: V): V
  {
    if key in m then m[key] else default
  }

  /** Every element of `s` occurs at one position only. */
  predicate NoDuplicates(s: seq<string>)
  {
    forall i, j :: 0 <= i < j < |s| ==> s[i] != s[j]
  }
}
