/** The optional value used wherever the site's JavaScript produces `undefined` or `null`. */
module Wrappers {

  datatype Option<+T> = None | Some(value: T)

  /** Map lookup that yields None for an absent key, as a JavaScript property read yields `undefined`. */
  function Get<K, V>(m: map<K, V>, k: K): (r: Option<V>)
    ensures r.Some? <==> k in m
    ensures r.Some? ==> r.value == m[k]
  {
    if k in m then Some(m[k]) else None
  }
}
