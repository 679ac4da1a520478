/** The nullable references of the order endpoints: an order's item list, which the v5
    endpoint leaves null for an order without item lines, and the answer of `Map.get`. */
module Nullable {

  /** An order's item list as Java holds it: null (`None`) or a list (`Some`). */
  datatype Option<T> = None | Some(value: T)

  /** `Map.get`: the value stored under `k`, or null when `k` is not a key. */
  function Get<K, V>(m: map<K, V>, k: K): (r: Option<V>)
    ensures r.Some? <==> k in m
    ensures r.Some? ==> r.value == m[k]
  {
    if k in m then Some(m[k]) else None
  }
}
