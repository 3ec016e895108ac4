/** Failure-carrying results used where the Python code returns `None` or raises. */
module Wrappers {

  /** `None` stands for Python's `None` (a missing dict entry, a NaN cell). */
  datatype Option<+T> = None | Some(value: T)

  /** `Failure` stands for an exception the Python code would raise. */
  datatype Result<+R, +E> = Success(value: R) | Failure(error: E)

  /** Python's `dict.get`: the value stored under `k`, or `None`. */
  function Get<K, V>(m: map<K, V>, k: K): (r: Option<V>)
    ensures r.Some? <==> k in m
    ensures r.Some? ==> r.value == m[k]
  {
    if k in m then Some(m[k]) else None
  }
}
