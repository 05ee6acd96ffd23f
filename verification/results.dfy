/** Small failure-carrying datatypes shared by the whole model. */
module Results {

  /** A value that may be absent: an optional DTO field or a missing row. */
  datatype Option<+T> = None | Some(value: T)

  /** The outcome of a service call: the returned value or the exception it throws. */
  datatype Result<+T, +E> = Ok(value: T) | Err(error: E)

  /** True iff `m'` has the keys of `m` and differs from it at most at key `k`. */
  ghost predicate AgreeExcept<K, V>(m: map<K, V>, m': map<K, V>, k: K)
  {
    && m'.Keys == m.Keys
    && forall j :: j in m && j != k ==> m'[j] == m[j]
  }
}
