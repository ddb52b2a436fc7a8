/** Failure-carrying values used by the solver: an optional right-hand side and
    a success-or-error result for the operations that raise configuration errors. */
module Results {

  /** A value that may be absent (the solver's optional vector `b`). */
  datatype Option<+T> = None | Some(value: T)

  /** Either the computed value or the configuration error that stopped the computation. */
  datatype Result<+T, +E> = Ok(value: T) | Fail(error: E)
}
