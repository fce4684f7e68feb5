/** Failure-compatible wrappers for the ledger's optional and fallible returns. */
module Results {

  /** `Option<T>`: what `Vec::last` returns. */
  datatype Option<+T> = None | Some(value: T)

  /** `Result<T, String>`: what `mine` returns. */
  datatype Result<+T> = Ok(value: T) | Err(error: string)
}
