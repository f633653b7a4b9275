/** Failure-carrying values shared by every module of the model. */
module Results {

  /** A value that may be absent (Go's nil pointer or nil map). */
  datatype Option<+T> = None | Some(value: T)

  /** A value or the error that replaced it (Go's `(T, error)` pair). */
  datatype Result<+T, +E> = Ok(value: T) | Err(error: E)

  /** Success or an error, for calls that return only `error`. */
  datatype Outcome<+E> = Pass | Fail(error: E)
}
