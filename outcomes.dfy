/** Failure-compatible wrappers shared by every module of the model. */
module Outcomes {

  /** A value that may be absent: an environment variable, a stored record. */
  datatype Option<+T> = None | Some(value: T)

  /** The outcome of an operation that aborts with an error instead of a value. */
  datatype Result<+T, +E> = Ok(value: T) | Err(error: E)
}
