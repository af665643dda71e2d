/** Optional values and success/failure results shared by every module of the model. */
module Outcomes {

  /** A value that may be absent (JavaScript `null`, or NaN for a Date). */
  datatype Option<+T> = None | Some(value: T)

  /** The outcome of an operation that may throw: its value, or the error it throws. */
  datatype Result<+T, +E> = Ok(value: T) | Err(error: E)
}
