/** Failure-carrying results used throughout the model. */
module Wrappers {

  datatype Option<+T> = None | Some(value: T)

  /** Ok carries a value; Fail carries the message of a fatal error. */
  datatype Result<+T, +E> = Ok(value: T) | Fail(error: E)
}
