/** Failure-carrying values shared by every module of the model. */
module Outcome {

  /** A value that may be absent: Java `null`, Ruby `nil`. */
  datatype Option<+T> = None | Some(value: T)

  /** The result of an operation that can raise an exception in the source. */
  datatype Result<+T, +E> = Ok(value: T) | Err(error: E)
}
