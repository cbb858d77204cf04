/** Failure-carrying values shared by the model. */
module Wrappers {

  /** A value that may be absent (Python's `None`). */
  datatype Option<+T> = None | Some(value: T)

  /** The outcome of a step that may raise an exception. */
  datatype Result<+T, +E> = Ok(value: T) | Err(error: E)
}
