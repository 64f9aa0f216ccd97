/** `Option` and `Result`, shared by the rest of the model. */
module Wrappers {

  /** A value that may be absent; Python's `None` plays the role of `None` here. */
  datatype Option<+T> = None | Some(value: T)

  /** Either a computed value or the exception the Python code would raise. */
  datatype Result<+R, +E> = Success(value: R) | Failure(error: E)
}
