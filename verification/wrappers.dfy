/** Failure-carrying datatypes shared by the rest of the model. */
module Wrappers {

  /** A value that may be absent; `None` plays the role of JavaScript's `null`. */
  datatype Option<+T> = None | Some(value: T)

  /** The result of a call that either returns a value or throws an error. */
  datatype Result<+T, +E> = Success(value: T) | Failure(error: E)
}
