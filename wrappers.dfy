/** Option and Result values used by the list model in place of null pointers and exceptions. */
module Wrappers {

  /** A possibly absent value; `None` plays the part of a null pointer. */
  datatype Option<+T> = None | Some(value: T)

  /** The outcome of an operation that may fail with an error value instead of throwing. */
  datatype Result<+R, +E> = Success(value: R) | Failure(error: E)
}
