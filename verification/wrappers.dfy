/** Failure-carrying datatypes shared by the rest of the model. */
module Wrappers {

  /** An optional value: `None` when there is nothing to return. */
  datatype Option<+T> = None | Some(value: T)

  /** The outcome of an operation that either succeeds with a value or fails with an error,
      standing in for a C++ function that returns normally or throws. */
  datatype Result<+R, +E> = Success(value: R) | Failure(error: E)
}
