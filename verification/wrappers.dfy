/** Option and Result datatypes used throughout the model for null returns and exceptions. */
module Wrappers {

  /** A possibly-missing value: the model's counterpart of a nullable reference. */
  datatype Option<+T> = None | Some(value: T)

  /** The outcome of an operation that may raise: either a value or the error raised. */
  datatype Result<+R, +E> = Success(value: R) | Failure(error: E)
}
