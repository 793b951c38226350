/** Option and Result, the failure-carrying datatypes used throughout the model. */
module Wrappers {

  datatype Option<+T> = None | Some(value: T)

  /** The outcome of an operation that can raise: `Failure` stands for the Python exception. */
  datatype Result<+R, +E> = Success(value: R) | Failure(error: E)
}
