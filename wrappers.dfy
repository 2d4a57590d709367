/** Failure-carrying values used in place of the exceptions the pipeline raises. */
module Wrappers {

  datatype Option<+T> = None | Some(value: T)

  datatype Result<+R, +E> = Success(value: R) | Failure(error: E)

  /** The outcome of an operation that changes state and produces no value. */
  datatype Outcome<+E> = Pass | Fail(error: E)
}
