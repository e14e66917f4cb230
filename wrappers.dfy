/** Failure-carrying results, standing in for the exceptions and nulls of the source. */
module Wrappers {

  /** A nullable reference: `None` is C#'s `null`. */
  datatype Option<+T> = None | Some(value: T)

  /** The outcome of a void operation that may throw `E`. */
  datatype Outcome<+E> = Pass | Fail(error: E)

  /** The outcome of an operation that returns an `R` or throws an `E`. */
  datatype Result<+R, +E> = Success(value: R) | Failure(error: E)
}
