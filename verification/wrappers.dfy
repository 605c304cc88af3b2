/** Failure-carrying result types: the model's stand-in for Python exceptions. */
module Wrappers {

  /** Either a value or the error that stopped the computation. */
  datatype Result<+R, +E> = Ok(value: R) | Err(error: E)

  /** A check that either passes or fails with an error (a validator). */
  datatype Outcome<+E> = Pass | Fail(error: E)
}
