/** Failure-carrying results: every `throw` of the services becomes an `Err`/`Fail`
    value, and the state it would have rolled back is left untouched. */
module Wrappers {

  /** The outcome of an operation that computes a value or fails with an error. */
  datatype Result<+T, +E> = Ok(value: T) | Err(error: E)

  /** The outcome of an operation that only changes state, or fails with an error. */
  datatype Outcome<+E> = Pass | Fail(error: E)
}
