/** Failure-carrying results: `Option` for a value that may be absent and
    `Result` for an operation that either succeeds or throws. */
module Wrappers {

  datatype Option<+T> = None | Some(value: T)

  /** The outcome of an operation that either returns a value or fails as a
      whole with an exception (the exception's class is not modelled). */
  datatype Result<+T> = Success(value: T) | Failure
}
