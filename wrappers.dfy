/** Failure-carrying result types used throughout the model: a Python call that
    either returns a value or raises is a `Result`; a check that either passes
    or raises is an `Outcome`. */
module Wrappers {

  datatype Option<+T> = None | Some(value: T)

  datatype Result<+R, +E> = Success(value: R) | Failure(error: E)

  datatype Outcome<+E> = Pass | Fail(error: E)
}
