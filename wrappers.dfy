/** Failure-carrying result types used in place of Go's `log.Fatal` and blocking reads. */
module Wrappers {

  datatype Option<+T> = None | Some(value: T)

  datatype Result<+R, +E> = Success(value: R) | Failure(error: E)
}
