/** Failure-carrying values: a Go `nil` pointer becomes `None`, a returned
    `error` becomes `Failure`. */
module Wrappers {

  datatype Option<+T> = None | Some(value: T)

  datatype Result<+R, +E> = Success(value: R) | Failure(error: E)
}
