/** Failure-carrying result types used throughout the model. A Kotlin exception
    that escapes a call is modelled as a `Failure` carrying the reason. */
module Wrappers {

  datatype Option<+T> = None | Some(value: T)

  datatype Result<+R, +E> = Success(value: R) | Failure(error: E)
}
