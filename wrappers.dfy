/** Failure-carrying values used across the model: an optional value and a
    result that is either a value or an error (the model's stand-in for a
    JavaScript `throw`). */
module Wrappers {

  datatype Option<+T> = None | Some(value: T)

  datatype Result<+T, +E> = Success(value: T) | Failure(error: E)
}
