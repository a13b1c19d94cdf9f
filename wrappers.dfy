/** Failure-compatible wrappers shared by the model: a missing value (None in
    Python, `undefined`/`null` in JavaScript) and the outcome of an operation
    that may raise. */
module Wrappers {

  datatype Option<+T> = None | Some(value: T)

  datatype Result<+R, +E> = Success(value: R) | Failure(error: E)
}
