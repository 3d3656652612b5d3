/** Failure-carrying datatypes used across the model: a fatal error or exit of
    the original program becomes an explicit returned value. */
module Wrappers {

  datatype Option<+T> = None | Some(value: T)

  datatype Result<+R, +E> = Success(value: R) | Failure(error: E)
}
