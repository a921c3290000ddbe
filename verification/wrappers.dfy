/** Failure-carrying values used throughout the model: a Python `None`
    becomes `None`, a raised exception becomes `Failure`. */
module Wrappers {

  datatype Option<+T> = None | Some(value: T)

  datatype Result<+T, +E> = Success(value: T) | Failure(error: E)
}
