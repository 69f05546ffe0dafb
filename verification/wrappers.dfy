/** Failure-carrying values used across the model: an optional value and a
    success-or-error value, the Dafny counterparts of a .NET method that may
    return nothing or throw. */
module Wrappers {

  datatype Option<+T> = None | Some(value: T)

  datatype Result<+T, +E> = Success(value: T) | Failure(error: E)
}
