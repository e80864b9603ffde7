/** Failure-carrying values used across the model: an optional value and a
    success-or-error result, standing for Python's None and raised exceptions. */
module Wrappers {

  datatype Option<+T> = None | Some(value: T)

  datatype Result<+T, +E> = Ok(value: T) | Err(error: E)
}
