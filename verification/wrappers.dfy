/**
 * An optional value, standing for Python's `None` or an operation that may
 * not apply, and the result of a step that may raise instead.
 */
module Wrappers {
  datatype Option<+T> = None | Some(value: T)

  datatype Result<+T, +E> = Ok(value: T) | Err(error: E)
}
