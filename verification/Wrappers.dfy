/** Result types for nullable columns and error returns. */
module Wrappers {

  /** A nullable column, a nil pointer or a nil slice. */
  datatype Option<+T> = None | Some(value: T)

  /** A returned value or a returned error. */
  datatype Result<+T, +E> = Ok(value: T) | Err(error: E)
}
