/** Optional values and error results shared by the other modules. */
module Wrappers {

  /** A SQL NULL or a Python `None` is `None`. */
  datatype Option<+T> = None | Some(value: T)

  /** A returned value, or the error the source raises instead. */
  datatype Result<+T, +E> = Ok(value: T) | Err(error: E)
}
