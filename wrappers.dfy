/** Optional values and results with an error, used for the source's nil-able
    fields and for its `(value, error)` return pairs. */
module Wrappers {
  datatype Option<+T> = None | Some(value: T)

  datatype Result<+T, +E> = Ok(value: T) | Err(error: E)
}
