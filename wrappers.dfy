/** Optional values and error returns shared by every module. */
module Wrappers {
  datatype Option<T> = None | Some(value: T)

  /** A Go `(value, error)` pair, a thrown exception, or a rejected promise. */
  datatype Result<T> = Ok(value: T) | Err(error: string)
}
