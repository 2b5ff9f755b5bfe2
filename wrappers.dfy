/** Optional values and error-carrying results. */
module Wrappers {

  datatype Option<T> = None | Some(value: T)

  /** The outcome of an operation that either produces a value or fails. */
  datatype Result<T, E> = Ok(value: T) | Err(error: E)
}
