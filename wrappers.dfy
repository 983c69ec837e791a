/** Optional values and results with an error, as used throughout the model. */
module Wrappers {

  datatype Option<T> = None | Some(value: T)

  /** The outcome of a computation that the source either completes or aborts with an exception. */
  datatype Result<T, E> = Ok(value: T) | Err(error: E)
}
