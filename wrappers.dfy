/** Optional values and results carrying an error, for the Go functions that
    return a value together with an error. */
module Wrappers {

  datatype Option<T> = None | Some(value: T)

  datatype Result<T, E> = Ok(value: T) | Err(error: E)
}
