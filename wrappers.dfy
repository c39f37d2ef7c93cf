/** Optional values and results with an error, used where the Python solver returns
    None or raises an exception. */
module Wrappers {

  datatype Option<T> = None | Some(value: T)

  datatype Result<T, E> = Ok(value: T) | Err(error: E)
}
