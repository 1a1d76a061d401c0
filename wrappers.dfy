/** Optional values and results, used for the runtime's null pointers and fatal outcomes. */
module Wrappers {

  datatype Option<T> = None | Some(value: T)

  datatype Result<T, E> = Ok(value: T) | Err(error: E)
}
