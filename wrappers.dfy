/** Optional values and error-carrying results, used wherever the source returns
    null, throws and catches, or reports an error message instead of a value. */
module Wrappers {

  datatype Option<+T> = None | Some(value: T)

  datatype Result<+T, +E> = Ok(value: T) | Err(error: E)
}
