/** Optional values and error-or-value results, standing in for Python's
    `None` defaults and for the exceptions the routes raise. */
module Wrappers {

  datatype Option<+T> = None | Some(value: T)

  datatype Result<+T, +E> = Ok(value: T) | Err(error: E)
}
