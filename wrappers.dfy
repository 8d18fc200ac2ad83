/** Optional values and results: the typed stand-ins for Python's `None`
    and for an exception that escapes a function. */
module Wrappers {

  datatype Option<+T> = None | Some(value: T)

  datatype Result<+R, +E> = Ok(value: R) | Err(error: E)
}
