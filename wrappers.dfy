/** Optional values and results with an error, used for the library calls that may fail
    and for the exceptions the preprocessing functions let escape. */
module Wrappers {

  datatype Option<+T> = None | Some(value: T)

  datatype Result<+T, +E> = Ok(value: T) | Err(error: E)
}
