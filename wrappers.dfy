/** Optional values and error-carrying results, standing for the source's
    `undefined`/`null` returns and rejected promises. */
module Wrappers {

  datatype Option<+T> = None | Some(value: T)

  datatype Result<+T, +E> = Ok(value: T) | Err(error: E)
}
