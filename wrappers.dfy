/** Optional values and results with an error, used for the JavaScript
    `false`/`undefined` returns and for thrown errors. */
module Wrappers {

  datatype Option<+T> = None | Some(value: T)

  datatype Result<+T, +E> = Ok(value: T) | Err(error: E)
}
