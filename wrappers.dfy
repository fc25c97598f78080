/** Optional values and results with an error, standing for JavaScript's
    `null`/`undefined` and for thrown errors respectively. */
module Wrappers {

  datatype Option<+T> = None | Some(value: T)

  /** `Ok(v)` is a normal return; `Err(e)` is an error thrown with message `e`. */
  datatype Result<+T, +E> = Ok(value: T) | Err(error: E)
}
