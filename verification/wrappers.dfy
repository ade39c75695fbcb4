/** Optional values and results, used where the source has `Option`,
    `undefined` fields or `Result<_, String>`. */
module Wrappers {

  datatype Option<+T> = None | Some(value: T)

  datatype Result<+R, +E> = Ok(value: R) | Err(error: E)
}
