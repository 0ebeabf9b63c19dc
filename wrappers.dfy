/** Optional values and results carrying an error, used for the service's
    `undefined`/`null` returns and its thrown exceptions. */
module Wrappers {

  datatype Option<+T> = None | Some(value: T)

  datatype Result<+R, +E> = Success(value: R) | Failure(error: E)
}
