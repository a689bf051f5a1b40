/** Option and Result values used for the JavaScript `null`/`undefined` cases and
    for operations that stop early with a user-visible condition. */
module Wrappers {

  datatype Option<+T> = None | Some(value: T)

  datatype Result<+R, +E> = Success(value: R) | Failure(error: E)
}
