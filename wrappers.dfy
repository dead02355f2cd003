/** Optional values and error-or-value results, used where the source returns
    a flag with an out-parameter or throws. */
module Wrappers {

  datatype Option<+T> = None | Some(value: T)

  datatype Result<+R, +E> = Success(value: R) | Failure(error: E)
}
