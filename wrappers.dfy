/** Optional values and success-or-failure results, standing for Java's
    Optional and for a call that returns or throws. */
module Wrappers {

  datatype Option<+T> = None | Some(value: T)

  datatype Result<+R, +E> = Success(value: R) | Failure(error: E)
}
