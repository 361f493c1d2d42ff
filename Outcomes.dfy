/** Optional values and success-or-error results, the stand-ins for Java's
    null returns and thrown exceptions throughout the model. */
module Outcomes {

  datatype Option<+T> = None | Some(value: T)

  datatype Result<+R, +E> = Success(value: R) | Failure(error: E)
}
