/** Option, Result and Outcome: the failure-carrying values that stand in for
    Java's null, Optional and thrown exceptions throughout the model. */
module Wrappers {

  /** A nullable reference or an `Optional`: either absent or present. */
  datatype Option<+T> = None | Some(value: T)

  /** The outcome of a call that either returns a value or throws. */
  datatype Result<+R, +E> = Success(value: R) | Failure(error: E)

  /** The outcome of a `void` call that either completes or throws. */
  datatype Outcome<+E> = Pass | Fail(error: E)
}
