/** The optional-value and success-or-error wrappers shared by every module
    of the model. */
module Wrappers {

  /** Python's `Optional[T]`: `None` or a present value. */
  datatype Option<+T> = None | Some(value: T) {

    /** The wrapped value, or `default` when absent. */
    function GetOr(default: T): T {
      match this
      case Some(v) => v
      case None => default
    }
  }

  /** The outcome of an operation that the source ends with an exception. */
  datatype Result<+R> = Success(value: R) | Failure(error: string)
}
