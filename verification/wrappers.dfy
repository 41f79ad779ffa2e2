/** Failure-compatible wrappers shared by the whole model. */
module Wrappers {

  /** JavaScript's `undefined` for an optional field, or Ruby's `nil`. */
  datatype Option<+T> = None | Some(value: T) {
    function GetOr(default: T): T {
      match this
      case Some(v) => v
      case None => default
    }
  }

  /** Either a value or the exception the original program raises instead. */
  datatype Result<+R, +E> = Success(value: R) | Failure(error: E)
}
