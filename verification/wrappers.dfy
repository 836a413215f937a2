/** Option and Result datatypes used for the values a Ruby expression may
    leave as `nil` and for the runs that end in an uncaught exception. */
module Wrappers {

  /** `None` stands for Ruby's `nil`. */
  datatype Option<+T> = None | Some(value: T) {

    /** The value, or `default` when the value is `nil`. */
    function GetOr(default: T): T {
      match this
      case Some(v) => v
      case None => default
    }
  }

  /** `Failure` stands for an exception that nothing in the script rescues. */
  datatype Result<+T, +E> = Success(value: T) | Failure(error: E)
}
