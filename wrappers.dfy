/** Optional values and results with an error, standing in for Java's
    null / OptionalInt / OptionalDouble and for thrown exceptions. */
module Wrappers {

  datatype Option<+T> = None | Some(value: T) {

    /** `orElse(default)` of Java's optional types. */
    function GetOr(default: T): T {
      match this
      case Some(v) => v
      case None => default
    }
  }

  datatype Result<+T, +E> = Success(value: T) | Failure(error: E)
}
