/** Option and Result datatypes used throughout the model. */
module Wrappers {

  /** A value that may be absent: an XML element's missing text, or a lookup miss. */
  datatype Option<+T> = None | Some(value: T) {

    /** Returns the wrapped value, or `default` when absent. */
    function GetOr(default: T): T {
      match this
      case Some(v) => v
      case None => default
    }
  }

  /** Either a value or an error. */
  datatype Result<+T, +E> = Success(value: T) | Failure(error: E)
}
