/** Option and Result: the model's stand-ins for Java's null and for thrown exceptions. */
module Results {

  /** A value that may be absent: `None` plays the part of a Java null. */
  datatype Option<+T> = None | Some(value: T) {
    function GetOr(default: T): T {
      match this
      case Some(v) => v
      case None => default
    }
  }

  /** The outcome of an operation that may throw: `Failure` carries the exception's meaning. */
  datatype Result<+R, +E> = Success(value: R) | Failure(error: E)
}
