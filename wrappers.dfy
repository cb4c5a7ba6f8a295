/** Option and Result values shared by the modules of this project. */
module Wrappers {

  /** A value that may be absent: .NET's null reference or default value. */
  datatype Option<+T> = None | Some(value: T) {
    function GetOr(default: T): T {
      match this
      case Some(v) => v
      case None => default
    }
  }

  /** The outcome of an operation that either returns or throws. */
  datatype Result<+R, +E> = Success(value: R) | Failure(error: E)
}
