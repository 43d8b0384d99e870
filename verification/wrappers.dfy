/** Option and Result shared by the model. */
module Wrappers {

  /** A value that may be absent: a JavaScript `undefined`/`null` or a failed lookup. */
  datatype Option<+T> = None | Some(value: T) {
    function GetOr(default: T): T {
      match this
      case Some(v) => v
      case None => default
    }
  }

  /** Either a value or an error, for operations that throw or report errors. */
  datatype Result<+R, +E> = Success(value: R) | Failure(error: E)
}
