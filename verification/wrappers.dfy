/** Option and Result values shared by the schema and the route handlers. */
module Wrappers {

  /** A value that may be absent: JavaScript's `undefined`/`null` become `None`. */
  datatype Option<+T> = None | Some(value: T) {
    function GetOr(default: T): T {
      match this
      case Some(v) => v
      case None => default
    }
  }

  /** Either a value or an error describing why there is none. */
  datatype Result<+T, +E> = Success(value: T) | Failure(error: E)
}
