/** Option and Result values for the two places where the program either
    has no value (a view with no buffer loaded) or raises (a field that
    does not fit its binary slot). */
module Wrappers {

  datatype Option<+T> = None | Some(value: T) {
    /** Python's `x or default` for a value that is falsy only when absent or empty. */
    function GetOr(default: T): (r: T)
      ensures this == Some(r) || (this == None && r == default)
    {
      match this
      case Some(v) => v
      case None => default
    }
  }

  datatype Result<+T, +E> = Success(value: T) | Failure(error: E)
}
