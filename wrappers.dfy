/** Option and Result values standing in for TypeScript's `null`/`undefined` and thrown exceptions. */
module Wrappers {

  datatype Option<+T> = None | Some(value: T) {
    function GetOr(default: T): T {
      match this
      case Some(v) => v
      case None => default
    }
  }

  datatype Result<+R, +E> = Ok(value: R) | Err(error: E)

  /** A request field that can be left out (`undefined`), sent as `null`, or given. */
  datatype Field<+T> = Absent | Null | Given(value: T)
}
