/** Option and Result values used for nullable columns, missing rows and error returns. */
module Wrappers {

  datatype Option<+T> = None | Some(value: T)

  /** The value inside Some, or `default` for None (PHP's `?? default`). */
  function GetOr<T>(o: Option<T>, default: T): T
  {
    match o
    case Some(v) => v
    case None => default
  }

  datatype Result<+T, +E> = Ok(value: T) | Err(error: E)
}
