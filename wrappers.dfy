/** Optional values and results with an error, as the plugin's field bundles and creation calls use them. */
module Wrappers {

  /** A value that may be absent (`null` or `undefined` on the JavaScript side). */
  datatype Option<T> = None | Some(value: T) {
    function GetOr(default: T): T {
      match this
      case Some(v) => v
      case None => default
    }
  }

  /** The outcome of an operation that either succeeds with a value or fails with an error. */
  datatype Result<T, E> = Ok(value: T) | Err(error: E)
}
