/** Optional values, and outcomes of operations that may raise. */
module Wrappers {
  datatype Option<+T> = None | Some(value: T)

  /** Any exception, whatever its class or message, is `Raised`. */
  datatype Result<+T> = Ok(value: T) | Raised
}
