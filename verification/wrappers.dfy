/** Option and Result, the two failure-carrying shapes the Rust code returns. */
module Wrappers {

  datatype Option<+T> = None | Some(value: T) {

    /** The carried value, or `default` when there is none (`unwrap_or`). */
    function GetOr(default: T): T {
      match this
      case Some(v) => v
      case None => default
    }
  }

  datatype Result<+T, +E> = Ok(value: T) | Err(error: E)
}
