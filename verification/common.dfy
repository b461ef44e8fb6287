/** Option and Result, the two shapes the session gate returns. */
module Wrappers {

  datatype Option<+T> = None | Some(value: T) {
    function GetOr(default: T): T {
      match this
      case Some(v) => v
      case None => default
    }
  }

  /** Rust's `Result<T, E>`. */
  datatype Result<+T, +E> = Ok(value: T) | Err(error: E)
}

/** Leptos' `ServerFnError`; the gate only ever builds the `ServerError(message)` variant. */
module Errors {
  datatype ServerFnError = ServerError(message: string)
}

/** Octets, for raw header values and UTF-8 text. */
module Octets {
  newtype byte = x: int | 0 <= x < 256
}
