/** Optional values and error outcomes shared by the tic-tac-toe modules. */
module Wrappers {

  /** A value that may be absent; Python's `None` where the engine returns it. */
  datatype Option<+T> = None | Some(value: T)

  /** The outcome of an operation that can raise: a value, or the error it raises. */
  datatype Outcome<+T, +E> = Ok(value: T) | Err(error: E)
}
