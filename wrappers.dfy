/** Small failure-compatible wrappers shared by the other modules. */
module Wrappers {

  /** An optional value: Python's `Optional[...]` / `None`. */
  datatype Option<+T> = None | Some(value: T)

  /** The value or the first error of a check chain. */
  datatype Result<+T, +E> = Ok(value: T) | Err(error: E)
}
