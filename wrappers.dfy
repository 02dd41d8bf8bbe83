/** Option and Result, used for Python's "value or exception" outcomes. */
module Wrappers {

  datatype Option<+T> = None | Some(value: T)

  /** `Ok(v)` is a normal return; `Err(e)` is a raised exception carrying `e`. */
  datatype Result<+T, +E> = Ok(value: T) | Err(error: E)
}
