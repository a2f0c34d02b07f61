/** Optional values and results with an error, used wherever the modelled code
    returns None or raises an exception instead of a value. */
module Outcomes {

  datatype Option<+T> = None | Some(value: T)

  datatype Result<+T, +E> = Ok(value: T) | Err(error: E)

  /** Python exception classes that the modelled code raises or catches. */
  datatype PyError = ValueError | KeyError | IndexError | RuntimeError | TypeError
}
