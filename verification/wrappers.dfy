/** Option and Result, the two failure-carrying shapes the model uses in place of
    Python's None returns and raised exceptions. */
module Wrappers {

  /** A value that may be absent: Python's `None` versus a present value. */
  datatype Option<+T> = None | Some(value: T)

  /** Either a returned value or a raised exception. */
  datatype Result<+T, +E> = Ok(value: T) | Err(error: E)
}
