/** Option and Result, the two failure-carrying shapes the model needs. */
module Wrappers {

  /** `None` stands for a JavaScript `undefined` or `NaN`. */
  datatype Option<+T> = None | Some(value: T)

  /** `Err` stands for an exception thrown while a callback runs. */
  datatype Result<+T, +E> = Ok(value: T) | Err(error: E)
}
