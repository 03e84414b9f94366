/** Optional values and error-carrying results shared by the modules of this model. */
module Options {

  /** A value that may be absent: Python's `None` versus a present value. */
  datatype Option<+T> = None | Some(value: T)

  /** The outcome of a computation that can raise: a value, or the error that ended it. */
  datatype Result<+T, +E> = Ok(value: T) | Err(error: E)
}
