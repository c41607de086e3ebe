/** Optional values and error-carrying results shared by all modules. */
module Common {

  /** A value that may be absent: Python's `None` versus a present value. */
  datatype Option<T> = None | Some(value: T)

  /** Either a successful value or an error description. */
  datatype Result<T, E> = Ok(value: T) | Err(error: E)
}
