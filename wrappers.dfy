/** Optional values and results with an error message. */
module Wrappers {

  datatype Option<T> = None | Some(value: T)

  /** A value, or the text of the error the Go code would return instead. */
  datatype Result<T> = Ok(value: T) | Err(msg: string)
}
