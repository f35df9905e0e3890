/** Option and Result, for the operations of the source that can find
    nothing or raise an error. */
module Wrappers {
  datatype Option<T> = None | Some(value: T)

  datatype Result<T> = Success(value: T) | Failure(error: string)
}
