/** Option and Result types shared by the other modules. */
module Wrappers {

  /** A value that may be absent. */
  datatype Option<+T> = None | Some(value: T)

  /** Either a decoded value or the error that stopped decoding. */
  datatype Result<+T, +E> = Success(value: T) | Failure(error: E)
}
