/** Option and Result, for the parser's optional matches and the renderer's
    unsupported-format error. */
module Wrappers {
  datatype Option<+T> = None | Some(value: T)

  datatype Result<+R, +E> = Success(value: R) | Failure(error: E)
}
