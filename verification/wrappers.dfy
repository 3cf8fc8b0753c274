/** Optional values and results used by the rest of the model. */
module Wrappers {

  /** An optional value: a video read either yields a frame or fails. */
  datatype Option<+T> = None | Some(value: T)

  /** A value or an error: what a call that may raise returns. */
  datatype Result<+R, +E> = Success(value: R) | Failure(error: E)
}
