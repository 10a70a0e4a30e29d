/** Option and Result, the two failure-carrying wrappers the model uses:
    `Option` for nullable columns and absent JSON keys, `Result` for a
    controller action that either answers normally or rejects the request. */
module Wrappers {

  datatype Option<+T> = None | Some(value: T)
  {
    /** The wrapped value, or `default` when there is none (PHP's `??`). */
    function GetOr(default: T): T
    {
      match this
      case Some(v) => v
      case None => default
    }
  }

  datatype Result<+T, +E> = Ok(value: T) | Err(error: E)
}
