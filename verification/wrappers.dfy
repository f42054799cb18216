/** The two failure-carrying shapes the model needs: an optional value
    (a JavaScript field that may be `undefined` or `null`) and the outcome of a
    call that may throw. */
module Wrappers {

  datatype Option<T> = None | Some(value: T) {

    /** The carried value, or `default` when absent (JavaScript's `??`). */
    function GetOr(default: T): T {
      match this
      case Some(v) => v
      case None => default
    }
  }

  /** `Err` carries the message of the exception the call raised. */
  datatype Result<T, E> = Ok(value: T) | Err(error: E)
}
