/** Optional values and fallible results, standing in for `T | undefined`,
    `T | null` and for an Observable that either emits one value or errors. */
module Wrappers {

  datatype Option<+T> = None | Some(value: T) {
    /** The value, or `default` when there is none (the `??` operator). */
    function GetOr(default: T): T {
      match this
      case Some(v) => v
      case None => default
    }
  }

  /** An operation that emits `value`, or fails with the message of the
      `Error` it throws. */
  datatype Result<+T> = Ok(value: T) | Err(error: string)
}
