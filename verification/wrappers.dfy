/** Optional and failure-carrying values shared by the rest of the model. */
module Wrappers {

  /** A value that may be absent: JavaScript's `null`/`undefined` on a field,
      or "no element seen yet" for a running extremum. */
  datatype Option<+T> = None | Some(value: T) {

    /** The value, or `default` when absent (the `??` operator). */
    function GetOr(default: T): T {
      if Some? then value else default
    }
  }

  /** Either a value or an error. */
  datatype Result<+R, +E> = Success(value: R) | Failure(error: E)
}
