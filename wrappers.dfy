/** Optional values (a missing cell, a regex that did not match, a key that is absent) and
    results that may instead carry a raised exception. */
module Wrappers {

  datatype Option<+T> = None | Some(value: T) {

    /** The value, or `default` when there is none (Python's `d.get(k, default)`). */
    function GetOr(default: T): T {
      match this
      case Some(v) => v
      case None => default
    }
  }

  /** A value, or the exception raised instead of returning one. */
  datatype Result<+T, +E> = Success(value: T) | Failure(error: E)
}
