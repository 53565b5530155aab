/** Optional values and the outcome of an operation that may be rejected. */
module Wrappers {

  /** A Java reference that may be null: `None` stands for null. */
  datatype Option<+T> = None | Some(value: T) {

    /** The wrapped value, or `default` when there is none. */
    function GetOr(default: T): T {
      match this
      case Some(v) => v
      case None => default
    }
  }

  /**
   * The outcome of an operation that may throw: `Rejected` stands for the
   * `AdaptationException` raised when a value fails its symbol's adaptation
   * (or for an exception thrown by a caller-supplied function), in which case
   * the operation leaves the backing map as it was.
   */
  datatype Result<+T> = Ok(value: T) | Rejected
}
