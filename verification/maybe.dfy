/** Optional values and JavaScript-style completions shared by every module. */
module Maybe {

  /** A value that may be missing; `None` stands for JavaScript's `null`
      where a helper returns either a string or `null`. */
  datatype Option<+T> = None | Some(value: T) {

    /** The wrapped value, or `default` when there is none. */
    function GetOr(default: T): T {
      match this
      case Some(v) => v
      case None => default
    }
  }

  /** The outcome of evaluating a JavaScript expression that may throw a
      `TypeError` (reading a property of `null`, calling a method that the
      value does not have). */
  datatype Completion<+T> = Returns(value: T) | Throws
}
