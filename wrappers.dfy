/** Option for values the source represents as a possibly-null pointer. */
module Wrappers {

  datatype Option<+T> = None | Some(value: T) {

    /** The wrapped value, or `default` for None. */
    function GetOr(default: T): T {
      match this
      case Some(v) => v
      case None => default
    }
  }

  /** The outcome of an operation that can fail with a message (the source throws). */
  datatype Outcome = Pass | Fail(message: string)
}
