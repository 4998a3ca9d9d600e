/** Small value wrappers shared by the other modules. */
module Wrappers {

  /** A value that may be absent, like an optional form field. */
  datatype Option<+T> = None | Some(value: T) {
    /** The wrapped value, or `default` when absent. */
    function GetOr(default: T): T {
      match this
      case Some(v) => v
      case None => default
    }
  }

  /** What a call into a foreign library did: it returned a value, or it raised. */
  datatype Outcome<+T> = Returned(value: T) | Raised
}
