/** The optional value and the outcome type used across the model for JavaScript's "absent" results and thrown errors. */
module Wrappers {

  datatype Option<+T> = None | Some(value: T) {

    function GetOr(default: T): T {
      match this
      case Some(v) => v
      case None => default
    }
  }

  /** A call that returns `value`, or throws an `Error` carrying `message`. */
  datatype Result<+T> = Ok(value: T) | Throws(message: string)
}
