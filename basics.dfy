/** Option and Result values, used where the Go code returns a value
    together with an `error` or a "not found" answer. */
module Basics {

  datatype Option<+T> = None | Some(value: T)

  /** `Err` carries the text of the Go `error` value. */
  datatype Result<+T> = Ok(value: T) | Err(msg: string) {
    function GetOr(default: T): T {
      match this
      case Ok(v) => v
      case Err(_) => default
    }
  }
}
