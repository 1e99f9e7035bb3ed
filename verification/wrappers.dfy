// Stock datatypes shared by every module of the model.
module Wrappers {
  datatype Option<+T> = None | Some(value: T) {
    function GetOr(default: T): T {
      match this
      case Some(v) => v
      case None => default
    }
  }

  /** What a reader found at the front of a text, and what it left. */
  datatype Parsed<+T> = Fail | Got(value: T, rest: string)
}
