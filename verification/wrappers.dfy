/** The Some/None datatype used wherever the source distinguishes a present value from an
    absent one (a nil slice, a failed decoding). */
module Wrappers {

  datatype Option<+T> = None | Some(value: T) {

    /** Returns the value held in Some, or `default` for None. */
    function GetOr(default: T): T {
      match this
      case Some(v) => v
      case None => default
    }
  }
}
