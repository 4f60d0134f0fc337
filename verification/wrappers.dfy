/** Option type modelling a possibly nil Go map. */
module Wrappers {

  /** `None` stands for a nil reference, `Some(v)` for a present value `v`. */
  datatype Option<+T> = None | Some(value: T) {

    /** Returns the wrapped value, or `default` when there is none. */
    function GetOr(default: T): T {
      match this
      case Some(v) => v
      case None => default
    }
  }
}
