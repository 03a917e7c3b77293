/** The optional-value datatype used throughout the model. */
module Wrappers {

  /** `Some(v)` for a present value, `None` for an absent one. */
  datatype Option<+T> = None | Some(value: T) {

    /** The value, or `default` when absent. */
    function GetOr(default: T): T {
      match this
      case Some(v) => v
      case None => default
    }
  }
}
