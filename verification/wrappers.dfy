/** The optional-value datatype used for values JavaScript leaves `undefined` or `null`. */
module Wrappers {

  /** `None` stands for a JavaScript `undefined`/`null`, `Some(v)` for a present value. */
  datatype Option<+T> = None | Some(value: T) {

    /** The value, or `default` for an unset one: `v ?? default`. */
    function GetOr(default: T): T {
      match this
      case Some(v) => v
      case None => default
    }
  }
}
