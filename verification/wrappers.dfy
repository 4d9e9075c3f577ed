/** The optional-value datatype used wherever the dashboard's JavaScript has
    `undefined`, `null` or a thrown exception on one of its paths. */
module Wrappers {

  datatype Option<+T> = None | Some(value: T) {

    /** Returns the value held in Some, or `default` when None (JavaScript's `??`). */
    function GetOr(default: T): T {
      match this
      case Some(v) => v
      case None => default
    }
  }
}
