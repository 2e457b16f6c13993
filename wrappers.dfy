/** Optional values and outcomes that may carry a thrown error. */
module Wrappers {

  /** A value that may be absent (JavaScript `undefined`). */
  datatype Option<+T> = None | Some(value: T) {
    function GetOr(default: T): T {
      match this
      case Some(v) => v
      case None => default
    }
  }

  /** The errors the modelled code can throw. */
  datatype Error =
    | MovingToNowhere  // `throw "Moving to nowhere."`
    | TypeError        // a property read on `undefined`
    | RangeError       // unbounded recursion (stack overflow)

  /** The result of an operation that either returns or throws. */
  datatype Outcome<+T> = Returns(value: T) | Throws(error: Error)
}
