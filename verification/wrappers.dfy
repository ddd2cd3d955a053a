/** Optional values and success-or-error results, shared by the whole model. */
module Wrappers {

  /** A value that may be missing: JavaScript's `undefined`/`null` on one side,
      a present value on the other. */
  datatype Option<+T> = None | Some(value: T) {

    /** The nullish-coalescing operator `x ?? default`. */
    function GetOr(default: T): (r: T)
      ensures Some? ==> r == value
      ensures None? ==> r == default
    {
      match this
      case Some(v) => v
      case None => default
    }
  }

  /** Either a computed value or the message of a thrown `Error`. */
  datatype Result<+R, +E> = Success(value: R) | Failure(error: E)
}
