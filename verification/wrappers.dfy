/** Option and Result, the two failure-carrying shapes the model needs:
    `null`/`undefined` in the TypeScript code become `None`, a thrown error becomes `Failure`. */
module Wrappers {

  datatype Option<+T> = None | Some(value: T) {

    /** The value, or `default` when absent (the `x ?? default` idiom). */
    function GetOr(default: T): T {
      match this
      case Some(v) => v
      case None => default
    }
  }

  datatype Result<+R, +E> = Success(value: R) | Failure(error: E)
}
