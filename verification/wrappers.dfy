/** Optional values and call outcomes shared by the contract and client models. */
module Wrappers {

  /** A value that may be absent: JavaScript's `null`/`undefined` and
      AssemblyScript's NaN are modelled as `None`. */
  datatype Option<+T> = None | Some(value: T) {

    function GetOr(default: T): T {
      match this
      case Some(v) => v
      case None => default
    }
  }

  /** The outcome of a contract call: `Failure` is a reverted call. */
  datatype Result<+R, +E> = Success(value: R) | Failure(error: E)
}
