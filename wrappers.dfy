/** Option and Result values used across the driver model. */
module Wrappers {

  datatype Option<+T> = None | Some(value: T) {
    function GetOr(default: T): T
    {
      match this
      case Some(v) => v
      case None => default
    }
  }

  /** A settled promise of the driver: fulfilled with a value or rejected with an Error message. */
  datatype Result<+R> = Success(value: R) | Failure(message: string)
}
