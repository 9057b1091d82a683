/** Types shared by the whole model: an optional value, a value-or-error
    result used wherever the scraper catches an exception, and the byte. */
module Wrappers {

  /** An 8-bit byte, as in Python's `bytes`. */
  type byte = x: int | 0 <= x < 256

  datatype Option<+T> = None | Some(value: T) {

    /** The wrapped value, or `default` when there is none. */
    function GetOr(default: T): T {
      match this
      case Some(v) => v
      case None => default
    }
  }

  /** `Failure(msg)` stands for a Python exception whose `str(e)` is `msg`. */
  datatype Result<+R, +E> = Success(value: R) | Failure(error: E)
}
