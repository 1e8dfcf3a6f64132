/** Option and Result values, standing for Rust's `Option<T>` and `Result<T, Box<dyn Error>>`.
    Every error of the modelled code is reported through its message, so a failure carries a string. */
module Wrappers {

  datatype Option<+T> = None | Some(value: T) {
    /** Rust's `unwrap_or` / `map_or(default, |x| x)`. */
    function GetOr(default: T): T {
      match this
      case Some(v) => v
      case None => default
    }
  }

  datatype Result<+R> = Success(value: R) | Failure(error: string)

  /** A step that produces nothing on success, such as a filesystem call (`Result<(), _>`). */
  datatype Outcome = Pass | Fail(error: string)
}
