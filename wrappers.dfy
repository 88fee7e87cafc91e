/** Option and Result: the nullable values and the thrown errors of the TypeScript code. */
module Wrappers {

  /** `None` stands for a JavaScript value that is `null` or `undefined`. */
  datatype Option<+T> = None | Some(value: T) {

    /** The `??` operator: this value, or `default` when it is null or undefined. */
    function GetOr(default: T): T {
      match this
      case Some(v) => v
      case None => default
    }
  }

  /** `Err` stands for an exception thrown instead of a value being returned. */
  datatype Result<+T, +E> = Ok(value: T) | Err(error: E)
}
