/** Failure-carrying result types shared by every module of the model.

    The program reports expected failures through `Result` values and, in a
    few places, aborts with a panic (`unwrap`, `expect`, an out-of-range
    index, an unsigned underflow).  Both are modelled as `Err` values so that
    every operation of the model is total: `Failure` carries the message the
    program would report, `Panic` names the abort.
 */
module Wrappers {

  datatype Option<+T> = None | Some(value: T) {
    /** The value, or `default` when absent (Rust's `unwrap_or`). */
    function GetOr(default: T): T {
      match this
      case Some(v) => v
      case None => default
    }
  }

  datatype Error =
    | Failure(message: string)   // an `Err` the program returns to its caller
    | Panic(reason: string)      // the program aborts (unwrap, expect, bad index)

  datatype Result<+T> = Ok(value: T) | Err(error: Error) {
    predicate IsFailure() { Err? }

    function PropagateFailure<U>(): Result<U>
      requires Err?
    {
      Err(error)
    }

    function Extract(): T
      requires Ok?
    {
      value
    }

    /** Rust's `Result::ok`: the value as an option, dropping the error. */
    function ToOption(): Option<T> {
      match this
      case Ok(v) => Some(v)
      case Err(_) => None
    }
  }
}
