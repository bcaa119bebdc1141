/** Absent values and thrown errors.

    `Option` stands for a value JavaScript would report as `undefined` or
    `null`; `Result` for a computation that either returns a value or throws
    an `Error` carrying a message. */
module Wrappers {

  datatype Option<+T> = None | Some(value: T) {

    /** The value, or `default` when absent (`Optional.getOrElse`). */
    function GetOr(default: T): T {
      match this
      case Some(v) => v
      case None => default
    }
  }

  datatype Result<+T> = Ok(value: T) | Err(message: string) {

    predicate IsFailure() {
      Err?
    }

    function PropagateFailure<U>(): Result<U>
      requires Err?
    {
      Err(message)
    }

    function Extract(): T
      requires Ok?
    {
      value
    }
  }

  /** What a loop that mutates in place leaves behind: the state as it
      stands when the loop returns or throws, and the message of what it
      threw, if anything. */
  datatype Partial<+T> = Partial(state: T, thrown: Option<string>)
}
