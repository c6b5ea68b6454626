/** Results of operations that may throw, and optional values. */
module Outcomes {
  datatype Option<+T> = None | Some(value: T)

  /** Err stands for a thrown format_error with its message. */
  datatype Result<+T> = Ok(value: T) | Err(message: string) {
    predicate IsFailure() {
      Err?
    }

    function PropagateFailure<U>(): Result<U>
      requires Err?
    {
      Err(message)
    }

    function Extract(): T
      requires Ok?
    {
      value
    }
  }
}
