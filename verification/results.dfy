/** Failure-compatible wrappers used throughout the model: `Option` for Swift
    optionals and `Result` for functions that `throw`. */
module Results {

  /** A Swift optional: `None` is `nil`. */
  datatype Option<+T> = None | Some(value: T)

  /** The outcome of a throwing Swift function: its value or the error it threw. */
  datatype Result<+T, +E> = Ok(value: T) | Err(error: E) {

    predicate IsFailure() {
      Err?
    }

    function PropagateFailure<U>(): Result<U, E>
      requires Err?
    {
      Err(error)
    }

    function Extract(): T
      requires Ok?
    {
      value
    }
  }
}
