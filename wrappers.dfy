/** Option and Result, the two failure-compatible wrappers the model uses. A `Result` `Err`
    stands for an exception that .NET would throw; `:-` propagates it the way an uncaught
    exception leaves the rest of a `try` block unexecuted. */
module Wrappers {

  datatype Option<+T> = None | Some(value: T)

  datatype Result<+T, +E> = Ok(value: T) | Err(error: E) {

    predicate IsFailure() {
      Err?
    }

    function PropagateFailure<U>(): Result<U, E>
      requires Err?
    {
      Err(error)
    }

    function Extract(): T
      requires Ok?
    {
      value
    }
  }
}
