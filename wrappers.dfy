/** Failure-carrying results shared by every module of the model.
    The library reports failures with C++ exceptions; the model returns
    them as values of these datatypes instead. */
module Wrappers {

  datatype Option<+T> = None | Some(value: T)

  /** The exception kinds the library throws. */
  datatype Error =
    | InvalidGraph      // dyng::invalid_graph
    | OutOfRange        // std::out_of_range
    | InvalidArgument   // std::invalid_argument
    | RuntimeError      // std::runtime_error (text reader)

  datatype Result<+T> = Ok(value: T) | Err(error: Error) {
    predicate IsFailure() { Err? }
    function PropagateFailure<U>(): Result<U>
      requires Err?
    {
      Err(error)
    }
    function Extract(): T
      requires Ok?
    {
      value
    }
  }
}
