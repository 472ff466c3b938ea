/** Option and a failure-compatible Result, shared by every module of the model. */
module Wrappers {

  datatype Option<+T> = None | Some(value: T)

  /** Why a step of the C engine has undefined behaviour. */
  datatype Fault =
    | OutOfBounds(index: int)   // a write or move that leaves the buffer it targets
    | NullDeref                 // a store through a NULL pointer

  /** The outcome of a step that may run into undefined behaviour. */
  datatype Result<+T> = Ok(value: T) | Failed(fault: Fault) {

    predicate IsFailure() {
      Failed?
    }

    function PropagateFailure<U>(): Result<U>
      requires Failed?
    {
      Failed(fault)
    }

    function Extract(): T
      requires Ok?
    {
      value
    }
  }
}
