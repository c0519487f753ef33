/** Option and Result, used for the places where the script either skips an
    input or raises. */
module Wrappers {

  datatype Option<+T> = None | Some(value: T) {
    predicate IsFailure() { None? }

    function PropagateFailure<U>(): Option<U>
      requires None?
    {
      None
    }

    function Extract(): T
      requires Some?
    {
      value
    }
  }

  /** The exceptions of the script that the model keeps. */
  datatype Error = KeyError | ValueError | IndexError | TypeError

  datatype Result<+T> = Ok(value: T) | Err(error: Error)
}
