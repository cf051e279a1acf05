/** Option and Result, used for the optional otherwise edge, for reading
    rendered text back, and for the one fatal error of the renderer. */
module Wrappers {

  datatype Option<+T> = None | Some(value: T)
  {
    predicate IsFailure() { None? }

    function PropagateFailure<U>(): Option<U>
      requires None?
    {
      None
    }

    function Extract(): T
      requires Some?
    {
      value
    }
  }

  /** The outcome of rendering: a text, or the failure that aborted it. */
  datatype Result<+T> = Ok(value: T) | Failure(message: string)
  {
    predicate IsFailure() { Failure? }

    function PropagateFailure<U>(): Result<U>
      requires Failure?
    {
      Failure(message)
    }

    function Extract(): T
      requires Ok?
    {
      value
    }
  }
}
