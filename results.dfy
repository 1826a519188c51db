/** The error kinds the package raises, and a result type that carries them. */
module Results {

  datatype Option<T> = None | Some(value: T)

  /**
   * Python's ValueError, SyntaxError, ZeroDivisionError and IndexError (a token list read
   * past its end); message texts are not modelled.
   */
  datatype Error = ValueError | SyntaxError | ZeroDivisionError | IndexError

  datatype Result<T> = Ok(value: T) | Err(error: Error) {
    predicate IsFailure() { Err? }

    function PropagateFailure<U>(): Result<U>
      requires Err?
    {
      Err(error)
    }

    function Extract(): T
      requires Ok?
    {
      value
    }
  }
}
