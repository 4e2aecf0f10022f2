/** Failure-carrying values shared by every module of the model, and the
    Python exceptions the documentation generator raises or catches. */
module Results {

  /** A value that may be absent: a missing dictionary key, a `None`. */
  datatype Option<+T> = None | Some(value: T)

  /** The outcome of an operation that may raise. */
  datatype Result<+T, +E> = Success(value: T) | Failure(error: E) {

    predicate IsFailure() {
      Failure?
    }

    function PropagateFailure<U>(): Result<U, E>
      requires Failure?
    {
      Failure(error)
    }

    function Extract(): T
      requires Success?
    {
      value
    }
  }

  /** The exception classes the analysed code raises, catches or re-wraps.
      `OtherError` stands for any other subclass of `Exception`, one that is
      neither a `ValueError` nor a `RuntimeError`. */
  datatype Exc =
    | ValueError(msg: string)
    | RuntimeError(msg: string)
    | TypeError(msg: string)
    | KeyError(key: string)
    | AttributeError(msg: string)
    | SyntaxError(msg: string)
    | OtherError(kind: string, msg: string)

  /** `str(e)`: a `KeyError` renders its key quoted, the others their message. */
  function Message(e: Exc): string
  {
    match e
    case KeyError(k) => "'" + k + "'"
    case ValueError(m) => m
    case RuntimeError(m) => m
    case TypeError(m) => m
    case AttributeError(m) => m
    case SyntaxError(m) => m
    case OtherError(_, m) => m
  }
}
