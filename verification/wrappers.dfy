/** Option and Result: a lookup that may miss and an operation that may throw. */
module Wrappers {

  datatype Option<+T> = None | Some(value: T) {

    /** Returns the value in Some, or `default` for None */
    function GetOr(default: T): T {
      match this
      case Some(v) => v
      case None => default
    }
  }

  /** The outcome of an operation that either returns a value or throws */
  datatype Result<+T, +E> = Success(value: T) | Failure(error: E) {

    predicate IsFailure() {
      Failure?
    }

    function PropagateFailure<U>(): Result<U, E>
      requires Failure?
    {
      Failure(error)
    }

    function Extract(): T
      requires Success?
    {
      value
    }
  }
}

/** The exceptions the core can raise, one constructor per kind. */
module Errors {

  datatype Error =
    | InvalidFormat(input: string)      // no `:` or more than one `:` (expand.ts)
    | ServiceNotFound(service: string)  // unknown service key (expand.ts)
    | InvalidAction(input: string)      // unknown exact action (expand.ts)
    | InvalidInput                      // nothing to invert (invert.ts)
    | TypeError                         // JavaScript TypeError: a string method used on a non-string,
                                        // or an object operation used on null
}
