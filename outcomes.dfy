/** Option and Result wrappers, and the Python exceptions the engine raises. */
module Outcomes {

  datatype Option<T> = None | Some(value: T)
  {
    function GetOr(default: T): T
    {
      if Some? then value else default
    }
  }

  /** The exception classes that escape the modelled operations. */
  datatype Error =
    | IndexError
    | KeyError
    | TypeError
    | AttributeError
    | ValueError
      /** The aggregate's display name and key, as the message names them. */
    | AggregationError(name: string, key: Option<string>)

  datatype Result<T> = Success(value: T) | Failure(error: Error)
  {
    predicate IsFailure()
    {
      Failure?
    }

    function PropagateFailure<U>(): Result<U>
      requires Failure?
    {
      Failure(error)
    }

    function Extract(): T
      requires Success?
    {
      value
    }
  }
}
