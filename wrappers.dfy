/** Option and Result values, and the exceptions of the modelled Python code
    as a closed taxonomy. A Python `raise` becomes an `Err` result. */
module Wrappers {

  datatype Option<T> = None | Some(value: T)

  /** The Python exceptions that the modelled code raises or lets through. */
  datatype Error =
    | ValueError            // invalid sha length, int() of a non-number
    | TypeError             // unpacking None, `raise None`
    | KeyError              // symbolic-ref chain too deep, missing HEAD
    | AssertionError        // `assert` statements, short pack buffer
    | RefFormatError        // ref name rejected by the base container's name check
    | NoIndexPresent        // bare repository has no index
    | PoolError             // mysql.connector pool exhausted or queue full
    | DatabaseError(kind: string)  // any mysql.connector DatabaseError subclass
    | StreamError(reason: string)  // failure reported by the pack stream copier
    | AttributeError        // a call to a method the object does not define

  datatype Result<T> = Ok(value: T) | Err(error: Error) {
    predicate IsFailure() { Err? }

    function PropagateFailure<U>(): Result<U>
      requires Err?
    {
      Err(error)
    }

    function Extract(): T
      requires Ok?
    {
      value
    }
  }
}
