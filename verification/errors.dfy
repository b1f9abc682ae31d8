/** Failure values of the rxt store, one constructor per Python exception the
    store lets escape, and the wrappers that carry them. */
module Errors {

  /** The exceptions raised by the readers, the writer and the helpers they call. */
  datatype Error =
    | KeyError(missing: seq<string>)  // a store directory or file that is absent (its path)
    | RecordKeyError(field: string)    // a record dictionary lacks a field
    | ValueError(literal: string)      // int() of a string that is not a decimal numeral
    | TypeError                        // reduce() of an empty sequence with no initial value
    | RuntimeError                     // approximate lookup found no usable timestamp
    | AssertionError                   // the store root is not a directory
    | OSError(path: seq<string>)       // listdir() or makedirs() refused by the OS
    | NotImplementedError

  datatype Option<+T> = None | Some(value: T)

  /** A value or the exception raised instead of returning it. */
  datatype Result<+T> = Ok(value: T) | Err(error: Error) {
    predicate IsFailure() { Err? }

    function PropagateFailure<U>(): Result<U>
      requires Err?
    {
      Err(error)
    }

    function Extract(): T
      requires Ok?
    {
      value
    }
  }

  /** The result of an operation run only for its effect. */
  datatype Outcome = Pass | Fail(error: Error)

  /** What a generator produces when it is run to its end: the values it
      yielded, then the exception that stopped it (None if it was exhausted). */
  datatype Yielded<+T> = Yielded(items: seq<T>, raised: Option<Error>)
}
