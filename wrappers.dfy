/** Option and Result types shared by all modules. A Ruby exception that ends the
    script is modelled as an `Err` carrying the exception's message. */
module Wrappers {

  datatype Option<+T> = None | Some(value: T)

  datatype Result<+T> = Ok(value: T) | Err(error: string) {
    predicate IsFailure() {
      Err?
    }

    function PropagateFailure<U>(): Result<U>
      requires Err?
    {
      Err(error)
    }

    function Extract(): T
      requires Ok?
    {
      value
    }
  }

  /** `p` in front of a successful result; a failure passes through. */
  function Prefixed<T>(p: seq<T>, r: Result<seq<T>>): Result<seq<T>> {
    match r
    case Ok(v) => Ok(p + v)
    case Err(e) => Err(e)
  }
}
