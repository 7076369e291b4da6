/** Failure-carrying results, and the Python exceptions the modelled code can raise. */
module Wrappers {

  datatype Option<+T> = None | Some(value: T)

  /** The exceptions that escape the modelled functions. */
  datatype PyError =
    | IndexError          // `re.findall(...)[0]` on a price with no digit
    | TypeError           // `sorted` comparing an int with a str
    | ValueError          // `{x:,}` applied to a str
    | UnboundLocalError   // reading a local that was never assigned

  datatype Result<+R> = Success(value: R) | Failure(error: PyError) {
    predicate IsFailure() { Failure? }

    function PropagateFailure<U>(): Result<U>
      requires Failure?
    {
      Failure(error)
    }

    function Extract(): R
      requires Success?
    {
      value
    }
  }
}
