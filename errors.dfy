/** The error values and the result type of the link store's operations. */
module Errors {

  /** `Error`: every variant the crate declares, whether or not an operation raises it. */
  datatype Error =
    | NotExists(index: nat)
    | AlreadyExists(index: nat, source: nat, target: nat)
    | HasUsages(index: nat)
    | AllocationFailed
    | Overflow
    | InvalidQuery

  /** `Result<R, T>`. */
  datatype Result<+R> = Ok(value: R) | Err(error: Error)
}
