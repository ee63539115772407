/** Option and Result, the failure-carrying wrappers used by every other module. */
module Wrappers {

  datatype Option<+T> = None | Some(value: T)

  /** The outcome of an operation that the source either completes or aborts with an exception. */
  datatype Result<+T, +E> = Ok(value: T) | Err(error: E)
}
