/** Failure-carrying datatypes used by the converter: `Option` for values that
    may be absent (an optional field, an array slot past the end) and `Result`
    for a conversion that either succeeds or names why it failed. */
module Wrappers {

  datatype Option<+T> = None | Some(value: T)

  datatype Result<+R, +E> = Success(value: R) | Failure(error: E)
}
