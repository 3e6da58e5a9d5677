/** Option and Result, the two failure-carrying shapes the receiver needs:
    Go's `error` return (nil or not) and the deserialiser's value-or-error. */
module Wrappers {

  datatype Option<+T> = None | Some(value: T)

  datatype Result<+T, +E> = Success(value: T) | Failure(error: E)
}
