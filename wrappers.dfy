/** The two wrappers the model uses: Option for JavaScript's `null` (and
    for a `NaN` from parseFloat), Result for an error thrown to the caller. */
module Wrappers {

  datatype Option<T> = None | Some(value: T)

  datatype Result<T, E> = Success(value: T) | Failure(error: E)
}
