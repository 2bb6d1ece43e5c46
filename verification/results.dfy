/** Failure-carrying values used across the cipher engine: an optional value
    (JavaScript's `null`, `undefined` and `NaN` become `None`) and a result
    that is either a value or the error the source would throw. */
module Results {

  datatype Option<+T> = None | Some(value: T)

  datatype Result<+T, +E> = Success(value: T) | Failure(error: E)
}
