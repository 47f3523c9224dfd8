/** Error-return shapes of the Go code: `error` alone, or a value together with an `error`. */
module Results {

  /** A Go function that returns only `error`: `Pass` is a nil error. */
  datatype Outcome<+E> = Pass | Fail(error: E)

  /** A Go constructor that returns `(*T, error)`: exactly one of the two is non-nil. */
  datatype Result<+T, +E> = Success(value: T) | Failure(error: E)
}
