/** Failure-carrying values: Option for a partial computation (a field inverse),
    Result for an operation that aborts with a reason (key generation). */
module Results {

  datatype Option<+T> = None | Some(value: T)

  datatype Result<+T, +E> = Success(value: T) | Failure(error: E)
}
