/** Failure-carrying values used by every operation that can reject its arguments. */
module Results {

  /** An optional value; `None` also stands for a reduction that yields NaN. */
  datatype Option<+T> = None | Some(value: T)

  /** Either the computed value or the reason the call was rejected. */
  datatype Result<+T, +E> = Success(value: T) | Failure(error: E)
}
