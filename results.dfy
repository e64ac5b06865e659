/** Success-or-error values for the lookups that raise `KeyError` in the source. */
module Results {

  datatype Result<+T, +E> = Success(value: T) | Failure(error: E)

}
