/** Error outcomes of the Python code that the model keeps. */
module Results {

  /** The exception the modelled code can raise by itself: `range()` with a
      zero step. */
  datatype Error = ValueError(message: string)

  datatype Result<+T> = Success(value: T) | Failure(error: Error)
}
