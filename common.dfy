/** Values shared by every part of the model. */
module Common {

  /** A value that may be absent: SQL NULL, a missing row, an undefined field. */
  datatype Option<+T> = None | Some(value: T)

  /** The outcome of an operation that may throw. */
  datatype Result<+T, +E> = Success(value: T) | Failure(error: E)

  /**
   * A calendar day, counted in days. The program carries days as
   * 'YYYY-MM-DD' strings on the JavaScript side and as SQL dates in the
   * database; both order and compare like this day number.
   */
  type Date = int
}
