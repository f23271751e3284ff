/** Option and Result values used for the cells, the means and the error paths of the model. */
module Options {

  /** A value that may be absent: a missing (NaN) cell or the mean of a column with no numbers. */
  datatype Option<+T> = None | Some(value: T)

  /** The outcome of a step that can raise one of the script's fatal errors. */
  datatype Result<+R, +E> = Success(value: R) | Failure(error: E)
}
