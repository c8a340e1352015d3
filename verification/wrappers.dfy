/** Small failure-carrying datatypes shared by the other modules. */
module Wrappers {

  /** A value that may be absent: an empty spreadsheet cell, a missing sheet. */
  datatype Option<+T> = None | Some(value: T)

  /** The handler's two outcomes: a produced workbook or an error message. */
  datatype Result<+T, +E> = Success(value: T) | Failure(error: E)
}
