/** Option and Result, and the errors the core can raise. */
module Results {

  datatype Option<T> = None | Some(value: T)

  /** The failures of the timesheet core, one per way its Python code can raise. */
  datatype Error =
    | NoDataRow                        // next(reader) on a file whose header is the last line
    | InvalidLiteral(segment: string)  // int(segment) of a date segment that is not an integer
    | MissingSegment(index: nat)       // parse_date(date)[index] past the last segment
    | IntOverflow(field: string)       // datetime(...) cannot pass the year, month or day as a C int
    | OutOfRange(field: string)        // datetime(...) rejects the year, the month or the day
    | MissingField(name: string)       // row["Total Hours"] on a row that has no such key

  datatype Result<T> = Success(value: T) | Failure(error: Error)
}
