/** Option and Result types, and the errors the sc-ATAC metrics module can raise. */
module Results {

  datatype Option<T> = None | Some(value: T)

  /** The exceptions that escape the module. */
  datatype Error =
    /** `ValueError` for a line that does not split into 4 or 5 comma-separated tokens; carries the line. */
    | UnexpectedTokenCount(line: string)
    /** `AttributeError` from `None.group(1)` when the file name does not match the sample pattern. */
    | NoSampleName(fileName: string)
    /** `ValueError` from `int(stat)` when a catalogue metric holds a non-numeric value. */
    | NonNumericStat

  datatype Result<T> = Ok(value: T) | Err(error: Error)
}
