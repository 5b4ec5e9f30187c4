/** Failure-compatible result types shared by the whole model. */
module Wrappers {

  datatype Option<+T> = None | Some(value: T)

  /** The outcome of an operation that can fail with an error of type `E`. */
  datatype Result<+T, +E> = Ok(value: T) | Err(error: E) {

    predicate IsFailure() {
      Err?
    }

    function PropagateFailure<U>(): Result<U, E>
      requires Err?
    {
      Err(error)
    }

    function Extract(): T
      requires Ok?
    {
      value
    }
  }
}

/** The errors the storage engine reports. */
module Errors {

  datatype Error =
    | KeyNotFound        // `Get` on a key the index does not hold
    | EndOfFile          // decoding started at the very end of a file
    | Truncated          // fewer bytes left than the header announces
    | ChecksumMismatch   // the stored CRC does not match the value bytes
    | NoSuchSegment      // a location names a segment that does not exist
    | RecordTooLarge     // a record can never fit into one active file
}
