/** Failure values of the result set: the exceptions its operations raise, as data. */
module Errors {

  datatype Option<+T> = None | Some(value: T)

  /** What a result-set operation throws.  Each kind names the Java exception it stands for. */
  datatype SqlError =
    /** NullPointerException: a getter dereferences `batch` before any batch was loaded. */
    | NullBatch
    /** SQLException "Column index i is out of bound[1, n]" from checkColumnIndex. */
    | ColumnIndexOutOfBound(index: int, columnCount: nat)
    /** An unchecked exception from VectorSchemaRoot.getVector, called with an index past the last vector. */
    | VectorIndexOutOfRange(index: int)
    /** SQLException "Column [field] is not int". */
    | NotInt(field: Field)
    /** SQLException "Column [field] is not long". */
    | NotLong(field: Field)
    /** IndexOutOfBoundsException: the row offset lies outside the vector's values. */
    | RowIndexOutOfRange(row: int)
    /** The cell at the row offset is null: IllegalStateException from get, NullPointerException from toString. */
    | NullValue(row: int)
    /** SQLException wrapping an exception of the stream reader while loading the next batch. */
    | StreamFailure

  /** An Arrow field as it appears in an error message: its name and its type. */
  datatype Field = Field(name: string, typeName: string)

  datatype Result<+T> = Ok(value: T) | Err(error: SqlError)

  /** The outcome of a check that either passes or throws. */
  datatype Outcome = Pass | Fail(error: SqlError)
}
