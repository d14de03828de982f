/**
 * The ways a K-table load ends. Each failed assertion of the loader and each
 * rejected contract call becomes one of these values instead of an exception
 * passed to the callback. A value also records where the loader stopped (a row
 * or a batch index), which the exception itself does not carry.
 */
module LoadErrors {
  import opened Decimals

  datatype LoadError =
      // the sheet does not have 91 rows
    | RowCountMismatch(expected: nat, actual: nat)
      // a row does not have 30 coefficients plus the label
    | KeyCountMismatch(row: nat, expected: nat, actual: nat)
      // the label of row i is missing or differs from 10 * i
    | LabelMismatch(row: nat, expected: nat, found: Option<Decimal>)
      // a column header that Decimal.js cannot read
    | HeaderNotDecimal(row: nat, key: string)
      // the flattened arrays do not hold 91 * 30 entries
    | CountMismatch(expected: nat, actual: nat)
      // the ledger rejected the batch with this index
    | SubmissionFailure(batch: nat)

  /** An error found by the shape check, before anything is computed or sent. */
  predicate IsShapeError(e: LoadError) {
    e.RowCountMismatch? || e.KeyCountMismatch? || e.LabelMismatch?
  }

  datatype Result<+T> = Ok(value: T) | Err(error: LoadError)

  datatype Outcome = Pass | Fail(error: LoadError)
}
