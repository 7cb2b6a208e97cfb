/** Failure-carrying results shared by the evaluator and the executor.
    Each `Error` constructor stands for an exception the Python code lets
    escape: a `KeyError` on a row (`MissingColumn`) or a `KeyError` on the
    store (`UnknownTable`). */
module Results {

  datatype Option<+T> = None | Some(value: T)

  datatype Error =
    | MissingColumn(column: string)
    | UnknownTable(table: string)

  datatype Result<+T> = Ok(value: T) | Err(error: Error)
}
