/** Failure-carrying values shared by every part of the model.

    The repository reports failures by raising one of a small family of
    exception classes; only the class and its structured context (table,
    field, record id) are modelled, never the message text. */
module Outcomes {

  datatype Option<+T> = None | Some(value: T)

  /** The exception classes of the library, each with the context fields it
      carries. `ValidationError.fieldName` is `None` where the source raises
      without naming a field. */
  datatype DwhError =
    | ConstraintError(table: string)
    | UniqueConstraintError(table: string, column: string)
    | NotFoundError(table: string, id: int)
    | ValidationError(fieldName: Option<string>)
    | ConnectionError
    | SchemaError

  datatype Result<+T> = Ok(value: T) | Err(error: DwhError)

  /** The outcome of a write: the table as it stands afterwards and what the
      call returned or raised. */
  datatype Write<R, T> = Write(rows: seq<R>, result: Result<T>)

  /** A `ValidationError` that names the offending field. */
  function Invalid<T>(field: string): Result<T>
  {
    Err(ValidationError(Some(field)))
  }
}
