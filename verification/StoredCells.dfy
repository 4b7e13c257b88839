/** What a SQLite column can hold, and the readers that refuse a corrupted one.

Text is bound as UTF-8, which has no form for a lone surrogate: the driver replaces it by U+FFFD, so
stored text is always well-formed and binding changes a string exactly when it is not.
*/
module StoredCells {
  import opened Results
  import opened Utf16
  import opened Numbers

  type StoredText = t: Text | WellFormed(t)

  datatype Cell = TextCell(text: StoredText) | IntegerCell(n: int) | NullCell | OtherCell

  datatype Failure =
    | InvalidInput
    | InvalidStoredData
    | TraceConflict
    | SourceConflict
    | SourceNotFound
    | WriteFailed
    | ReadFailed

  predicate IsSafeInteger(n: int) { -MAX_SAFE_INTEGER <= n <= MAX_SAFE_INTEGER }

  function Bind(t: Text): StoredText {
    ReplaceLoneIsWellFormed(t);
    ReplaceLone(t)
  }

  /** Binding is lossless exactly on well-formed text. */
  lemma BindIsIdentity(t: Text)
    ensures Bind(t) == t <==> WellFormed(t)
  {
    ReplaceLoneIdentity(t);
  }

  function RequiredText(c: Cell): Result<Text, Failure> {
    if c.TextCell? && c.text != [] then Ok(c.text) else Err(InvalidStoredData)
  }

  /** `None` where the column is NULL. */
  datatype OptionalText = Absent | Present(text: Text)

  function OptionalStoredText(c: Cell): Result<OptionalText, Failure> {
    match c
    case NullCell => Ok(Absent)
    case TextCell(t) => Ok(Present(t))
    case _ => Err(InvalidStoredData)
  }

  function RequiredInteger(c: Cell): Result<int, Failure> {
    if c.IntegerCell? && IsSafeInteger(c.n) then Ok(c.n) else Err(InvalidStoredData)
  }
}
