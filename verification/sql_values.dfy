/** The slice of rusqlite's value conversion that the identifier types rely on. */
module SqlValues {
  import opened BaseTypes
  import opened Wrappers
  import opened Utf8

  /** A column value as SQLite hands it over (rusqlite's `ValueRef`). */
  datatype SqlValue = Null | Integer(i: int) | Real(r: real) | Text(text: Bytes) | Blob(blob: Bytes)

  /** rusqlite's `FromSqlError`, with the boxed cause of `Other` made explicit. */
  datatype FromSqlError<+E> = InvalidType | Other(cause: E)

  /** The cause `ValueRef::as_str` reports for text that is not UTF-8. */
  datatype Utf8Error = Utf8Error

  /**
   * `ValueRef::as_str`: a text column's contents when they are UTF-8; `InvalidType` for
   * every other kind of column.
   */
  function AsStr(v: SqlValue): (r: Result<Bytes, FromSqlError<Utf8Error>>)
    ensures r.Ok? <==> v.Text? && ValidUtf8(v.text)
    ensures r.Ok? ==> r.value == v.text
    ensures !v.Text? ==> r == Err(InvalidType)
  {
    match v
    case Text(t) => if ValidUtf8(t) then Ok(t) else Err(Other(Utf8Error))
    case _ => Err(InvalidType)
  }
}
