/** ECU serial numbers: validated text of 1 to 64 bytes (src/ecu_serial.rs). */
module EcuSerials {
  import opened BaseTypes
  import opened Wrappers
  import opened Orderings
  import opened Utf8
  import opened SqlValues

  const MinLength: nat := 1
  const MaxLength: nat := 64

  /** `EcuSerial(String)`. */
  datatype EcuSerial = EcuSerial(value: Bytes)

  /** `EcuSerialError`; each variant carries the bound its message names. */
  datatype EcuSerialError = TooShort(min: nat) | TooLong(max: nat)

  /** The byte length a validated serial must have. */
  predicate InBounds(s: Bytes) {
    MinLength <= |s| <= MaxLength
  }

  /** `EcuSerial::new`: accepts exactly the in-bounds strings and stores them verbatim. */
  function New(serial: Bytes): (r: Result<EcuSerial, EcuSerialError>)
    ensures r.Ok? <==> InBounds(serial)
    ensures r.Ok? ==> r.value.value == serial
    ensures |serial| < MinLength ==> r == Err(TooShort(MinLength))
    ensures |serial| > MaxLength ==> r == Err(TooLong(MaxLength))
  {
    if |serial| < MinLength then Err(TooShort(MinLength))
    else if |serial| > MaxLength then Err(TooLong(MaxLength))
    else Ok(EcuSerial(serial))
  }

  /** `EcuSerial::unknown`: the sentinel for unreadable records; it bypasses `new`. */
  function Unknown(): (r: EcuSerial)
    ensures r.value == "Unknown"
    ensures InBounds(r.value)
    ensures New(r.value) == Ok(r)
  {
    EcuSerial("Unknown")
  }

  /** `Display`: writes the stored string. */
  function Display(s: EcuSerial): Bytes {
    s.value
  }

  /** Displaying a successfully built serial gives back the string it was built from. */
  lemma DisplayRoundTrip(serial: Bytes)
    requires New(serial).Ok?
    ensures Display(New(serial).value) == serial
  {
  }

  /** `Ord::cmp`: the lexicographic order of the underlying strings. */
  function Cmp(a: EcuSerial, b: EcuSerial): (r: Ordering)
    ensures r == Equal <==> a == b
    ensures r == Less <==> LexLess(a.value, b.value)
  {
    LexCmpEqualIff(a.value, b.value);
    LexCmpLessIff(a.value, b.value);
    LexCmp(a.value, b.value)
  }

  /** `cmp` is a total order: antisymmetric and transitive. */
  lemma CmpIsTotalOrder(a: EcuSerial, b: EcuSerial, c: EcuSerial)
    ensures Cmp(b, a) == Cmp(a, b).Reverse()
    ensures Cmp(a, b) == Less && Cmp(b, c) == Less ==> Cmp(a, c) == Less
  {
    LexCmpAntisymmetric(a.value, b.value);
    if Cmp(a, b) == Less && Cmp(b, c) == Less {
      LexCmpTransitive(a.value, b.value, c.value);
    }
  }

  /**
   * `FromSql::column_result`: a text column is accepted exactly when `new` accepts it;
   * any failure of `as_str` (not text, or text that is not UTF-8) becomes `InvalidType`.
   */
  function ColumnResult(v: SqlValue): (r: Result<EcuSerial, FromSqlError<EcuSerialError>>)
    ensures r.Ok? <==> v.Text? && ValidUtf8(v.text) && InBounds(v.text)
    ensures r.Ok? ==> r.value.value == v.text
    ensures r == Err(InvalidType) <==> !(v.Text? && ValidUtf8(v.text))
    ensures v.Text? && ValidUtf8(v.text) && New(v.text).Err? ==> r == Err(Other(New(v.text).error))
  {
    match AsStr(v)
    case Err(_) => Err(InvalidType)
    case Ok(s) =>
      match New(s)
      case Ok(serial) => Ok(serial)
      case Err(e) => Err(Other(e))
  }
}
