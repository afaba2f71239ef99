/** Hardware identifiers: validated text of at most 200 bytes (src/hardware_identifier.rs). */
module HardwareIds {
  import opened BaseTypes
  import opened Wrappers
  import opened Orderings
  import opened Utf8
  import opened SqlValues

  const MaxLength: nat := 200

  /** `HardwareIdentifier(String)`. */
  datatype HardwareIdentifier = HardwareIdentifier(value: Bytes)

  /** `HardwareIdentifierError`: the only failure is an over-long identifier. */
  datatype HardwareIdentifierError = TooLong(max: nat)

  /** The byte length a validated identifier must have; the empty string is allowed. */
  predicate InBounds(s: Bytes) {
    |s| <= MaxLength
  }

  /** `HardwareIdentifier::new`: accepts exactly the strings of at most 200 bytes, verbatim. */
  function New(hwid: Bytes): (r: Result<HardwareIdentifier, HardwareIdentifierError>)
    ensures r.Ok? <==> InBounds(hwid)
    ensures r.Ok? ==> r.value.value == hwid
    ensures r.Err? ==> r.error == TooLong(MaxLength)
  {
    if |hwid| > MaxLength then Err(TooLong(MaxLength)) else Ok(HardwareIdentifier(hwid))
  }

  /** `HardwareIdentifier::unknown`: the sentinel for unreadable records. */
  function Unknown(): (r: HardwareIdentifier)
    ensures r.value == "Unknown"
    ensures InBounds(r.value)
    ensures New(r.value) == Ok(r)
  {
    HardwareIdentifier("Unknown")
  }

  /** `to_string` and `Display`: the stored string. */
  function ToString(h: HardwareIdentifier): Bytes {
    h.value
  }

  /** Printing a successfully built identifier gives back the string it was built from. */
  lemma ToStringRoundTrip(hwid: Bytes)
    requires New(hwid).Ok?
    ensures ToString(New(hwid).value) == hwid
  {
  }

  /** `Ord::cmp`: the lexicographic order of the underlying strings, consistent with `==`. */
  function Cmp(a: HardwareIdentifier, b: HardwareIdentifier): (r: Ordering)
    ensures r == Equal <==> a == b
    ensures r == Less <==> LexLess(a.value, b.value)
  {
    LexCmpEqualIff(a.value, b.value);
    LexCmpLessIff(a.value, b.value);
    LexCmp(a.value, b.value)
  }

  /** `cmp` is a total order: antisymmetric and transitive. */
  lemma CmpIsTotalOrder(a: HardwareIdentifier, b: HardwareIdentifier, c: HardwareIdentifier)
    ensures Cmp(b, a) == Cmp(a, b).Reverse()
    ensures Cmp(a, b) == Less && Cmp(b, c) == Less ==> Cmp(a, c) == Less
  {
    LexCmpAntisymmetric(a.value, b.value);
    if Cmp(a, b) == Less && Cmp(b, c) == Less {
      LexCmpTransitive(a.value, b.value, c.value);
    }
  }

  /** `FromSql::column_result`: a UTF-8 text column is accepted exactly when `new` accepts it. */
  function ColumnResult(v: SqlValue): (r: Result<HardwareIdentifier, FromSqlError<HardwareIdentifierError>>)
    ensures r.Ok? <==> v.Text? && ValidUtf8(v.text) && InBounds(v.text)
    ensures r.Ok? ==> r.value.value == v.text
    ensures r == Err(InvalidType) <==> !(v.Text? && ValidUtf8(v.text))
    ensures v.Text? && ValidUtf8(v.text) && !InBounds(v.text) ==> r == Err(Other(TooLong(MaxLength)))
  {
    match AsStr(v)
    case Err(_) => Err(InvalidType)
    case Ok(s) =>
      match New(s)
      case Ok(hwid) => Ok(hwid)
      case Err(e) => Err(Other(e))
  }
}
