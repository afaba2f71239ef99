/** The two Uptane repositories and their string and integer encodings (src/tuf_repository_type.rs). */
module TufRepositoryType {
  import opened BaseTypes
  import opened Wrappers

  const IMAGE: Bytes := "Image"
  const DIRECTOR: Bytes := "Director"

  /** `RepositoryType { type_: Type }`, with `Type`'s three values inlined. */
  datatype RepositoryType = Unknown | Image | Director

  /** `RepositoryType::new`: the unknown repository. */
  function New(): (r: RepositoryType)
    ensures ToInt(r) == -1
    ensures ToString(r) == []
  {
    Unknown
  }

  /** `From<RepositoryType> for i32`: the persisted code. */
  function ToInt(r: RepositoryType): I32 {
    match r
    case Unknown => -1
    case Image => 0
    case Director => 1
  }

  /** `RepositoryType::from_int`: 0 and 1 name the two repositories, everything else is unknown. */
  function FromInt(n: I32): (r: RepositoryType)
    ensures r == Image <==> n == 0
    ensures r == Director <==> n == 1
    ensures r == Unknown <==> n != 0 && n != 1
  {
    if n == 0 then Image else if n == 1 then Director else Unknown
  }

  /** Decoding an encoded repository type gives it back, for all three values. */
  lemma IntRoundTrip(r: RepositoryType)
    ensures FromInt(ToInt(r)) == r
  {
  }

  /** Encoding a decoded integer gives it back exactly for the three persisted codes -1, 0 and 1. */
  lemma FromIntToInt(n: I32)
    ensures ToInt(FromInt(n)) == n <==> -1 <= n <= 1
  {
  }

  /** `RepositoryType::from_str`: exactly "Image" and "Director", case-sensitively. */
  function FromStr(s: Bytes): (r: Result<RepositoryType, Bytes>)
    ensures r == Ok(Image) <==> s == IMAGE
    ensures r == Ok(Director) <==> s == DIRECTOR
    ensures r.Err? <==> s != IMAGE && s != DIRECTOR
    ensures r.Err? ==> r.error == "Incorrect repo type: " + s
  {
    if s == DIRECTOR then Ok(Director)
    else if s == IMAGE then Ok(Image)
    else Err("Incorrect repo type: " + s)
  }

  /** `to_string` / `Display` / `From<RepositoryType> for String`. */
  function ToString(r: RepositoryType): Bytes {
    match r
    case Director => DIRECTOR
    case Image => IMAGE
    case Unknown => []
  }

  /** Parsing a printed repository type gives it back; the unknown one prints as "" and is rejected. */
  lemma StringRoundTrip(r: RepositoryType)
    ensures r != Unknown ==> FromStr(ToString(r)) == Ok(r)
    ensures r == Unknown ==> FromStr(ToString(r)).Err?
  {
  }

  /** Parsing is case-sensitive. */
  lemma FromStrIsCaseSensitive()
    ensures FromStr("image").Err? && FromStr("DIRECTOR").Err?
  {
    assert "image"[0] != IMAGE[0];
    assert "DIRECTOR"[1] != DIRECTOR[1];
  }
}
