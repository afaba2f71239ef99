/** The part of `serde_json::Value` that trust-metadata key fragments use. */
module Json {
  import opened BaseTypes
  import opened Wrappers

  /** A JSON value. Numbers are kept as integers; floating point is not modelled. */
  datatype Json =
    | Null
    | Bool(b: bool)
    | Number(n: int)
    | Str(s: Bytes)
    | Array(items: seq<Json>)
    | Object(members: seq<(Bytes, Json)>)

  /** The value of the first member named `key`, or `Null` when there is none. */
  function Lookup(members: seq<(Bytes, Json)>, key: Bytes): (r: Json)
    ensures (forall i | 0 <= i < |members| :: members[i].0 != key) ==> r == Null
    ensures r != Null ==> exists i | 0 <= i < |members| :: members[i] == (key, r)
    decreases |members|
  {
    if |members| == 0 then Null
    else if members[0].0 == key then members[0].1
    else Lookup(members[1..], key)
  }

  /** `value[key]`: a member of an object, and `Null` for a missing member or a non-object. */
  function Get(j: Json, key: Bytes): (r: Json)
    ensures !j.Object? ==> r == Null
  {
    match j
    case Object(members) => Lookup(members, key)
    case _ => Null
  }

  /** `Value::as_str`: the text of a string value, `None` for every other kind of value. */
  function AsStr(j: Json): (r: Option<Bytes>)
    ensures r.Some? <==> j.Str?
    ensures r.Some? ==> j == Str(r.value)
  {
    match j
    case Str(s) => Some(s)
    case _ => None
  }
}
