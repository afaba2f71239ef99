/** Lower-case hexadecimal text, as the `hex` crate's `encode` and `decode` produce and read it. */
module Hex {
  import opened BaseTypes
  import opened Wrappers

  predicate IsLowerHexDigit(c: Byte) {
    '0' <= c <= '9' || 'a' <= c <= 'f'
  }

  function HexDigit(v: int): (c: Byte)
    requires 0 <= v < 16
    ensures IsLowerHexDigit(c)
  {
    if v < 10 then ('0' as int + v) as char else ('a' as int + v - 10) as char
  }

  /** Value of one hex digit; like `hex::decode`, both letter cases are accepted. */
  function HexValue(c: Byte): (r: Option<nat>)
    ensures r.Some? ==> r.value < 16
  {
    if '0' <= c <= '9' then Some(c as int - '0' as int)
    else if 'a' <= c <= 'f' then Some(c as int - 'a' as int + 10)
    else if 'A' <= c <= 'F' then Some(c as int - 'A' as int + 10)
    else None
  }

  /** `hex::encode`: two lower-case digits per byte, high nibble first. */
  function Encode(data: Bytes): (r: Bytes)
    ensures |r| == 2 * |data|
    ensures forall i | 0 <= i < |r| :: IsLowerHexDigit(r[i])
    decreases |data|
  {
    if |data| == 0 then []
    else [HexDigit(data[0] as int / 16), HexDigit(data[0] as int % 16)] + Encode(data[1..])
  }

  /** `hex::decode`: fails on odd length or on a non-hex character. */
  function Decode(s: Bytes): Option<Bytes>
    decreases |s|
  {
    if |s| == 0 then Some([])
    else if |s| == 1 then None
    else
      match (HexValue(s[0]), HexValue(s[1]), Decode(s[2..]))
      case (Some(hi), Some(lo), Some(rest)) => Some([(hi * 16 + lo) as char] + rest)
      case _ => None
  }

  /** Decoding an encoding gives the original bytes back. */
  lemma {:induction false} DecodeEncode(data: Bytes)
    ensures Decode(Encode(data)) == Some(data)
    decreases |data|
  {
    if |data| > 0 {
      var e := Encode(data);
      assert e[2..] == Encode(data[1..]);
      DecodeEncode(data[1..]);
      var b := data[0] as int;
      assert HexValue(e[0]) == Some(b / 16);
      assert HexValue(e[1]) == Some(b % 16);
      assert data == [data[0]] + data[1..];
    }
  }

  /** Encoding is injective: equal hex text comes from equal bytes. */
  lemma EncodeInjective(a: Bytes, b: Bytes)
    requires Encode(a) == Encode(b)
    ensures a == b
  {
    DecodeEncode(a);
    DecodeEncode(b);
  }
}
