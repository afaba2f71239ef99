/** Well-formed UTF-8, the check behind Rust's `String::from_utf8` and `str::from_utf8`. */
module Utf8 {
  import opened BaseTypes

  predicate IsTail(b: Byte) {
    0x80 <= b as int <= 0xBF
  }

  /** Length of the well-formed sequence that starts `s`, or 0 if none starts there (section 4 of RFC 3629). */
  function LeadLength(s: Bytes): (n: nat)
    requires |s| > 0
    ensures n <= 4 && n <= |s|
  {
    var b0 := s[0] as int;
    if b0 <= 0x7F then 1
    else if 0xC2 <= b0 <= 0xDF then
      if |s| >= 2 && IsTail(s[1]) then 2 else 0
    else if 0xE0 <= b0 <= 0xEF then
      if |s| >= 3 && IsTail(s[1]) && IsTail(s[2])
         && (b0 != 0xE0 || s[1] as int >= 0xA0)
         && (b0 != 0xED || s[1] as int <= 0x9F)
      then 3 else 0
    else if 0xF0 <= b0 <= 0xF4 then
      if |s| >= 4 && IsTail(s[1]) && IsTail(s[2]) && IsTail(s[3])
         && (b0 != 0xF0 || s[1] as int >= 0x90)
         && (b0 != 0xF4 || s[1] as int <= 0x8F)
      then 4 else 0
    else 0
  }

  /** `s` is a concatenation of well-formed UTF-8 sequences. */
  predicate ValidUtf8(s: Bytes)
    decreases |s|
  {
    |s| == 0 || (LeadLength(s) > 0 && ValidUtf8(s[LeadLength(s)..]))
  }

  predicate IsAscii(s: Bytes) {
    forall i | 0 <= i < |s| :: s[i] as int < 0x80
  }

  /** ASCII text is valid UTF-8. */
  lemma {:induction false} AsciiIsValidUtf8(s: Bytes)
    requires IsAscii(s)
    ensures ValidUtf8(s)
    decreases |s|
  {
    if |s| > 0 {
      assert LeadLength(s) == 1;
      AsciiIsValidUtf8(s[1..]);
    }
  }
}
