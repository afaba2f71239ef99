/** Decimal rendering of integers, as Rust's `Display` for `i32` writes them. */
module Decimal {
  import opened BaseTypes
  import opened Wrappers

  predicate IsDigit(c: Byte) {
    '0' <= c <= '9'
  }

  function DigitChar(d: int): (c: Byte)
    requires 0 <= d < 10
    ensures IsDigit(c)
  {
    ('0' as int + d) as char
  }

  function DigitValue(c: Byte): (r: Option<nat>)
    ensures r.Some? <==> IsDigit(c)
    ensures r.Some? ==> r.value < 10 && DigitChar(r.value) == c
  {
    if IsDigit(c) then Some(c as int - '0' as int) else None
  }

  /** A non-empty run of digits with no leading zero, except for "0" itself. */
  predicate CanonicalDigits(s: Bytes) {
    && |s| > 0
    && (forall i | 0 <= i < |s| :: IsDigit(s[i]))
    && (s[0] == '0' ==> |s| == 1)
  }

  /**
   * The standard decimal text of an integer: canonical digits, preceded by '-' exactly for
   * negative numbers (so never "-0").
   */
  predicate Canonical(s: Bytes) {
    || CanonicalDigits(s)
    || (|s| > 1 && s[0] == '-' && CanonicalDigits(s[1..]) && s[1..] != "0")
  }

  /** Digits of `n`, most significant first, without leading zeros. */
  function NatToDigits(n: nat): (r: Bytes)
    ensures CanonicalDigits(r)
    ensures r[0] == '0' <==> n == 0
    decreases n
  {
    if n < 10 then [DigitChar(n)] else NatToDigits(n / 10) + [DigitChar(n % 10)]
  }

  /** `format!("{}", n)`: a minus sign for negative numbers, then the digits of |n|. */
  function Format(n: int): (r: Bytes)
    ensures Canonical(r)
    ensures r[0] == '-' <==> n < 0
  {
    if n < 0 then "-" + NatToDigits(-n) else NatToDigits(n)
  }

  /** The value of a non-empty all-digit string; `None` for anything else. */
  function DigitsToNat(s: Bytes): Option<nat>
    decreases |s|
  {
    if |s| == 0 then None
    else
      match DigitValue(s[|s| - 1])
      case None => None
      case Some(d) =>
        if |s| == 1 then Some(d)
        else
          match DigitsToNat(s[..|s| - 1])
          case None => None
          case Some(m) => Some(10 * m + d)
  }

  /** Reads back what `Format` writes: an optional minus sign followed by digits. */
  function Parse(s: Bytes): Option<int> {
    if |s| > 0 && s[0] == '-' then
      match DigitsToNat(s[1..])
      case None => None
      case Some(m) => Some(-(m as int))
    else
      match DigitsToNat(s)
      case None => None
      case Some(m) => Some(m as int)
  }

  lemma {:induction false} DigitsRoundTrip(n: nat)
    ensures DigitsToNat(NatToDigits(n)) == Some(n)
    decreases n
  {
    if n >= 10 {
      var s := NatToDigits(n);
      DigitsRoundTrip(n / 10);
      assert s[..|s| - 1] == NatToDigits(n / 10);
    }
  }

  /** Parsing the rendering of any integer gives the integer back. */
  lemma FormatRoundTrip(n: int)
    ensures Parse(Format(n)) == Some(n)
  {
    if n < 0 {
      DigitsRoundTrip(-n);
      assert Format(n)[1..] == NatToDigits(-n);
    } else {
      DigitsRoundTrip(n);
      assert IsDigit(Format(n)[0]);
    }
  }

  /** Canonical digits are the rendering of the number they denote. */
  lemma {:induction false} CanonicalDigitsUnique(s: Bytes)
    requires CanonicalDigits(s)
    ensures DigitsToNat(s).Some? && NatToDigits(DigitsToNat(s).value) == s
    decreases |s|
  {
    var d := DigitValue(s[|s| - 1]).value;
    if |s| > 1 {
      var prefix := s[..|s| - 1];
      assert prefix[0] == s[0];
      CanonicalDigitsUnique(prefix);
      var m := DigitsToNat(prefix).value;
      assert m != 0;
      var n := 10 * m + d;
      assert n / 10 == m && n % 10 == d;
      assert s == prefix + [s[|s| - 1]];
    }
  }

  /**
   * `Format(n)` is the only canonical text that parses to `n`: a reader of the standard
   * decimal form recovers exactly what `Format` writes.
   */
  lemma CanonicalUnique(s: Bytes, n: int)
    requires Canonical(s) && Parse(s) == Some(n)
    ensures s == Format(n)
  {
    if CanonicalDigits(s) {
      CanonicalDigitsUnique(s);
      assert s[0] != '-';
    } else {
      CanonicalDigitsUnique(s[1..]);
      assert s == "-" + s[1..];
    }
  }

  /** Distinct integers have distinct renderings. */
  lemma FormatInjective(a: int, b: int)
    requires Format(a) == Format(b)
    ensures a == b
  {
    FormatRoundTrip(a);
    FormatRoundTrip(b);
  }
}
