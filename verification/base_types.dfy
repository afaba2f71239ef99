/**
 * Machine-level value types shared by the whole model.
 *
 * Rust strings are UTF-8 byte strings and `str::len` counts bytes, so text is modelled
 * as a sequence of bytes. A byte is written as the `char` whose code is that byte's value:
 * this lets ASCII literals such as "root" be written directly, and for ASCII text the two
 * views coincide.
 */
module BaseTypes {

  /** One byte of (UTF-8 encoded) text or of a binary blob. */
  type Byte = c: char | c as int < 256

  /** A Rust `String`/`&str` (as its UTF-8 bytes) or a `Vec<u8>`. */
  type Bytes = seq<Byte>

  const I32Min: int := -0x8000_0000
  const I32Max: int := 0x7FFF_FFFF
  const U32Modulus: int := 0x1_0000_0000

  /** Rust's `i32`. */
  type I32 = x: int | I32Min <= x <= I32Max

  /** Rust's `u32`. */
  type U32 = x: int | 0 <= x < U32Modulus

  /** Lower-cases one ASCII upper-case letter; every other byte is kept. */
  function LowerByte(b: Byte): (r: Byte)
    ensures 'A' <= b <= 'Z' ==> r as int == b as int + 32
    ensures !('A' <= b <= 'Z') ==> r == b
  {
    if 'A' <= b <= 'Z' then (b as int + 32) as char else b
  }

  /**
   * `str::to_lowercase` restricted to ASCII letters. The model only ever compares lowered
   * text with ASCII key-type names ("ed25519", "rsa", "rsa2048", ...). Apart from U+212A
   * KELVIN SIGN, which lowers to 'k', no non-ASCII character lowers to an ASCII one, and no
   * such name contains 'k'; so each comparison has the outcome that Rust's full Unicode
   * lowering gives.
   */
  function ToLowerAscii(s: Bytes): (r: Bytes)
    ensures |r| == |s|
    ensures forall i | 0 <= i < |s| :: r[i] == LowerByte(s[i])
  {
    seq(|s|, i requires 0 <= i < |s| => LowerByte(s[i]))
  }

  /** Lowering is idempotent, so matching a lowered name is insensitive to case. */
  lemma ToLowerAsciiIdempotent(s: Bytes)
    ensures ToLowerAscii(ToLowerAscii(s)) == ToLowerAscii(s)
  {
  }
}
