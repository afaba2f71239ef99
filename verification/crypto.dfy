/**
 * Key-type classification, content digests and the signature primitives (src/crypto.rs).
 *
 * The cryptography itself (PEM parsing, SHA-256, Ed25519, RSA-PSS) is not modelled: it is
 * supplied as a `CryptoBackend`, a record of functions about which nothing is assumed beyond
 * their types.
 */
module Crypto {
  import opened BaseTypes
  import opened Wrappers
  import Hex

  /** `KeyType`. */
  datatype KeyType = Ed25519 | Rsa2048 | Rsa3072 | Rsa4096 | Unknown

  predicate IsRsa(k: KeyType) {
    k.Rsa2048? || k.Rsa3072? || k.Rsa4096?
  }

  const ED25519: Bytes := "ed25519"
  const RSA2048: Bytes := "rsa2048"
  const RSA3072: Bytes := "rsa3072"
  const RSA4096: Bytes := "rsa4096"

  /**
   * `FromStr for KeyType`: never fails; the lower-cased input selects a variant by name and
   * every unrecognised name reads as `Unknown`.
   */
  function FromStr(s: Bytes): (r: Result<KeyType, Bytes>)
    ensures r.Ok?
    ensures r.value == Ed25519 <==> ToLowerAscii(s) == ED25519
    ensures r.value == Rsa2048 <==> ToLowerAscii(s) == RSA2048
    ensures r.value == Rsa3072 <==> ToLowerAscii(s) == RSA3072
    ensures r.value == Rsa4096 <==> ToLowerAscii(s) == RSA4096
    ensures r.value == Unknown <==> ToLowerAscii(s) !in [ED25519, RSA2048, RSA3072, RSA4096]
  {
    var lower := ToLowerAscii(s);
    assert ED25519[0] != RSA2048[0] && RSA2048[3] != RSA3072[3] && RSA2048[3] != RSA4096[3]
      && RSA3072[3] != RSA4096[3] && ED25519[0] != RSA3072[0] && ED25519[0] != RSA4096[0];
    if lower == ED25519 then Ok(Ed25519)
    else if lower == RSA2048 then Ok(Rsa2048)
    else if lower == RSA3072 then Ok(Rsa3072)
    else if lower == RSA4096 then Ok(Rsa4096)
    else Ok(Unknown)
  }

  /** `Display for KeyType`. */
  function Display(k: KeyType): Bytes {
    match k
    case Ed25519 => "Ed25519"
    case Rsa2048 => "Rsa2048"
    case Rsa3072 => "Rsa3072"
    case Rsa4096 => "Rsa4096"
    case Unknown => "Unknown"
  }

  /** Parsing the printed form of a key type gives it back. */
  lemma FromStrDisplay(k: KeyType)
    ensures FromStr(Display(k)) == Ok(k)
  {
    match k
    case Ed25519 =>
    case Rsa2048 =>
    case Rsa3072 =>
    case Rsa4096 =>
    case Unknown =>
      var lower := ToLowerAscii(Display(k));
      assert lower[0] == 'u';
  }

  /** Parsing ignores letter case. */
  lemma FromStrIgnoresCase(s: Bytes)
    ensures FromStr(s) == FromStr(ToLowerAscii(s))
  {
    ToLowerAsciiIdempotent(s);
  }

  /** Upper case is accepted, and a near-miss name is an unknown key type rather than an error. */
  lemma FromStrExamples()
    ensures FromStr("ED25519") == Ok(Ed25519)
    ensures FromStr("ed25519") == Ok(Ed25519)
    ensures FromStr("EdDSA25519") == Ok(Unknown)
    ensures FromStr("RSA4096") == Ok(Rsa4096)
  {
  }

  /** A SHA-256 digest. */
  type Digest = d: Bytes | |d| == 32 witness seq(32, _ => 0 as char)

  /** The failure `Rsa::public_key_from_pem` reports (openssl's `ErrorStack`). */
  datatype CryptoError = KeyDecodeError

  /**
   * The cryptographic library calls the source makes, as uninterpreted functions:
   * - `rsaModulusSize(pem)`: `Rsa::public_key_from_pem(pem)` followed by `size()`, the
   *   modulus length in bytes; `None` when the PEM text does not decode;
   * - `sha256(data)`: `ring::digest::digest(&SHA256, data)`;
   * - `ed25519Verify(key, sig, msg)`: hex-decoding `key` and ring's Ed25519 `verify(msg, sig).is_ok()`;
   * - `rsaPssVerifier(key, sig, msg)`: openssl's SHA-256/PSS `Verifier::verify(sig)` after
   *   `update(msg)`: `Ok(true)` on a match, `Ok(false)` on a mismatch, `Err` on a failure.
   */
  datatype CryptoBackend = CryptoBackend(
    rsaModulusSize: Bytes -> Option<U32>,
    sha256: Bytes -> Digest,
    ed25519Verify: (Bytes, Bytes, Bytes) -> bool,
    rsaPssVerifier: (Bytes, Bytes, Bytes) -> Result<bool, CryptoError>)

  /** The RSA family of a modulus bit length; any length other than 2048/3072/4096 is `Unknown`. */
  function RsaFamily(bits: int): (k: KeyType)
    ensures k != Ed25519
    ensures k == Rsa2048 <==> bits == 2048
    ensures k == Rsa3072 <==> bits == 3072
    ensures k == Rsa4096 <==> bits == 4096
    ensures k == Unknown <==> bits != 2048 && bits != 3072 && bits != 4096
  {
    if bits == 2048 then Rsa2048
    else if bits == 3072 then Rsa3072
    else if bits == 4096 then Rsa4096
    else Unknown
  }

  /** The modulus bit length an RSA family stands for. */
  function RsaBits(k: KeyType): nat
    requires IsRsa(k)
  {
    match k
    case Rsa2048 => 2048
    case Rsa3072 => 3072
    case Rsa4096 => 4096
  }

  /** Each RSA family is recovered from its bit length, and distinct families have distinct lengths. */
  lemma RsaFamilyOfBits(k: KeyType)
    requires IsRsa(k)
    ensures RsaFamily(RsaBits(k)) == k
  {
  }

  /**
   * `Crypto::identify_rsa_key_type`: a PEM decode failure is an error (never `Unknown`);
   * otherwise the family of `size() * 8`, computed in `u32` arithmetic (wrapping, as in a
   * release build).
   */
  function IdentifyRsaKeyType(c: CryptoBackend, pem: Bytes): (r: Result<KeyType, CryptoError>)
    ensures r.Err? <==> c.rsaModulusSize(pem).None?
    ensures r.Ok? ==> IsRsa(r.value) || r.value == Unknown
    ensures r.Ok? ==> (r.value == Unknown <==>
      var bits := (c.rsaModulusSize(pem).value * 8) % U32Modulus; bits != 2048 && bits != 3072 && bits != 4096)
    ensures r.Ok? ==> r.value == RsaFamily((c.rsaModulusSize(pem).value * 8) % U32Modulus)
  {
    match c.rsaModulusSize(pem)
    case None => Err(KeyDecodeError)
    case Some(size) => Ok(RsaFamily((size * 8) % U32Modulus))
  }

  /** For every realistic modulus size (no `u32` overflow) the family is fixed by the byte size. */
  lemma IdentifyBySize(c: CryptoBackend, pem: Bytes)
    requires c.rsaModulusSize(pem).Some?
    requires c.rsaModulusSize(pem).value * 8 < U32Modulus
    ensures var size := c.rsaModulusSize(pem).value;
      && (IdentifyRsaKeyType(c, pem) == Ok(Rsa2048) <==> size == 256)
      && (IdentifyRsaKeyType(c, pem) == Ok(Rsa3072) <==> size == 384)
      && (IdentifyRsaKeyType(c, pem) == Ok(Rsa4096) <==> size == 512)
      && (IdentifyRsaKeyType(c, pem) == Ok(Unknown) <==> size != 256 && size != 384 && size != 512)
  {
  }

  /** `Crypto::sha256digest_hex`: the lower-case hex encoding of the SHA-256 digest, 64 characters. */
  function Sha256DigestHex(c: CryptoBackend, data: Bytes): (r: Bytes)
    ensures |r| == 64
    ensures forall i | 0 <= i < |r| :: Hex.IsLowerHexDigit(r[i])
    ensures Hex.Decode(r) == Some(c.sha256(data))
  {
    Hex.DecodeEncode(c.sha256(data));
    Hex.Encode(c.sha256(data))
  }

  /** `Crypto::ed25519_verify`. */
  function Ed25519Verify(c: CryptoBackend, publicKey: Bytes, signature: Bytes, message: Bytes): bool {
    c.ed25519Verify(publicKey, signature, message)
  }

  /**
   * `Crypto::rsa_pss_verify` as written: `verifier.verify(signature).is_ok()`, which is true for
   * `Ok(false)`, the answer openssl gives for a signature that does not match.
   */
  function RsaPssVerifyAsWritten(c: CryptoBackend, publicKey: Bytes, signature: Bytes, message: Bytes): (r: bool)
    ensures r <==> c.rsaPssVerifier(publicKey, signature, message).Ok?
  {
    c.rsaPssVerifier(publicKey, signature, message).Ok?
  }

  /** A backend whose RSA-PSS check reports a mismatch for every signature. */
  function MismatchingBackend(): CryptoBackend {
    CryptoBackend(
      _ => None,
      _ => seq(32, _ => 0 as char),
      (_, _, _) => false,
      (_, _, _) => Ok(false))
  }

  /** As written, a signature that openssl reports as not matching is accepted. */
  lemma RsaPssAsWrittenAcceptsMismatch(publicKey: Bytes, signature: Bytes, message: Bytes)
    ensures MismatchingBackend().rsaPssVerifier(publicKey, signature, message) == Ok(false)
    ensures RsaPssVerifyAsWritten(MismatchingBackend(), publicKey, signature, message)
    ensures !RsaPssVerify(MismatchingBackend(), publicKey, signature, message)
  {
  }

  /** `Crypto::rsa_pss_verify` as intended: a signature verifies only when openssl reports a match. */
  function RsaPssVerify(c: CryptoBackend, publicKey: Bytes, signature: Bytes, message: Bytes): (r: bool)
    ensures r <==> c.rsaPssVerifier(publicKey, signature, message) == Ok(true)
    ensures r ==> RsaPssVerifyAsWritten(c, publicKey, signature, message)
  {
    c.rsaPssVerifier(publicKey, signature, message) == Ok(true)
  }
}
