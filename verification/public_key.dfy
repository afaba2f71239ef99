/** Public keys: key material plus its classified type (src/public_key.rs). */
module PublicKeys {
  import opened BaseTypes
  import opened Wrappers
  import opened Crypto
  import opened Json
  import Hex

  /** `PublicKey { value, key_type }`: PEM text for RSA, hex text for Ed25519. */
  datatype PublicKey = PublicKey(value: Bytes, keyType: KeyType)

  /** The errors `from_json` reports. */
  datatype PublicKeyError = InvalidKeyType | InvalidKeyValue | KeyDecode(cause: CryptoError)

  /** `PublicKey::new`: value and type stored unchanged. */
  function New(value: Bytes, keyType: KeyType): (k: PublicKey)
    ensures k.value == value && k.keyType == keyType
  {
    PublicKey(value, keyType)
  }

  /** `PublicKey::default`: the "no key on record" sentinel. */
  function Default(): (k: PublicKey)
    ensures k.value == "Unknown" && k.keyType == Unknown
  {
    PublicKey("Unknown", Unknown)
  }

  /** `uptane_json["keytype"].as_str()`. */
  function KeyTypeField(j: Json): Option<Bytes> {
    AsStr(Get(j, "keytype"))
  }

  /** `uptane_json["keyval"]["public"].as_str()`. */
  function PublicField(j: Json): Option<Bytes> {
    AsStr(Get(Get(j, "keyval"), "public"))
  }

  /**
   * `PublicKey::from_json`. Fails when `keytype` (checked first) or `keyval.public` is
   * missing or not a string. Otherwise the value is `keyval.public`, and the lower-cased
   * `keytype` decides the type: "ed25519" is trusted as declared, "rsa" is re-derived from
   * the key material (a decode failure propagates), anything else is `Unknown`.
   */
  function FromJson(c: CryptoBackend, j: Json): (r: Result<PublicKey, PublicKeyError>)
    ensures KeyTypeField(j).None? ==> r == Err(InvalidKeyType)
    ensures KeyTypeField(j).Some? && PublicField(j).None? ==> r == Err(InvalidKeyValue)
    ensures r.Ok? ==> PublicField(j) == Some(r.value.value)
    ensures r.Ok? && r.value.keyType == Ed25519 ==> ToLowerAscii(KeyTypeField(j).value) == "ed25519"
    ensures r.Ok? && IsRsa(r.value.keyType) ==>
      ToLowerAscii(KeyTypeField(j).value) == "rsa" && IdentifyRsaKeyType(c, r.value.value) == Ok(r.value.keyType)
    ensures r.Err? && r.error.KeyDecode? ==>
      ToLowerAscii(KeyTypeField(j).value) == "rsa" && c.rsaModulusSize(PublicField(j).value).None?
    ensures KeyTypeField(j).Some? && PublicField(j).Some? ==>
      var declared := ToLowerAscii(KeyTypeField(j).value);
      && (declared == "ed25519" ==> r == Ok(PublicKey(PublicField(j).value, Ed25519)))
      && (declared != "ed25519" && declared != "rsa" ==> r == Ok(PublicKey(PublicField(j).value, Unknown)))
      && (declared == "rsa" ==>
            match IdentifyRsaKeyType(c, PublicField(j).value)
            case Ok(t) => r == Ok(PublicKey(PublicField(j).value, t))
            case Err(e) => r == Err(KeyDecode(e)))
  {
    match KeyTypeField(j)
    case None => Err(InvalidKeyType)
    case Some(declared) =>
      match PublicField(j)
      case None => Err(InvalidKeyValue)
      case Some(keyValue) =>
        var keyType := ToLowerAscii(declared);
        if keyType == "ed25519" then Ok(PublicKey(keyValue, Ed25519))
        else if keyType == "rsa" then
          match IdentifyRsaKeyType(c, keyValue)
          case Ok(t) => Ok(PublicKey(keyValue, t))
          case Err(e) => Err(KeyDecode(e))
        else Ok(PublicKey(keyValue, Unknown))
  }

  /** `PublicKey::verify_signature`: dispatch on the key type; an `Unknown` key verifies nothing. */
  function VerifySignature(c: CryptoBackend, k: PublicKey, signature: Bytes, message: Bytes): (r: bool)
    ensures k.keyType == Unknown ==> !r
    ensures k.keyType == Ed25519 ==> (r <==> Ed25519Verify(c, k.value, signature, message))
    ensures IsRsa(k.keyType) ==> (r <==> c.rsaPssVerifier(k.value, signature, message) == Ok(true))
  {
    match k.keyType
    case Ed25519 => Ed25519Verify(c, k.value, signature, message)
    case Rsa2048 => RsaPssVerify(c, k.value, signature, message)
    case Rsa3072 => RsaPssVerify(c, k.value, signature, message)
    case Rsa4096 => RsaPssVerify(c, k.value, signature, message)
    case Unknown => false
  }

  /**
   * `PublicKey::verify_signature` exactly as the code runs it: RSA keys reach
   * `Crypto::rsa_pss_verify` as written, which also accepts openssl's `Ok(false)`.
   */
  function VerifySignatureAsWritten(c: CryptoBackend, k: PublicKey, signature: Bytes, message: Bytes): (r: bool)
    ensures k.keyType == Unknown ==> !r
    ensures k.keyType == Ed25519 ==> (r <==> Ed25519Verify(c, k.value, signature, message))
    ensures IsRsa(k.keyType) ==> (r <==> c.rsaPssVerifier(k.value, signature, message).Ok?)
  {
    match k.keyType
    case Ed25519 => Ed25519Verify(c, k.value, signature, message)
    case Rsa2048 => RsaPssVerifyAsWritten(c, k.value, signature, message)
    case Rsa3072 => RsaPssVerifyAsWritten(c, k.value, signature, message)
    case Rsa4096 => RsaPssVerifyAsWritten(c, k.value, signature, message)
    case Unknown => false
  }

  /**
   * The dispatch as written and the corrected one disagree exactly on RSA keys for which
   * openssl reports a mismatch (`Ok(false)`); there the code accepts and the model rejects.
   */
  lemma VerifySignatureAsWrittenDiffers(c: CryptoBackend, k: PublicKey, signature: Bytes, message: Bytes)
    ensures VerifySignature(c, k, signature, message) ==> VerifySignatureAsWritten(c, k, signature, message)
    ensures VerifySignature(c, k, signature, message) != VerifySignatureAsWritten(c, k, signature, message)
      <==> IsRsa(k.keyType) && c.rsaPssVerifier(k.value, signature, message) == Ok(false)
  {
    if IsRsa(k.keyType) {
      match c.rsaPssVerifier(k.value, signature, message)
      case Ok(b) =>
      case Err(_) =>
    }
  }

  /** The default key verifies no signature, whatever the backend. */
  lemma DefaultVerifiesNothing(c: CryptoBackend, signature: Bytes, message: Bytes)
    ensures !VerifySignature(c, Default(), signature, message)
  {
  }

  const RSA_NAME: Bytes := "RSA"
  const ED25519_NAME: Bytes := "ED25519"
  const UNKNOWN_NAME: Bytes := "unknown"

  /**
   * `PublicKey::to_uptane`: `{"keytype": ..., "keyval": {"public": value}}`, where every RSA
   * family is written as "RSA" (the bit length is not written out).
   */
  function ToUptane(k: PublicKey): (j: Json)
    ensures PublicField(j) == Some(k.value)
    ensures KeyTypeField(j) == Some(RSA_NAME) <==> IsRsa(k.keyType)
    ensures KeyTypeField(j) == Some(ED25519_NAME) <==> k.keyType == Ed25519
    ensures KeyTypeField(j) == Some(UNKNOWN_NAME) <==> k.keyType == Unknown
  {
    var name :=
      match k.keyType
      case Rsa2048 => RSA_NAME
      case Rsa3072 => RSA_NAME
      case Rsa4096 => RSA_NAME
      case Ed25519 => ED25519_NAME
      case Unknown => UNKNOWN_NAME;
    var keyval := Object([("public", Str(k.value))]);
    var members := [("keytype", Str(name)), ("keyval", keyval)];
    assert "keytype"[3] != "keyval"[3];
    assert members[1..] == [("keyval", keyval)];
    assert Lookup(members, "keyval") == keyval;
    Object(members)
  }

  /**
   * Reading back the rendered form keeps the value. Ed25519 and Unknown keys come back
   * unchanged; an RSA key's family is derived afresh from its material, so a key whose
   * family came from its own material also comes back unchanged.
   */
  lemma FromJsonToUptane(c: CryptoBackend, k: PublicKey)
    ensures FromJson(c, ToUptane(k)).Ok? ==> FromJson(c, ToUptane(k)).value.value == k.value
    ensures k.keyType == Ed25519 || k.keyType == Unknown ==> FromJson(c, ToUptane(k)) == Ok(k)
    ensures IsRsa(k.keyType) ==>
      (FromJson(c, ToUptane(k)).Ok? <==> IdentifyRsaKeyType(c, k.value).Ok?)
    ensures IsRsa(k.keyType) && IdentifyRsaKeyType(c, k.value) == Ok(k.keyType) ==>
      FromJson(c, ToUptane(k)) == Ok(k)
    ensures IsRsa(k.keyType) ==>
      FromJson(c, ToUptane(k)) ==
        match IdentifyRsaKeyType(c, k.value)
        case Ok(t) => Ok(PublicKey(k.value, t))
        case Err(e) => Err(KeyDecode(e))
  {
    var j := ToUptane(k);
    var declared := ToLowerAscii(KeyTypeField(j).value);
    if IsRsa(k.keyType) {
      assert declared == "rsa";
    } else if k.keyType == Ed25519 {
      assert declared == "ed25519";
    } else {
      assert declared[0] == 'u';
    }
  }

  /**
   * An "rsa" fragment renders back as "RSA" exactly when its modulus has one of the three
   * supported lengths; any other length gives an `Unknown` key that renders as "unknown".
   */
  lemma RsaFragmentRendering(c: CryptoBackend, j: Json)
    requires KeyTypeField(j).Some? && ToLowerAscii(KeyTypeField(j).value) == "rsa"
    requires FromJson(c, j).Ok?
    ensures var k := FromJson(c, j).value;
      var bits := (c.rsaModulusSize(k.value).value * 8) % U32Modulus;
      && (KeyTypeField(ToUptane(k)) == Some(RSA_NAME) <==> bits == 2048 || bits == 3072 || bits == 4096)
      && (KeyTypeField(ToUptane(k)) == Some(UNKNOWN_NAME) <==> bits != 2048 && bits != 3072 && bits != 4096)
  {
    assert ToLowerAscii(KeyTypeField(j).value) != "ed25519";
  }

  /** `PublicKey::key_id`: the hex SHA-256 of the key value, 64 lower-case hex characters. */
  function KeyId(c: CryptoBackend, k: PublicKey): (id: Bytes)
    ensures |id| == 64
    ensures forall i | 0 <= i < |id| :: Hex.IsLowerHexDigit(id[i])
    ensures Hex.Decode(id) == Some(c.sha256(k.value))
  {
    Sha256DigestHex(c, k.value)
  }

  /** Key ids depend on the value only: keys with equal values have equal ids whatever their types. */
  lemma KeyIdIgnoresType(c: CryptoBackend, k1: PublicKey, k2: PublicKey)
    requires k1.value == k2.value
    ensures KeyId(c, k1) == KeyId(c, k2)
  {
  }

  /** Two keys share an id exactly when their values have the same digest. */
  lemma KeyIdCollisionIsDigestCollision(c: CryptoBackend, k1: PublicKey, k2: PublicKey)
    ensures KeyId(c, k1) == KeyId(c, k2) <==> c.sha256(k1.value) == c.sha256(k2.value)
  {
    if KeyId(c, k1) == KeyId(c, k2) {
      Hex.EncodeInjective(c.sha256(k1.value), c.sha256(k2.value));
    }
  }
}
