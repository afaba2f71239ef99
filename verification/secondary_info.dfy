/** What the primary knows about one secondary ECU (src/secondary_info.rs). */
module SecondaryInfos {
  import opened BaseTypes
  import EcuSerials
  import HardwareIds
  import Crypto
  import PublicKeys

  /** `SecondaryInfo { serial, hw_id, kind, pub_key, extra }`. */
  datatype SecondaryInfo = SecondaryInfo(
    serial: EcuSerials.EcuSerial,
    hwId: HardwareIds.HardwareIdentifier,
    kind: Bytes,
    pubKey: PublicKeys.PublicKey,
    extra: Bytes)

  /** `SecondaryInfo::new`: every field stored as given. */
  function New(serial: EcuSerials.EcuSerial, hwId: HardwareIds.HardwareIdentifier, kind: Bytes,
               pubKey: PublicKeys.PublicKey, extra: Bytes): (s: SecondaryInfo)
    ensures s.serial == serial && s.hwId == hwId && s.kind == kind
    ensures s.pubKey == pubKey && s.extra == extra
  {
    SecondaryInfo(serial, hwId, kind, pubKey, extra)
  }

  /**
   * `SecondaryInfo::default`: the sentinel identifiers, empty kind and extra, and the
   * default (unknown) key.
   */
  function Default(): (s: SecondaryInfo)
    ensures s.serial == EcuSerials.Unknown() && s.hwId == HardwareIds.Unknown()
    ensures s.kind == [] && s.extra == []
    ensures s.pubKey == PublicKeys.Default()
    ensures s.pubKey.keyType == Crypto.Unknown
  {
    SecondaryInfo(EcuSerials.Unknown(), HardwareIds.Unknown(), [], PublicKeys.Default(), [])
  }

  /** The default record's key verifies no signature. */
  lemma DefaultVerifiesNothing(c: Crypto.CryptoBackend, signature: Bytes, message: Bytes)
    ensures !PublicKeys.VerifySignature(c, Default().pubKey, signature, message)
  {
  }
}
