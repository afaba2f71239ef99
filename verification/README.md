# oxidizr trust layer: identifiers, keys and metadata addressing, in Dafny

This project models the identity and trust-metadata layer of oxidizr, a Rust rewrite of
an Uptane update client's storage tool. It covers:

- the validated identifier types `EcuSerial` (1–64 bytes) and `HardwareIdentifier`
  (at most 200 bytes), with their `unknown()` sentinels, ordering and SQL column conversion;
- the TUF addressing values `Version` (-1 means "latest"), `Role` (fixed roles with
  persisted integer codes, plus named delegations; equality and order by name) and
  `RepositoryType` (Image/Director with string and integer encodings);
- key-type parsing and printing, RSA classification by modulus length, the hex SHA-256
  digest, and the signature dispatch;
- `PublicKey`: construction from an Uptane key fragment, rendering back, verification
  dispatch, content-derived key id and the default "no key" value;
- `SecondaryInfo` and the read side of the SQLite store. The store holds metadata rows
  `(repo, role, version, blob)`. The model resolves "latest" and "pinned" lookups over them,
  maps secondary rows with sentinel fallbacks, and has the TLS-credential, primary-key and
  registration-flag readers.

Text is modelled as UTF-8 bytes (`BaseTypes.Bytes`), so Rust's `len()` is the sequence
length and `str` ordering is byte-lexicographic. A byte is written as the `char` with that
code, so ASCII literals read naturally. The cryptographic library is a `Crypto.CryptoBackend`.
This record of functions stands for PEM decoding (returning the modulus size), SHA-256
(32 bytes), Ed25519 verification and openssl's RSA-PSS verifier. Nothing is assumed about
them beyond their types. The database is a `SqlStorage.Store`: one immutable row sequence
per table.

Modules follow the source files: `EcuSerials` (ecu_serial.rs), `HardwareIds`
(hardware_identifier.rs), `TufVersion`, `TufRoles`, `TufRepositoryType`, `Crypto`,
`PublicKeys`, `SecondaryInfos`, `SqlStorage`. Supporting modules: `Wrappers` (Option/Result),
`BaseTypes`, `Utf8` (well-formedness per section 4 of RFC 3629), `Orderings` (`Ordering` and
byte-lexicographic comparison, with a reference definition), `Decimal` (`i32` rendering and
its parser), `Hex` (the `hex` crate's encode/decode), `Json` (the fragment of `serde_json::Value`
used by keys) and `SqlValues` (rusqlite's `ValueRef::as_str`).

Behaviour of the code worth noting:

- Role codes are Root 0, Snapshot 1, Targets 2, Timestamp 3, Delegation 4, OfflineSnapshot 5,
  OfflineUpdates 6 and InvalidRole -1.
- The canonical form of a key read from an "rsa" fragment is "RSA" only when the modulus is
  2048, 3072 or 4096 bits long. Any other length gives an `Unknown` key, which renders as
  "unknown" (`PublicKeys.RsaFragmentRendering`).
- When several metadata rows share a (repo, role, version) triple, the lookup is not refused.
  `ORDER BY version DESC LIMIT 1` returns one of them, and the model returns some row that
  has the greatest version.
- `HardwareIdentifier` has no "too short" error, because the empty identifier is valid.
- Signature verification is not fail-closed in the code. The RSA path accepts a mismatch
  (see Findings below). Both primitives `unwrap` and would panic on an undecodable key.

## Model

| member | source | states |
|---|---|---|
| EcuSerials.New | src/ecu_serial.rs:12-26 | succeeds iff 1 ≤ byte length ≤ 64 and stores the input verbatim; the empty string fails with the "too short (min 1)" error because that check comes first; anything over 64 bytes fails with "too long (max 64)" |
| EcuSerials.Unknown | src/ecu_serial.rs:27-29 | the sentinel is "Unknown", lies within the length bounds, and is what `new` would build from that text |
| EcuSerials.DisplayRoundTrip | src/ecu_serial.rs:32-36 | displaying a successfully built serial returns the input unchanged (covers `EcuSerials.Display`) |
| EcuSerials.Cmp | src/ecu_serial.rs:38-48 | `cmp` answers Equal exactly for equal serials and Less exactly when the reference lexicographic order puts the first string before the second |
| EcuSerials.CmpIsTotalOrder | src/ecu_serial.rs:38-42 | swapping the operands reverses the answer, and Less is transitive |
| EcuSerials.ColumnResult | src/ecu_serial.rs:50-60 | a column is accepted iff it is UTF-8 text that `new` accepts; any `as_str` failure (not text, or text that is not UTF-8) gives `InvalidType`; a rejected text carries `new`'s error |
| HardwareIds.New | src/hardware_identifier.rs:15-23 | succeeds iff byte length ≤ 200 (the empty string included) and stores the input verbatim; longer input gives the "too long (max 200)" error |
| HardwareIds.Unknown | src/hardware_identifier.rs:25-27 | the sentinel is "Unknown", is within bounds and never fails |
| HardwareIds.ToStringRoundTrip | src/hardware_identifier.rs:29-31 | `to_string` of a successfully built identifier returns the input (covers `HardwareIds.ToString`) |
| HardwareIds.Cmp | src/hardware_identifier.rs:52-62 | lexicographic order on the stored string; Equal exactly for equal identifiers |
| HardwareIds.CmpIsTotalOrder | src/hardware_identifier.rs:52-56 | antisymmetric and transitive |
| HardwareIds.ColumnResult | src/hardware_identifier.rs:34-44 | accepts a column iff it is UTF-8 text of at most 200 bytes; a non-text column gives `InvalidType` |
| TufVersion.New | src/tuf_version.rs:9-15 | `version()` is -1 and `is_latest()` holds |
| TufVersion.FromInt | src/tuf_version.rs:17-31 | `from_int(v).version() == v` for every i32, and `is_latest()` holds exactly when v is -1 (covers `TufVersion.IsLatest`) |
| TufVersion.Display | src/tuf_version.rs:34-38 | the text is the standard decimal form (no leading zeros, '-' exactly for negatives) and parses back to the stored number |
| TufVersion.RoleFileName | src/tuf_version.rs:25-27 | the name starts with the role, continues with "_v", ends with ".json", and the text in between is the standard decimal form of the version and parses back to it |
| Decimal.CanonicalUnique | src/tuf_version.rs:34-38 | the standard decimal text of n is the only text in standard form that reads back as n, so the rendering is fixed completely |
| TufVersion.RoleFileNameInjective | src/tuf_version.rs:25-27 | for one role, different versions give different file names |
| TufVersion.RoleFileNameExample | src/tuf_version.rs:25-27 | version 3 of "root" is "root_v3.json" |
| TufVersion.Cmp | src/tuf_version.rs:3-6 | the derived order agrees with integer order on the stored value and with equality |
| TufRoles.CodeInjective | src/tuf_roles.rs:4-13 | distinct role kinds have distinct persisted codes (covers `TufRoles.Code`) |
| TufRoles.New | src/tuf_roles.rs:67-82 | keeps the kind; Root, Snapshot, Targets, Timestamp, OfflineSnapshot and OfflineUpdates get "root", "snapshot", "targets", "timestamp", "offlinesnapshot" and "offlineupdates"; the name is reserved exactly for those six kinds; Delegation and InvalidRole get "invalidrole" |
| TufRoles.NamedRoles | src/tuf_roles.rs:29-56 | the named constructors give "root" 0, "snapshot" 1, "targets" 2, "timestamp" 3, "offlinesnapshot" 5, "offlineupdates" 6, "invalidrole" -1; `new(Delegation)` is "invalidrole" with code 4 (covers `TufRoles.ToInt` and `TufRoles.ToString`) |
| TufRoles.DelegationRole | src/tuf_roles.rs:59-64 | the name is kept verbatim, `is_delegation()` holds and `to_int()` is 4 (covers `TufRoles.IsDelegation`) |
| TufRoles.Roles | src/tuf_roles.rs:85-94 | the six fixed roles in the order root, snapshot, targets, timestamp, offline snapshot, offline updates; each is `Role::new` of its kind, so its name and persisted code match; all names reserved and pairwise distinct, none a delegation |
| TufRoles.ReservedIffRoleName | src/tuf_roles.rs:97-107 | a name is reserved exactly when one of the six fixed roles carries it (covers `TufRoles.IsReserved`) |
| TufRoles.ReservedIsCaseSensitive | src/tuf_roles.rs:97-107 | "root" is reserved but "Root" and "ROOT" are not |
| TufRoles.Cmp | src/tuf_roles.rs:128-144 | roles compare by name only; Equal exactly when `==` holds (covers `TufRoles.Eq`) |
| TufRoles.DelegationNamedRootEqualsRoot | src/tuf_roles.rs:140-144 | `delegation("root") == root()` and they compare Equal, although their codes differ |
| TufRepositoryType.New | src/tuf_repository_type.rs:18-22 | the default repository type encodes as -1 and prints as "" (Unknown) |
| TufRepositoryType.FromInt | src/tuf_repository_type.rs:34-41 | 0 gives Image, 1 gives Director, every other int gives Unknown |
| TufRepositoryType.IntRoundTrip | src/tuf_repository_type.rs:75-79 | `from_int(i32::from(r)) == r` for all three values (covers `TufRepositoryType.ToInt`) |
| TufRepositoryType.FromIntToInt | src/tuf_repository_type.rs:34-41 | encoding a decoded int gives it back exactly for -1, 0 and 1 |
| TufRepositoryType.FromStr | src/tuf_repository_type.rs:43-52 | accepts exactly "Image" and "Director"; anything else is `Err("Incorrect repo type: " + s)` |
| TufRepositoryType.StringRoundTrip | src/tuf_repository_type.rs:43-60 | parsing the printed form returns Image and Director; Unknown prints as "" and is rejected (covers `TufRepositoryType.ToString`) |
| TufRepositoryType.FromStrIsCaseSensitive | src/tuf_repository_type.rs:43-52 | "image" and "DIRECTOR" are rejected |
| Crypto.FromStr | src/crypto.rs:18-30 | never fails; the lower-cased input "ed25519"/"rsa2048"/"rsa3072"/"rsa4096" gives that variant and everything else gives Unknown (both directions) |
| Crypto.FromStrDisplay | src/crypto.rs:18-43 | `from_str(display(k)) == k` for every key type (covers `Crypto.Display`) |
| Crypto.FromStrIgnoresCase | src/crypto.rs:21-22 | parsing a string and parsing its lower-cased form agree |
| Crypto.FromStrExamples | src/crypto.rs:18-30 | "ED25519" and "ed25519" give Ed25519, "EdDSA25519" gives Unknown, "RSA4096" gives Rsa4096 |
| Crypto.RsaFamily | src/crypto.rs:51-56 | Rsa2048, Rsa3072 and Rsa4096 exactly for 2048, 3072 and 4096 bits; never Ed25519; Unknown for every other length |
| Crypto.RsaFamilyOfBits | src/crypto.rs:51-56 | each RSA family is recovered from the bit length it stands for |
| Crypto.IdentifyRsaKeyType | src/crypto.rs:48-57 | an error exactly when the PEM does not decode (never `Ok(Unknown)` then); otherwise the family of `size * 8` computed in u32, Unknown exactly when that is not 2048/3072/4096 |
| Crypto.IdentifyBySize | src/crypto.rs:48-57 | without overflow, modulus sizes 256/384/512 bytes give Rsa2048/3072/4096 and every other size gives `Ok(Unknown)` |
| Crypto.Sha256DigestHex | src/crypto.rs:59-65 | 64 lower-case hex characters that decode back to the 32-byte digest of the data |
| Crypto.RsaPssVerifyAsWritten | src/crypto.rs:67-77 | true exactly when openssl's `verify` returns `Ok`, including `Ok(false)` |
| Crypto.RsaPssAsWrittenAcceptsMismatch | src/crypto.rs:72-76 | with a verifier that reports a mismatch (`Ok(false)`), the code as written accepts the signature and the corrected check rejects it |
| Crypto.RsaPssVerify | src/crypto.rs:67-77 | corrected: true exactly when openssl reports a match (`Ok(true)`); it accepts only what the as-written check accepts |
| PublicKeys.New | src/public_key.rs:19-24 | value and type stored unchanged |
| PublicKeys.Default | src/public_key.rs:86-93 | value "Unknown", type Unknown |
| PublicKeys.FromJson | src/public_key.rs:32-52 | `Err` when `keytype` (checked first) or `keyval.public` is missing or not a string; value is always `keyval.public`; lower-cased "ed25519" gives Ed25519 unchecked, "rsa" gives `identify_rsa_key_type`'s answer for the material (Unknown for an unsupported length) and a decode failure gives `KeyDecode`; anything else Unknown |
| PublicKeys.VerifySignature | src/public_key.rs:54-62 | corrected dispatch: Unknown keys verify nothing; Ed25519 keys route to the Ed25519 primitive; RSA keys verify exactly when openssl reports a match (`Ok(true)`); the Ed25519 branch is `Crypto.Ed25519Verify` (src/crypto.rs:79-85), the backend's Ed25519 check |
| PublicKeys.VerifySignatureAsWritten | src/public_key.rs:54-62 | the dispatch as the code runs it: the same for Unknown and Ed25519 keys, but RSA keys verify whenever openssl's `verify` returns `Ok` |
| PublicKeys.VerifySignatureAsWrittenDiffers | src/crypto.rs:67-77 | the corrected dispatch accepts only what the code accepts, and the two differ exactly for RSA keys whose verifier answers `Ok(false)` |
| PublicKeys.DefaultVerifiesNothing | src/public_key.rs:54-62 | the default key verifies no signature on any backend |
| PublicKeys.ToUptane | src/public_key.rs:64-79 | `keyval.public` is the value; `keytype` is "RSA" exactly for RSA families, "ED25519" exactly for Ed25519, "unknown" exactly for Unknown |
| PublicKeys.FromJsonToUptane | src/public_key.rs:32-79 | reading the rendering back keeps the value; Ed25519 and Unknown keys come back unchanged; an RSA key is written as "RSA" and read back with the type re-derived from its material (so a key stored with the wrong family, or with an unsupported length, comes back with the family its material has, or Unknown); a decode failure gives `KeyDecode` |
| PublicKeys.RsaFragmentRendering | src/public_key.rs:42-79 | a key read from an "rsa" fragment renders as "RSA" exactly for 2048/3072/4096-bit moduli and as "unknown" otherwise |
| PublicKeys.KeyId | src/public_key.rs:81-83 | 64 lower-case hex characters decoding to the SHA-256 of the value |
| PublicKeys.KeyIdIgnoresType | src/public_key.rs:81-83 | keys with equal values have equal ids whatever their types |
| PublicKeys.KeyIdCollisionIsDigestCollision | src/public_key.rs:81-83 | two keys share an id exactly when their values' digests are equal |
| SecondaryInfos.New | src/secondary_info.rs:19-33 | every field stored verbatim |
| SecondaryInfos.Default | src/secondary_info.rs:35-43 | sentinel serial and hardware id, empty kind and extra, the default key (type Unknown) |
| SecondaryInfos.DefaultVerifiesNothing | src/secondary_info.rs:40 | the default record's key verifies no signature |
| SqlStorage.SelectLatest | src/sqlstorage.rs:256-263 | none exactly when no row matches (repo, role); otherwise a matching row whose version is at least every matching row's |
| SqlStorage.SelectPinned | src/sqlstorage.rs:276-284 | none exactly when no row matches (repo, role, version); otherwise the first such row |
| SqlStorage.MetaText | src/sqlstorage.rs:264-268 | the blob is returned as text exactly when it is UTF-8; otherwise the `InvalidColumnType` error |
| SqlStorage.LoadRootInternal | src/sqlstorage.rs:248-298 | with the latest sentinel: absent iff no root row for the repo, else the text (or UTF-8 error) of a maximal-version row; with a pinned version: the same for rows at exactly that version |
| SqlStorage.LoadNonRootInternal | src/sqlstorage.rs:316-343 | the latest-version answer for (repo code, role code); absence is `Ok(None)`, a non-UTF-8 blob is `Err` |
| SqlStorage.LoadImageRoot | src/sqlstorage.rs:240-242 | latest answer for repo 0, role 0 |
| SqlStorage.LoadDirectorRoot | src/sqlstorage.rs:244-246 | latest answer for repo 1, role 0 |
| SqlStorage.LoadDirectorTargets | src/sqlstorage.rs:300-302 | latest answer for repo 1, role 2 |
| SqlStorage.LoadImageSnapshot | src/sqlstorage.rs:304-306 | latest answer for repo 0, role 1 |
| SqlStorage.LoadImageTimestamp | src/sqlstorage.rs:308-310 | latest answer for repo 0, role 3 |
| SqlStorage.LoadImageTargets | src/sqlstorage.rs:312-314 | latest answer for repo 0, role 2 |
| SqlStorage.PinnedAtLatestVersion | src/sqlstorage.rs:256-297 | with unique addresses, pinning the version the latest lookup found gives the same answer |
| SqlStorage.ResolutionExample | src/sqlstorage.rs:248-298 | with image roots at versions 1, 2 and 5: latest gives version 5, pinned 2 gives version 2, pinned 9 and the director root give nothing |
| SqlStorage.DelegationsShareOneSlot | src/sqlstorage.rs:316-328 | lookups are keyed by role code, so all delegations, whatever their names, read the same rows |
| SqlStorage.LoadTlsCredentials | src/sqlstorage.rs:110-146 | false and outputs untouched when there is no row or all three blobs are empty; otherwise true and the outputs hold the row's blobs |
| SqlStorage.LoadPrimaryPublic | src/sqlstorage.rs:30-46 | present exactly when `primary_keys` has a row, and then the first row's `public` column |
| SqlStorage.LoadPrimaryPrivate | src/sqlstorage.rs:48-63 | present exactly when `primary_keys` has a row, and then the first row's `private` column |
| SqlStorage.LoadPrimaryKeys | src/sqlstorage.rs:77-87 | `Some` exactly when both keys load; it carries them, with the public key typed Unknown |
| SqlStorage.PrimaryKeyVerifiesNothing | src/sqlstorage.rs:82 | the loaded primary public key, being Unknown, verifies no signature |
| SqlStorage.LoadEcuRegistered | src/sqlstorage.rs:153-168 | false with no row; otherwise whether the flag is non-zero |
| SqlStorage.SecondaryFromRow | src/sqlstorage.rs:203-230 | invalid serial/hardware id become the sentinels (valid ones are kept); a missing key type or value gives the default key, else the value with the parsed type; NULL kind/extra become ""; the identifiers are always within bounds |
| SqlStorage.LoadSecondariesInfo | src/sqlstorage.rs:189-238 | appends one record per row in row order after the existing entries, answers true iff there was a row, and every appended record has in-bound identifiers |

## Left out

- PublicKeys.VerifySignature: it models the intended RSA check, not the code's. The code's own behaviour is
  PublicKeys.VerifySignatureAsWritten, and PublicKeys.VerifySignatureAsWrittenDiffers says where the two part (see Findings).
- SQL plumbing: `SQLStorage::new`, statement preparation, `clear_primary_keys`, `clear_tls_creds`.
  The store is a value, so there is nothing to open or delete.
- SqlStorage.LoadTlsCredentials: the `Err` result for SQL failures is not modelled. Columns
  hold values already of the Rust type read from them, so NULLs, storage-class mismatches
  and non-UTF-8 text in a `String` column do not occur. The same holds for
  SqlStorage.LoadPrimaryKeys, SqlStorage.LoadEcuRegistered and
  SqlStorage.LoadSecondariesInfo. The one conversion the code performs itself, `from_utf8`
  on meta blobs, is modelled.
- SqlStorage.LoadSecondariesInfo: the join, filter and `ORDER BY ecus.id` of its query are
  not modelled. The store holds the joined rows in their returned order.
- SqlStorage.SelectLatest: it states only that some maximal-version row is chosen, because
  `LIMIT 1` leaves the choice among equal versions to SQLite.
- `load_ecus`, `load_device_id` and `load_primary_key` are not part of this model. Nor is
  src/main.rs, the command-line tool, which also calls `load_primary_keys` with an older
  signature.
- src/types.rs (`Ecu`) is not part of this model. It is a record with no behaviour.
- Cryptography: PEM parsing, SHA-256, Ed25519 and RSA-PSS are uninterpreted backend functions.
  The `unwrap` panics inside `rsa_pss_verify` and `ed25519_verify` on malformed keys are
  not modelled, because the backend functions are total. The hex decoding of Ed25519 keys
  belongs to the Ed25519 backend function.
- Crypto.IdentifyRsaKeyType: `rsa.size() * 8` wraps around as in a release build. A debug
  build would panic instead, and only for a modulus of 2^29 bytes or more.
- `PublicKey::from_path` reads a file, so it is left out. Its classification step is
  Crypto.IdentifyRsaKeyType.
- Lower-casing (`to_lowercase`) is modelled for ASCII letters only. The lowered text is
  compared only with ASCII key-type names, and those comparisons have the same outcome
  under full Unicode lowering.
- `serde_json::Value` is reduced to a JSON datatype with integer numbers. Object lookup
  returns the first member with the key, which is the only one in a `serde_json` map.
- The multi-line `Display` of `PublicKey` and `SecondaryInfo`, `Display` of `RepositoryType`
  (it equals `to_string`), and all logging are left out.

## Findings

| source | as written | input that shows it | evidently intended | confidence | as-written member | corrected member |
|---|---|---|---|---|---|---|
| src/crypto.rs:76 | `verifier.verify(signature.as_bytes()).is_ok()` returns true whenever openssl's `verify` returns `Ok`. That includes `Ok(false)`, openssl's answer for a well-formed signature that does not match. | any RSA key and any message, with a signature for which `Verifier::verify` returns `Ok(false)` (a valid signature over a different message, say) | accept only `Ok(true)`, so that a mismatch fails | medium (not executed; depends on openssl reporting the mismatch as `Ok(false)`, which is how `EVP_DigestVerifyFinal` returning 0 is surfaced) | Crypto.RsaPssVerifyAsWritten | Crypto.RsaPssVerify |
