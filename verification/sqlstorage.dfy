/**
 * The read side of the SQLite store (src/sqlstorage.rs). The database is an immutable
 * value: one sequence of rows per table, in the order SQLite returns them.
 */
module SqlStorage {
  import opened BaseTypes
  import opened Wrappers
  import opened Utf8
  import EcuSerials
  import HardwareIds
  import Crypto
  import PublicKeys
  import SecondaryInfos
  import TufRoles
  import TufVersion
  import Repo = TufRepositoryType

  /** A row of the `meta` table: repository code, role code, version and the metadata blob. */
  datatype MetaRow = MetaRow(repo: int, metaType: int, version: int, meta: Bytes)

  /** A row of `primary_keys`. */
  datatype PrimaryKeyRow = PrimaryKeyRow(public: Bytes, private: Bytes)

  /** A row of `tls_creds`. */
  datatype TlsRow = TlsRow(caCert: Bytes, clientCert: Bytes, clientPkey: Bytes)

  /** A row of `device_info`. */
  datatype DeviceInfoRow = DeviceInfoRow(isRegistered: I32)

  /**
   * A row of the secondaries query: `ecus LEFT JOIN secondary_ecus` restricted to
   * non-primary ECUs, ordered by `ecus.id`. The joined columns may be NULL (`None`).
   */
  datatype SecondaryRow = SecondaryRow(
    serial: Bytes,
    hardwareId: Bytes,
    secType: Option<Bytes>,
    publicKeyType: Option<Bytes>,
    publicKey: Option<Bytes>,
    extra: Option<Bytes>)

  datatype Store = Store(
    meta: seq<MetaRow>,
    primaryKeys: seq<PrimaryKeyRow>,
    tlsCreds: seq<TlsRow>,
    deviceInfo: seq<DeviceInfoRow>,
    secondaryRows: seq<SecondaryRow>)

  /** `rusqlite::Error::InvalidColumnType(index, name, Text)`, raised for a non-UTF-8 meta blob. */
  datatype StorageError = InvalidColumnType(index: nat, name: Bytes)

  // ---------------------------------------------------------------------------------------
  // Metadata resolution

  predicate Matches(row: MetaRow, repo: int, metaType: int) {
    row.repo == repo && row.metaType == metaType
  }

  /** Row `i` holds metadata for (repo, metaType) at the greatest stored version. */
  ghost predicate IsLatestRow(rows: seq<MetaRow>, repo: int, metaType: int, i: int) {
    && 0 <= i < |rows|
    && Matches(rows[i], repo, metaType)
    && forall j | 0 <= j < |rows| && Matches(rows[j], repo, metaType) :: rows[j].version <= rows[i].version
  }

  /** Row `i` holds metadata for (repo, metaType) at exactly `version`. */
  ghost predicate IsPinnedRow(rows: seq<MetaRow>, repo: int, metaType: int, version: int, i: int) {
    0 <= i < |rows| && Matches(rows[i], repo, metaType) && rows[i].version == version
  }

  /**
   * `... WHERE repo=? AND meta_type=? ORDER BY version DESC LIMIT 1`: some row with the
   * greatest version (among equal versions the model takes the earliest; SQLite leaves it open).
   */
  function SelectLatest(rows: seq<MetaRow>, repo: int, metaType: int): (r: Option<nat>)
    ensures r.None? <==> forall i | 0 <= i < |rows| :: !Matches(rows[i], repo, metaType)
    ensures r.Some? ==> IsLatestRow(rows, repo, metaType, r.value)
    decreases |rows|
  {
    if |rows| == 0 then None
    else
      var last := |rows| - 1;
      var prefix := rows[..last];
      var best := SelectLatest(prefix, repo, metaType);
      assert forall i | 0 <= i < last :: prefix[i] == rows[i];
      if Matches(rows[last], repo, metaType) && (best.None? || rows[best.value].version < rows[last].version)
      then Some(last)
      else best
  }

  /** `... WHERE repo=? AND meta_type=? AND version=?`, first row: some row at exactly that version. */
  function SelectPinned(rows: seq<MetaRow>, repo: int, metaType: int, version: int): (r: Option<nat>)
    ensures r.None? <==> forall i | 0 <= i < |rows| :: !IsPinnedRow(rows, repo, metaType, version, i)
    ensures r.Some? ==> IsPinnedRow(rows, repo, metaType, version, r.value)
    ensures r.Some? ==> forall i | 0 <= i < r.value :: !IsPinnedRow(rows, repo, metaType, version, i)
    decreases |rows|
  {
    if |rows| == 0 then None
    else if Matches(rows[0], repo, metaType) && rows[0].version == version then
      assert IsPinnedRow(rows, repo, metaType, version, 0);
      Some(0)
    else
      var rest := SelectPinned(rows[1..], repo, metaType, version);
      assert forall i | 1 <= i < |rows| ::
        IsPinnedRow(rows, repo, metaType, version, i) <==> IsPinnedRow(rows[1..], repo, metaType, version, i - 1);
      match rest
      case None => None
      case Some(i) =>
        assert IsPinnedRow(rows, repo, metaType, version, i + 1);
        Some(i + 1)
  }

  /** `String::from_utf8(blob)`, its error mapped to `InvalidColumnType(0, "meta", Text)`. */
  function MetaText(blob: Bytes): (r: Result<Bytes, StorageError>)
    ensures r.Ok? <==> ValidUtf8(blob)
    ensures r.Ok? ==> r.value == blob
  {
    if ValidUtf8(blob) then Ok(blob) else Err(InvalidColumnType(0, "meta"))
  }

  /** The answer for the selected row: absent, its text, or an error for a non-UTF-8 blob. */
  function MetaAnswer(rows: seq<MetaRow>, selected: Option<nat>): Result<Option<Bytes>, StorageError>
    requires selected.Some? ==> selected.value < |rows|
  {
    match selected
    case None => Ok(None)
    case Some(i) =>
      match MetaText(rows[i].meta)
      case Ok(text) => Ok(Some(text))
      case Err(e) => Err(e)
  }

  /**
   * What a "latest" lookup may answer: nothing exactly when no row matches; otherwise the
   * text of a row with the greatest version, or an error when that row's blob is not UTF-8.
   */
  ghost predicate LatestAnswer(rows: seq<MetaRow>, repo: int, metaType: int, r: Result<Option<Bytes>, StorageError>) {
    match r
    case Ok(None) => forall i | 0 <= i < |rows| :: !Matches(rows[i], repo, metaType)
    case Ok(Some(text)) =>
      exists i :: IsLatestRow(rows, repo, metaType, i) && rows[i].meta == text && ValidUtf8(text)
    case Err(e) =>
      e == InvalidColumnType(0, "meta")
      && exists i :: IsLatestRow(rows, repo, metaType, i) && !ValidUtf8(rows[i].meta)
  }

  /** What a pinned lookup may answer: the same, for the rows at exactly `version`. */
  ghost predicate PinnedAnswer(rows: seq<MetaRow>, repo: int, metaType: int, version: int,
                               r: Result<Option<Bytes>, StorageError>) {
    match r
    case Ok(None) => forall i | 0 <= i < |rows| :: !IsPinnedRow(rows, repo, metaType, version, i)
    case Ok(Some(text)) =>
      exists i :: IsPinnedRow(rows, repo, metaType, version, i) && rows[i].meta == text && ValidUtf8(text)
    case Err(e) =>
      e == InvalidColumnType(0, "meta")
      && exists i :: IsPinnedRow(rows, repo, metaType, version, i) && !ValidUtf8(rows[i].meta)
  }

  /** `load_non_root_internal`: the latest metadata of `role` in `repo`, keyed by their codes. */
  function LoadNonRootInternal(store: Store, repo: Repo.RepositoryType, role: TufRoles.Role): (r: Result<Option<Bytes>, StorageError>)
    ensures LatestAnswer(store.meta, Repo.ToInt(repo), TufRoles.ToInt(role), r)
  {
    var sel := SelectLatest(store.meta, Repo.ToInt(repo), TufRoles.ToInt(role));
    MetaAnswer(store.meta, sel)
  }

  /**
   * `load_root_internal`: root metadata (role code 0) of `repo`; the latest version when
   * `version` is the "latest" sentinel, otherwise exactly that version.
   */
  function LoadRootInternal(store: Store, repo: Repo.RepositoryType, version: TufVersion.Version): (r: Result<Option<Bytes>, StorageError>)
    ensures TufVersion.IsLatest(version) ==> LatestAnswer(store.meta, Repo.ToInt(repo), 0, r)
    ensures !TufVersion.IsLatest(version) ==> PinnedAnswer(store.meta, Repo.ToInt(repo), 0, version.version, r)
  {
    var repoInt := Repo.ToInt(repo);
    var roleInt := TufRoles.ToInt(TufRoles.RootRole);
    if TufVersion.IsLatest(version) then
      MetaAnswer(store.meta, SelectLatest(store.meta, repoInt, roleInt))
    else
      MetaAnswer(store.meta, SelectPinned(store.meta, repoInt, roleInt, version.version))
  }

  /** `load_image_root`: latest root of the image repository (repo 0, role 0). */
  function LoadImageRoot(store: Store): (r: Result<Option<Bytes>, StorageError>)
    ensures LatestAnswer(store.meta, 0, 0, r)
  {
    LoadRootInternal(store, Repo.Image, TufVersion.New())
  }

  /** `load_director_root`: latest root of the director repository (repo 1, role 0). */
  function LoadDirectorRoot(store: Store): (r: Result<Option<Bytes>, StorageError>)
    ensures LatestAnswer(store.meta, 1, 0, r)
  {
    LoadRootInternal(store, Repo.Director, TufVersion.New())
  }

  /** `load_director_targets`: latest targets of the director repository (repo 1, role 2). */
  function LoadDirectorTargets(store: Store): (r: Result<Option<Bytes>, StorageError>)
    ensures LatestAnswer(store.meta, 1, 2, r)
  {
    LoadNonRootInternal(store, Repo.Director, TufRoles.TargetsRole)
  }

  /** `load_image_snapshot`: latest snapshot of the image repository (repo 0, role 1). */
  function LoadImageSnapshot(store: Store): (r: Result<Option<Bytes>, StorageError>)
    ensures LatestAnswer(store.meta, 0, 1, r)
  {
    LoadNonRootInternal(store, Repo.Image, TufRoles.SnapshotRole)
  }

  /** `load_image_timestamp`: latest timestamp of the image repository (repo 0, role 3). */
  function LoadImageTimestamp(store: Store): (r: Result<Option<Bytes>, StorageError>)
    ensures LatestAnswer(store.meta, 0, 3, r)
  {
    LoadNonRootInternal(store, Repo.Image, TufRoles.TimestampRole)
  }

  /** `load_image_targets`: latest targets of the image repository (repo 0, role 2). */
  function LoadImageTargets(store: Store): (r: Result<Option<Bytes>, StorageError>)
    ensures LatestAnswer(store.meta, 0, 2, r)
  {
    LoadNonRootInternal(store, Repo.Image, TufRoles.TargetsRole)
  }

  /** No two meta rows share a (repo, role, version) address. */
  ghost predicate UniqueAddresses(rows: seq<MetaRow>) {
    forall i, j | 0 <= i < j < |rows| ::
      !(Matches(rows[j], rows[i].repo, rows[i].metaType) && rows[j].version == rows[i].version)
  }

  /**
   * With unique addresses, pinning the version that the latest lookup found gives the same
   * answer as the latest lookup.
   */
  lemma PinnedAtLatestVersion(store: Store, repo: Repo.RepositoryType, i: nat)
    requires UniqueAddresses(store.meta)
    requires IsLatestRow(store.meta, Repo.ToInt(repo), 0, i)
    requires I32Min <= store.meta[i].version <= I32Max && store.meta[i].version != -1
    ensures LoadRootInternal(store, repo, TufVersion.FromInt(store.meta[i].version))
         == LoadRootInternal(store, repo, TufVersion.New())
  {
    var rows := store.meta;
    var repoInt := Repo.ToInt(repo);
    var latest := SelectLatest(rows, repoInt, 0);
    var pinned := SelectPinned(rows, repoInt, 0, rows[i].version);
    assert IsPinnedRow(rows, repoInt, 0, rows[i].version, i);
    var j := latest.value;
    var k := pinned.value;
    assert rows[j].version == rows[i].version == rows[k].version;
  }

  /** Stored roots at versions 1, 2 and 5: latest gives version 5, pinned 2 gives version 2, pinned 9 gives nothing. */
  lemma ResolutionExample()
    ensures var store := Store([MetaRow(0, 0, 1, "v1"), MetaRow(0, 0, 2, "v2"), MetaRow(0, 0, 5, "v5")], [], [], [], []);
      && LoadImageRoot(store) == Ok(Some("v5"))
      && LoadRootInternal(store, Repo.Image, TufVersion.FromInt(2)) == Ok(Some("v2"))
      && LoadRootInternal(store, Repo.Image, TufVersion.FromInt(9)) == Ok(None)
      && LoadDirectorRoot(store) == Ok(None)
  {
    var store := Store([MetaRow(0, 0, 1, "v1"), MetaRow(0, 0, 2, "v2"), MetaRow(0, 0, 5, "v5")], [], [], [], []);
    AsciiIsValidUtf8("v5");
    AsciiIsValidUtf8("v2");
  }

  /**
   * Non-root lookups are keyed by the role's code, not its name, so every delegation reads
   * the same slot (code 4) whatever it is called.
   */
  lemma DelegationsShareOneSlot(store: Store, repo: Repo.RepositoryType, a: Bytes, b: Bytes)
    ensures LoadNonRootInternal(store, repo, TufRoles.DelegationRole(a))
         == LoadNonRootInternal(store, repo, TufRoles.DelegationRole(b))
  {
  }

  // ---------------------------------------------------------------------------------------
  // Credentials, keys and device state

  /** The three TLS blobs `load_tls_credentials` writes through its out-parameters. */
  datatype TlsCredentials = TlsCredentials(ca: Bytes, cert: Bytes, pkey: Bytes)

  /**
   * `load_tls_credentials`: with no row, or a row whose three blobs are all empty, answers
   * false and leaves the outputs as they were; otherwise answers true and overwrites them
   * with the row's blobs.
   */
  function LoadTlsCredentials(store: Store, current: TlsCredentials): (r: (bool, TlsCredentials))
    ensures !r.0 ==> r.1 == current
    ensures r.0 <==> (|store.tlsCreds| > 0
      && (store.tlsCreds[0].caCert != [] || store.tlsCreds[0].clientCert != [] || store.tlsCreds[0].clientPkey != []))
    ensures r.0 ==> r.1 == TlsCredentials(store.tlsCreds[0].caCert, store.tlsCreds[0].clientCert, store.tlsCreds[0].clientPkey)
  {
    if |store.tlsCreds| == 0 then (false, current)
    else
      var row := store.tlsCreds[0];
      if |row.caCert| == 0 && |row.clientCert| == 0 && |row.clientPkey| == 0 then (false, current)
      else (true, TlsCredentials(row.caCert, row.clientCert, row.clientPkey))
  }

  /** `load_primary_public`: the `public` column of the first `primary_keys` row. */
  function LoadPrimaryPublic(store: Store): (r: Option<Bytes>)
    ensures r.Some? <==> |store.primaryKeys| > 0
    ensures r.Some? ==> r.value == store.primaryKeys[0].public
  {
    if |store.primaryKeys| == 0 then None else Some(store.primaryKeys[0].public)
  }

  /** `load_primary_private`: the `private` column of the first `primary_keys` row. */
  function LoadPrimaryPrivate(store: Store): (r: Option<Bytes>)
    ensures r.Some? <==> |store.primaryKeys| > 0
    ensures r.Some? ==> r.value == store.primaryKeys[0].private
  {
    if |store.primaryKeys| == 0 then None else Some(store.primaryKeys[0].private)
  }

  /**
   * `load_primary_keys`: both keys or nothing; the public key is wrapped with type `Unknown`
   * (its type is not classified).
   */
  function LoadPrimaryKeys(store: Store): (r: Option<(PublicKeys.PublicKey, Bytes)>)
    ensures r.Some? <==> LoadPrimaryPublic(store).Some? && LoadPrimaryPrivate(store).Some?
    ensures r.Some? ==> r.value.0.value == LoadPrimaryPublic(store).value
    ensures r.Some? ==> r.value.1 == LoadPrimaryPrivate(store).value
    ensures r.Some? ==> r.value.0.keyType == Crypto.Unknown
  {
    match (LoadPrimaryPublic(store), LoadPrimaryPrivate(store))
    case (Some(pub), Some(priv)) => Some((PublicKeys.New(pub, Crypto.Unknown), priv))
    case _ => None
  }

  /** Since its type is `Unknown`, the loaded primary public key verifies no signature. */
  lemma PrimaryKeyVerifiesNothing(c: Crypto.CryptoBackend, store: Store, signature: Bytes, message: Bytes)
    requires LoadPrimaryKeys(store).Some?
    ensures !PublicKeys.VerifySignature(c, LoadPrimaryKeys(store).value.0, signature, message)
  {
  }

  /** `load_ecu_registered`: the first `device_info` row's flag is non-zero; false with no row. */
  function LoadEcuRegistered(store: Store): (r: bool)
    ensures |store.deviceInfo| == 0 ==> !r
    ensures |store.deviceInfo| > 0 ==> (r <==> store.deviceInfo[0].isRegistered != 0)
  {
    if |store.deviceInfo| == 0 then false
    else
      var flag := store.deviceInfo[0].isRegistered;
      flag != 0
  }

  // ---------------------------------------------------------------------------------------
  // Secondaries

  /**
   * The row mapping of `load_secondaries_info`: an invalid serial or hardware id becomes the
   * `unknown()` sentinel; a missing key type or key value gives the default key; the key
   * type is parsed with `FromStr`, which cannot fail; NULL kind and extra become "".
   */
  function SecondaryFromRow(row: SecondaryRow): (s: SecondaryInfos.SecondaryInfo)
    ensures EcuSerials.New(row.serial).Ok? ==> s.serial.value == row.serial
    ensures EcuSerials.New(row.serial).Err? ==> s.serial == EcuSerials.Unknown()
    ensures HardwareIds.New(row.hardwareId).Ok? ==> s.hwId.value == row.hardwareId
    ensures HardwareIds.New(row.hardwareId).Err? ==> s.hwId == HardwareIds.Unknown()
    ensures EcuSerials.InBounds(s.serial.value) && HardwareIds.InBounds(s.hwId.value)
    ensures row.publicKeyType.None? || row.publicKey.None? ==> s.pubKey == PublicKeys.Default()
    ensures row.publicKeyType.Some? && row.publicKey.Some? ==>
      s.pubKey.value == row.publicKey.value
      && Crypto.FromStr(row.publicKeyType.value) == Ok(s.pubKey.keyType)
    ensures s.kind == (if row.secType.Some? then row.secType.value else [])
    ensures s.extra == (if row.extra.Some? then row.extra.value else [])
  {
    var serial := EcuSerials.New(row.serial).GetOr(EcuSerials.Unknown());
    var hwId := HardwareIds.New(row.hardwareId).GetOr(HardwareIds.Unknown());
    var pubKey :=
      match row.publicKeyType
      case Some(keyTypeText) =>
        var keyType := Crypto.FromStr(keyTypeText).GetOr(Crypto.Unknown);
        (match row.publicKey
         case Some(keyValue) => PublicKeys.New(keyValue, keyType)
         case None => PublicKeys.Default())
      case None => PublicKeys.Default();
    var kind := row.secType.GetOr([]);
    var extra := row.extra.GetOr([]);
    SecondaryInfos.New(serial, hwId, kind, pubKey, extra)
  }

  /**
   * `load_secondaries_info`: appends one record per row, in row order, to `secondaries`, and
   * answers whether there was at least one row. Every appended record carries identifiers
   * within their length bounds.
   */
  method LoadSecondariesInfo(store: Store, secondaries: seq<SecondaryInfos.SecondaryInfo>)
    returns (found: bool, out: seq<SecondaryInfos.SecondaryInfo>)
    ensures found <==> |store.secondaryRows| > 0
    ensures |out| == |secondaries| + |store.secondaryRows|
    ensures out[..|secondaries|] == secondaries
    ensures forall i | 0 <= i < |store.secondaryRows| :: out[|secondaries| + i] == SecondaryFromRow(store.secondaryRows[i])
    ensures forall i | |secondaries| <= i < |out| ::
      EcuSerials.InBounds(out[i].serial.value) && HardwareIds.InBounds(out[i].hwId.value)
  {
    var rows := store.secondaryRows;
    var empty := true;
    out := secondaries;
    var n := 0;
    while n < |rows|
      invariant 0 <= n <= |rows|
      invariant empty <==> n == 0
      invariant |out| == |secondaries| + n
      invariant out[..|secondaries|] == secondaries
      invariant forall i | 0 <= i < n :: out[|secondaries| + i] == SecondaryFromRow(rows[i])
      invariant forall i | |secondaries| <= i < |out| ::
        EcuSerials.InBounds(out[i].serial.value) && HardwareIds.InBounds(out[i].hwId.value)
    {
      out := out + [SecondaryFromRow(rows[n])];
      empty := false;
      n := n + 1;
    }
    found := !empty;
  }
}
