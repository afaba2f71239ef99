/** TUF metadata versions, with -1 reserved for "the latest version" (src/tuf_version.rs). */
module TufVersion {
  import opened BaseTypes
  import opened Wrappers
  import opened Orderings
  import Decimal

  /** `Version::ANY_VERSION`. */
  const AnyVersion: I32 := -1

  /** `Version { version: i32 }`. */
  datatype Version = Version(version: I32)

  /** `Version::is_latest`: the stored number is the "any version" sentinel. */
  predicate IsLatest(v: Version) {
    v.version == AnyVersion
  }

  /** `Version::new`: the "latest" version. */
  function New(): (v: Version)
    ensures v.version == -1
    ensures IsLatest(v)
  {
    Version(AnyVersion)
  }

  /** `Version::from_int`: `version()` gives `n` back; only -1 reads as "latest". */
  function FromInt(n: I32): (v: Version)
    ensures v.version == n
    ensures IsLatest(v) <==> n == -1
  {
    Version(n)
  }

  /** `Display`: the standard decimal text of the number. */
  function Display(v: Version): (r: Bytes)
    ensures Decimal.Canonical(r)
    ensures Decimal.Parse(r) == Some(v.version as int)
  {
    Decimal.FormatRoundTrip(v.version);
    Decimal.Format(v.version)
  }

  /**
   * `Version::role_file_name`: `<role>_v<version>.json`. The contract says how to read the
   * pieces back: the role is the prefix, and the text between "_v" and ".json" is the
   * standard decimal text of the version (no leading zeros, '-' only for negatives).
   */
  function RoleFileName(v: Version, role: Bytes): (r: Bytes)
    ensures |r| >= |role| + 8
    ensures r[..|role|] == role
    ensures r[|role|..|role| + 2] == "_v"
    ensures r[|r| - 5..] == ".json"
    ensures Decimal.Canonical(r[|role| + 2..|r| - 5])
    ensures Decimal.Parse(r[|role| + 2..|r| - 5]) == Some(v.version as int)
  {
    var number := Display(v);
    var r := role + "_v" + number + ".json";
    assert r[..|role|] == role;
    assert r[|role|..|role| + 2] == "_v";
    assert r[|r| - 5..] == ".json";
    assert r[|role| + 2..|r| - 5] == number;
    r
  }

  /** For a fixed role, different versions name different files. */
  lemma RoleFileNameInjective(v1: Version, v2: Version, role: Bytes)
    requires RoleFileName(v1, role) == RoleFileName(v2, role)
    ensures v1 == v2
  {
    var r := RoleFileName(v1, role);
    assert Display(v1) == r[|role| + 2..|r| - 5] == Display(v2);
    Decimal.FormatInjective(v1.version, v2.version);
  }

  /** The file name of version 3 of the root role. */
  lemma RoleFileNameExample()
    ensures RoleFileName(FromInt(3), "root") == "root_v3.json"
  {
  }

  /** Derived `Ord`: the integer order of the stored numbers, consistent with `==`. */
  function Cmp(a: Version, b: Version): (r: Ordering)
    ensures r == Equal <==> a == b
    ensures r == Less <==> a.version < b.version
    ensures r == Greater <==> a.version > b.version
  {
    IntCmp(a.version, b.version)
  }
}
