/** TUF roles: fixed roles with stable integer codes, and named delegations (src/tuf_roles.rs). */
module TufRoles {
  import opened BaseTypes
  import opened Orderings

  /** `RoleEnum`; its discriminants are the codes persisted in the store. */
  datatype RoleEnum =
    | Root | Snapshot | Targets | Timestamp | Delegation | OfflineSnapshot | OfflineUpdates | InvalidRole

  /** `role as i32`. */
  function Code(e: RoleEnum): I32 {
    match e
    case Root => 0
    case Snapshot => 1
    case Targets => 2
    case Timestamp => 3
    case Delegation => 4
    case OfflineSnapshot => 5
    case OfflineUpdates => 6
    case InvalidRole => -1
  }

  /** Distinct enum values have distinct persisted codes. */
  lemma CodeInjective(a: RoleEnum, b: RoleEnum)
    requires Code(a) == Code(b)
    ensures a == b
  {
  }

  const ROOT: Bytes := "root"
  const SNAPSHOT: Bytes := "snapshot"
  const TARGETS: Bytes := "targets"
  const TIMESTAMP: Bytes := "timestamp"
  const OFFLINESNAPSHOT: Bytes := "offlinesnapshot"
  const OFFLINEUPDATES: Bytes := "offlineupdates"
  const INVALIDROLE: Bytes := "invalidrole"

  /** `Role { role, name }`. */
  datatype Role = Role(role: RoleEnum, name: Bytes)

  /** `Role::is_reserved`: one of the six fixed names, compared case-sensitively. */
  predicate IsReserved(name: Bytes) {
    name == ROOT || name == SNAPSHOT || name == TARGETS || name == TIMESTAMP
    || name == OFFLINESNAPSHOT || name == OFFLINEUPDATES
  }

  /**
   * `Role::new`: a fixed role gets its canonical (reserved) name; `Delegation` and
   * `InvalidRole` both get "invalidrole". The enum value is kept as given.
   */
  function New(e: RoleEnum): (r: Role)
    ensures r.role == e
    ensures IsReserved(r.name) <==> !(e.Delegation? || e.InvalidRole?)
    ensures e.Root? ==> r.name == ROOT
    ensures e.Snapshot? ==> r.name == SNAPSHOT
    ensures e.Targets? ==> r.name == TARGETS
    ensures e.Timestamp? ==> r.name == TIMESTAMP
    ensures e.OfflineSnapshot? ==> r.name == OFFLINESNAPSHOT
    ensures e.OfflineUpdates? ==> r.name == OFFLINEUPDATES
    ensures e.Delegation? || e.InvalidRole? ==> r.name == INVALIDROLE
  {
    var name :=
      match e
      case Root => ROOT
      case Snapshot => SNAPSHOT
      case Targets => TARGETS
      case Timestamp => TIMESTAMP
      case OfflineSnapshot => OFFLINESNAPSHOT
      case OfflineUpdates => OFFLINEUPDATES
      case _ => INVALIDROLE;
    Role(e, name)
  }

  /** `Role::root()`, `Role::snapshot()`, ... : `Role::new` of the matching enum value. */
  const RootRole: Role := New(Root)
  const SnapshotRole: Role := New(Snapshot)
  const TargetsRole: Role := New(Targets)
  const TimestampRole: Role := New(Timestamp)
  const OfflineSnapshotRole: Role := New(OfflineSnapshot)
  const OfflineUpdatesRole: Role := New(OfflineUpdates)
  const InvalidRoleRole: Role := New(InvalidRole)

  /** `Role::to_int`. */
  function ToInt(r: Role): I32 {
    Code(r.role)
  }

  /** `Role::is_delegation`. */
  predicate IsDelegation(r: Role) {
    r.role == Delegation
  }

  /** `Role::to_string` and `Display`: the stored name. */
  function ToString(r: Role): Bytes {
    r.name
  }

  /** The named constructors: canonical lower-case names and the persisted codes. */
  lemma NamedRoles()
    ensures ToString(RootRole) == "root" && ToInt(RootRole) == 0
    ensures ToString(SnapshotRole) == "snapshot" && ToInt(SnapshotRole) == 1
    ensures ToString(TargetsRole) == "targets" && ToInt(TargetsRole) == 2
    ensures ToString(TimestampRole) == "timestamp" && ToInt(TimestampRole) == 3
    ensures ToString(OfflineSnapshotRole) == "offlinesnapshot" && ToInt(OfflineSnapshotRole) == 5
    ensures ToString(OfflineUpdatesRole) == "offlineupdates" && ToInt(OfflineUpdatesRole) == 6
    ensures ToString(InvalidRoleRole) == "invalidrole" && ToInt(InvalidRoleRole) == -1
    ensures ToString(New(Delegation)) == "invalidrole" && ToInt(New(Delegation)) == 4
  {
  }

  /** `Role::delegation`: the caller's name kept verbatim, with the delegation code 4. */
  function DelegationRole(name: Bytes): (r: Role)
    ensures ToString(r) == name
    ensures IsDelegation(r)
    ensures ToInt(r) == 4
  {
    Role(Delegation, name)
  }

  /**
   * `Role::roles`: the six fixed roles in declaration order, each built by `Role::new` from its
   * kind (so its name and persisted code belong together), none of them a delegation, names
   * pairwise distinct.
   */
  function Roles(): (rs: seq<Role>)
    ensures |rs| == 6
    ensures forall i | 0 <= i < |rs| :: rs[i] == New(rs[i].role)
    ensures [rs[0].role, rs[1].role, rs[2].role, rs[3].role, rs[4].role, rs[5].role]
      == [Root, Snapshot, Targets, Timestamp, OfflineSnapshot, OfflineUpdates]
    ensures forall i | 0 <= i < |rs| :: IsReserved(rs[i].name) && !IsDelegation(rs[i])
    ensures forall i, j | 0 <= i < j < |rs| :: rs[i].name != rs[j].name
  {
    [RootRole, SnapshotRole, TargetsRole, TimestampRole, OfflineSnapshotRole, OfflineUpdatesRole]
  }

  /** A name is reserved exactly when some fixed role carries it. */
  lemma ReservedIffRoleName(name: Bytes)
    ensures IsReserved(name) <==> exists i | 0 <= i < |Roles()| :: Roles()[i].name == name
  {
    var rs := Roles();
    if IsReserved(name) {
      if name == ROOT { assert rs[0].name == name; }
      else if name == SNAPSHOT { assert rs[1].name == name; }
      else if name == TARGETS { assert rs[2].name == name; }
      else if name == TIMESTAMP { assert rs[3].name == name; }
      else if name == OFFLINESNAPSHOT { assert rs[4].name == name; }
      else { assert rs[5].name == name; }
    }
  }

  /** Reserved names are matched case-sensitively. */
  lemma ReservedIsCaseSensitive()
    ensures IsReserved("root") && !IsReserved("Root") && !IsReserved("ROOT")
  {
    assert "Root"[0] != ROOT[0];
    assert "ROOT"[0] != ROOT[0];
  }

  /** `PartialEq`: two roles are equal when their names are, whatever their enum values. */
  predicate Eq(a: Role, b: Role) {
    a.name == b.name
  }

  /** `Ord::cmp`: the lexicographic order of the names; Equal exactly when `==` holds. */
  function Cmp(a: Role, b: Role): (r: Ordering)
    ensures r == Equal <==> Eq(a, b)
    ensures r == Less <==> LexLess(a.name, b.name)
  {
    LexCmpEqualIff(a.name, b.name);
    LexCmpLessIff(a.name, b.name);
    LexCmp(a.name, b.name)
  }

  /** A delegation named "root" equals the root role although the two persist different codes. */
  lemma DelegationNamedRootEqualsRoot()
    ensures Eq(DelegationRole("root"), RootRole)
    ensures Cmp(DelegationRole("root"), RootRole) == Equal
    ensures ToInt(DelegationRole("root")) != ToInt(RootRole)
  {
  }
}
