/** The tables that the project split touches, their foreign keys, and what it means for one state of
    a table to extend another. */
module ProjectTables {
  import opened Prelude

  /** Primary keys (uuids). */
  type Id = nat

  datatype ProjectType = SecretManager | CertificateManager | KMS

  /** `data` stands for the columns that are copied as they are. */
  datatype Project = Project(kind: Option<ProjectType>, slug: string, data: string)

  /** A row that belongs to a project: role, membership, bot, project key, CA, alert, collection. */
  datatype Owned = Owned(projectId: Id, data: string)

  /** A role held through a membership; a custom one refers to a project role. */
  datatype MemberRole = MemberRole(membershipId: Id, customRoleId: Option<Id>, data: string)

  datatype Key = Key(projectId: Option<Id>, isReserved: Option<bool>, slug: string, data: string)

  /** A row of the mapping table from source to destination projects. */
  datatype Split = Split(src: Id, kind: ProjectType, dst: Id)

  type OwnedTable = map<Id, Owned>
  type RoleTable = map<Id, MemberRole>
  type KeyTable = map<Id, Key>

  datatype Tables = Tables(
    projects: map<Id, Project>,
    roles: OwnedTable,
    groupMembers: OwnedTable, groupRoles: RoleTable,
    identityMembers: OwnedTable, identityRoles: RoleTable,
    userMembers: OwnedTable, userRoles: RoleTable,
    keys: KeyTable,
    bots: OwnedTable, projectKeys: OwnedTable,
    cas: OwnedTable, alerts: OwnedTable, collections: OwnedTable,
    splits: seq<Split>)

  // ---------------------------------------------------------------- foreign keys

  predicate OwnedRefs(t: OwnedTable, projects: set<Id>) {
    forall id :: id in t ==> t[id].projectId in projects
  }

  predicate RoleRefs(t: RoleTable, members: set<Id>, roles: set<Id>) {
    forall id :: id in t ==>
      && t[id].membershipId in members
      && (t[id].customRoleId.Some? ==> t[id].customRoleId.value in roles)
  }

  predicate KeyRefs(t: KeyTable, projects: set<Id>) {
    forall id :: id in t && t[id].projectId.Some? ==> t[id].projectId.value in projects
  }

  /** Every foreign key refers to an existing row. */
  predicate Consistent(t: Tables) {
    var p := t.projects.Keys;
    && OwnedRefs(t.roles, p)
    && OwnedRefs(t.groupMembers, p) && RoleRefs(t.groupRoles, t.groupMembers.Keys, t.roles.Keys)
    && OwnedRefs(t.identityMembers, p) && RoleRefs(t.identityRoles, t.identityMembers.Keys, t.roles.Keys)
    && OwnedRefs(t.userMembers, p) && RoleRefs(t.userRoles, t.userMembers.Keys, t.roles.Keys)
    && KeyRefs(t.keys, p)
    && OwnedRefs(t.bots, p) && OwnedRefs(t.projectKeys, p)
    && OwnedRefs(t.cas, p) && OwnedRefs(t.alerts, p) && OwnedRefs(t.collections, p)
  }

  // ---------------------------------------------------------------- queries and updates

  /** WHERE "projectId" = src. */
  function RowsOf(t: OwnedTable, src: Id): set<Id> {
    set id | id in t && t[id].projectId == src
  }

  function RolesThrough(t: RoleTable, members: set<Id>): set<Id> {
    set id | id in t && t[id].membershipId in members
  }

  function ReservedKeysOf(t: KeyTable, src: Id): set<Id> {
    set id | id in t && t[id].projectId == Some(src) && t[id].isReserved == Some(true)
  }

  /** UPDATE ... SET "projectId" = to WHERE "projectId" = from. */
  function Rehome(t: OwnedTable, from: Id, to: Id): OwnedTable {
    map id | id in t :: if t[id].projectId == from then t[id].(projectId := to) else t[id]
  }

  /** The same for the keys that are not reserved. */
  function RehomeKeys(t: KeyTable, from: Id, to: Id): KeyTable {
    map id | id in t ::
      if t[id].isReserved == Some(false) && t[id].projectId == Some(from) then t[id].(projectId := Some(to)) else t[id]
  }

  /** DELETE WHERE "projectId" IN (...), also as a cascade of deleting projects. */
  function WithoutProjects(t: OwnedTable, gone: set<Id>): OwnedTable {
    map id | id in t && t[id].projectId !in gone :: t[id]
  }

  function KeysWithoutProjects(t: KeyTable, gone: set<Id>): KeyTable {
    map id | id in t && (t[id].projectId.None? || t[id].projectId.value !in gone) :: t[id]
  }

  /** The cascade of deleting memberships. */
  function RolesWithin(t: RoleTable, members: set<Id>): RoleTable {
    map id | id in t && t[id].membershipId in members :: t[id]
  }

  function Destinations(splits: seq<Split>): set<Id> {
    set s | s in splits :: s.dst
  }

  // ---------------------------------------------------------------- copies

  predicate Injective(m: map<Id, Id>) {
    forall a, b :: a in m && b in m && m[a] == m[b] ==> a == b
  }

  /** The rows `m.Keys` have been copied under the fresh ids `m.Values` into project `dst`; every other
      row is as it was. */
  predicate IsCopy(before: OwnedTable, after: OwnedTable, m: map<Id, Id>, dst: Id) {
    && Injective(m)
    && m.Keys <= before.Keys
    && after.Keys == before.Keys + m.Values
    && (forall id :: id in before ==> after[id] == before[id])
    && (forall k :: k in m ==> m[k] !in before && after[m[k]] == before[k].(projectId := dst))
  }

  /** A mapping lookup: a reference that is not mapped comes out undefined, stored as null. */
  function Remap(ref: Option<Id>, m: map<Id, Id>): Option<Id> {
    if ref.Some? && ref.value in m then Some(m[ref.value]) else None
  }

  /** The copy of a role row: both references follow the id maps. */
  function RemappedRole(row: MemberRole, members: map<Id, Id>, roles: map<Id, Id>): MemberRole
    requires row.membershipId in members
  {
    MemberRole(members[row.membershipId], Remap(row.customRoleId, roles), row.data)
  }

  /** Role rows copied with both references remapped. */
  predicate RoleRowsCopied(before: RoleTable, after: RoleTable, m: map<Id, Id>, members: map<Id, Id>,
                           roles: map<Id, Id>) {
    && Injective(m)
    && m.Keys <= RolesThrough(before, members.Keys)
    && after.Keys == before.Keys + m.Values
    && (forall id :: id in before ==> after[id] == before[id])
    && (forall k :: k in m ==>
          && m[k] !in before
          && after[m[k]] == RemappedRole(before[k], members, roles))
  }

  /** All role rows held through the copied memberships, copied that way. */
  predicate IsRoleCopy(before: RoleTable, after: RoleTable, m: map<Id, Id>, members: map<Id, Id>, roles: map<Id, Id>) {
    RoleRowsCopied(before, after, m, members, roles) && m.Keys == RolesThrough(before, members.Keys)
  }

  /** Key rows copied under fresh slugs. */
  predicate IsKeyCopy(before: KeyTable, after: KeyTable, m: map<Id, Id>, dst: Id) {
    && Injective(m)
    && m.Keys <= before.Keys
    && after.Keys == before.Keys + m.Values
    && (forall id :: id in before ==> after[id] == before[id])
    && (forall k :: k in m ==>
          m[k] !in before && after[m[k]] == before[k].(projectId := Some(dst), slug := after[m[k]].slug))
  }

  /** The id maps of one project copy. */
  datatype CopyMaps = CopyMaps(
    roles: map<Id, Id>,
    groupMembers: map<Id, Id>, groupRoles: map<Id, Id>,
    identityMembers: map<Id, Id>, identityRoles: map<Id, Id>,
    userMembers: map<Id, Id>, userRoles: map<Id, Id>,
    keys: map<Id, Id>, bots: map<Id, Id>, projectKeys: map<Id, Id>)

  /** Memberships of one kind copied together with the roles held through them. */
  predicate MembershipsCopied(ma: OwnedTable, mb: OwnedTable, ra: RoleTable, rb: RoleTable,
                              members: map<Id, Id>, rows: map<Id, Id>, roles: map<Id, Id>, src: Id, dst: Id) {
    && members.Keys == RowsOf(ma, src) && IsCopy(ma, mb, members, dst)
    && IsRoleCopy(ra, rb, rows, members, roles)
  }

  predicate MembersCopied(a: Tables, b: Tables, src: Id, dst: Id, c: CopyMaps) {
    && c.roles.Keys == RowsOf(a.roles, src) && IsCopy(a.roles, b.roles, c.roles, dst)
    && MembershipsCopied(a.groupMembers, b.groupMembers, a.groupRoles, b.groupRoles,
                         c.groupMembers, c.groupRoles, c.roles, src, dst)
    && MembershipsCopied(a.identityMembers, b.identityMembers, a.identityRoles, b.identityRoles,
                         c.identityMembers, c.identityRoles, c.roles, src, dst)
    && MembershipsCopied(a.userMembers, b.userMembers, a.userRoles, b.userRoles,
                         c.userMembers, c.userRoles, c.roles, src, dst)
  }

  /** All reserved keys and project keys, and the first bot if there is one. */
  predicate ProductsCopied(a: Tables, b: Tables, src: Id, dst: Id, c: CopyMaps) {
    && c.keys.Keys == ReservedKeysOf(a.keys, src) && IsKeyCopy(a.keys, b.keys, c.keys, dst)
    && c.bots.Keys <= RowsOf(a.bots, src) && |c.bots.Keys| == Min(1, |RowsOf(a.bots, src)|)
    && IsCopy(a.bots, b.bots, c.bots, dst)
    && c.projectKeys.Keys == RowsOf(a.projectKeys, src) && IsCopy(a.projectKeys, b.projectKeys, c.projectKeys, dst)
  }

  /** What newProject does: `b` is `a` with a copy `dst` of project `src`. */
  predicate Copied(a: Tables, b: Tables, src: Id, kind: ProjectType, dst: Id, c: CopyMaps)
    requires src in a.projects
  {
    && dst !in a.projects && dst in b.projects
    && b.projects == a.projects[dst := a.projects[src].(kind := Some(kind), slug := b.projects[dst].slug)]
    && MembersCopied(a, b, src, dst, c)
    && ProductsCopied(a, b, src, dst, c)
    && b.cas == a.cas && b.alerts == a.alerts && b.collections == a.collections && b.splits == a.splits
  }

  // ---------------------------------------------------------------- the copy is an isomorphism

  /** In a copy of role rows the references to memberships and custom roles mirror the originals: a
      copied row refers to the copy of a membership or role exactly if its original refers to that
      membership or role. */
  predicate Mirrors(before: RoleTable, after: RoleTable, m: map<Id, Id>, members: map<Id, Id>, roles: map<Id, Id>)
    requires m.Keys <= before.Keys && m.Values <= after.Keys
  {
    forall k :: k in m ==>
      && m[k] in after
      && (forall y :: y in members ==> (before[k].membershipId == y <==> after[m[k]].membershipId == members[y]))
      && (forall r :: r in roles ==>
            (before[k].customRoleId == Some(r) <==> after[m[k]].customRoleId == Some(roles[r])))
      && after[m[k]].data == before[k].data
  }

  lemma RoleCopyMirrors(before: RoleTable, after: RoleTable, m: map<Id, Id>, members: map<Id, Id>, roles: map<Id, Id>)
    requires IsRoleCopy(before, after, m, members, roles) && Injective(members) && Injective(roles)
    ensures Mirrors(before, after, m, members, roles)
  {
  }

  /** The rows of the copied project are exactly the copies. */
  lemma RowsOfCopy(before: OwnedTable, after: OwnedTable, m: map<Id, Id>, dst: Id)
    requires IsCopy(before, after, m, dst) && RowsOf(before, dst) == {}
    ensures RowsOf(after, dst) == m.Values
  {
    forall id | id in RowsOf(after, dst) ensures id in m.Values {
      assert id in before ==> id in RowsOf(before, dst);
    }
  }

  lemma NothingOwnedYet(t: OwnedTable, projects: set<Id>, dst: Id)
    requires OwnedRefs(t, projects) && dst !in projects
    ensures RowsOf(t, dst) == {}
  {
    assert forall id :: id in t ==> t[id].projectId != dst;
  }

  /** The copies carry what their originals carry, in project `dst`. */
  predicate SameContents(a: OwnedTable, b: OwnedTable, m: map<Id, Id>, dst: Id) {
    forall k :: k in m ==> k in a && m[k] in b && b[m[k]] == a[k].(projectId := dst)
  }

  /** Memberships of one kind and the roles held through them: the new project's rows are exactly the
      images of the source's rows under injective id maps, and the references mirror each other. */
  predicate MembershipsMirrored(ma: OwnedTable, mb: OwnedTable, ra: RoleTable, rb: RoleTable,
                                members: map<Id, Id>, rows: map<Id, Id>, roles: map<Id, Id>, src: Id, dst: Id)
    requires rows.Keys <= ra.Keys && rows.Values <= rb.Keys
  {
    && Injective(members) && members.Keys == RowsOf(ma, src) == RowsOf(mb, src) && members.Values == RowsOf(mb, dst)
    && SameContents(ma, mb, members, dst)
    && Injective(rows) && rows.Keys == RolesThrough(ra, RowsOf(ma, src))
    && rows.Values == RolesThrough(rb, RowsOf(mb, dst))
    && Mirrors(ra, rb, rows, members, roles)
  }

  lemma CopyMirrorsMemberships(ma: OwnedTable, mb: OwnedTable, ra: RoleTable, rb: RoleTable, members: map<Id, Id>,
                               rows: map<Id, Id>, roles: map<Id, Id>, projects: set<Id>, src: Id, dst: Id)
    requires src in projects && dst !in projects && OwnedRefs(ma, projects)
    requires forall id :: id in ra ==> ra[id].membershipId in ma
    requires members.Keys == RowsOf(ma, src) && IsCopy(ma, mb, members, dst)
    requires IsRoleCopy(ra, rb, rows, members, roles) && Injective(roles)
    ensures rows.Keys <= ra.Keys && rows.Values <= rb.Keys
    ensures MembershipsMirrored(ma, mb, ra, rb, members, rows, roles, src, dst)
  {
    NothingOwnedYet(ma, projects, dst);
    RowsOfCopy(ma, mb, members, dst);
    SourceRowsStay(ma, mb, members, src, dst);
    RoleCopyMirrors(ra, rb, rows, members, roles);
    RolesOfCopy(ma, ra, rb, rows, members, roles);
  }

  /** newProject copies the project's graph isomorphically: custom roles, and memberships of all three
      kinds with the roles held through them. */
  lemma CopyIsIsomorphic(a: Tables, b: Tables, src: Id, kind: ProjectType, dst: Id, c: CopyMaps)
    requires Consistent(a) && src in a.projects && Copied(a, b, src, kind, dst, c)
    ensures Injective(c.roles) && c.roles.Keys == RowsOf(a.roles, src) == RowsOf(b.roles, src)
    ensures RowsOf(b.roles, dst) == c.roles.Values
    ensures c.groupRoles.Keys <= a.groupRoles.Keys && c.groupRoles.Values <= b.groupRoles.Keys
    ensures MembershipsMirrored(a.groupMembers, b.groupMembers, a.groupRoles, b.groupRoles,
                                c.groupMembers, c.groupRoles, c.roles, src, dst)
    ensures c.identityRoles.Keys <= a.identityRoles.Keys && c.identityRoles.Values <= b.identityRoles.Keys
    ensures MembershipsMirrored(a.identityMembers, b.identityMembers, a.identityRoles, b.identityRoles,
                                c.identityMembers, c.identityRoles, c.roles, src, dst)
    ensures c.userRoles.Keys <= a.userRoles.Keys && c.userRoles.Values <= b.userRoles.Keys
    ensures MembershipsMirrored(a.userMembers, b.userMembers, a.userRoles, b.userRoles,
                                c.userMembers, c.userRoles, c.roles, src, dst)
  {
    NothingOwnedYet(a.roles, a.projects.Keys, dst);
    RowsOfCopy(a.roles, b.roles, c.roles, dst);
    SourceRowsStay(a.roles, b.roles, c.roles, src, dst);
    CopyMirrorsMemberships(a.groupMembers, b.groupMembers, a.groupRoles, b.groupRoles,
                           c.groupMembers, c.groupRoles, c.roles, a.projects.Keys, src, dst);
    CopyMirrorsMemberships(a.identityMembers, b.identityMembers, a.identityRoles, b.identityRoles,
                           c.identityMembers, c.identityRoles, c.roles, a.projects.Keys, src, dst);
    CopyMirrorsMemberships(a.userMembers, b.userMembers, a.userRoles, b.userRoles,
                           c.userMembers, c.userRoles, c.roles, a.projects.Keys, src, dst);
  }

  lemma SourceRowsStay(before: OwnedTable, after: OwnedTable, m: map<Id, Id>, src: Id, dst: Id)
    requires IsCopy(before, after, m, dst) && src != dst
    ensures RowsOf(after, src) == RowsOf(before, src)
  {
  }

  lemma RolesOfCopy(members0: OwnedTable, before: RoleTable, after: RoleTable, m: map<Id, Id>, members: map<Id, Id>,
                    roles: map<Id, Id>)
    requires IsRoleCopy(before, after, m, members, roles)
    requires forall id :: id in before ==> before[id].membershipId in members0
    requires forall k :: k in members ==> members[k] !in members0
    ensures RolesThrough(after, members.Values) == m.Values
  {
    assert forall v :: v in members.Values ==> v !in members0;
    assert forall id :: id in before ==> before[id].membershipId !in members.Values;
    forall id | id in m.Values ensures id in RolesThrough(after, members.Values) {
      var k :| k in m && m[k] == id;
      assert members[before[k].membershipId] in members.Values;
    }
  }

  /** No role row through a membership of `src` carries a custom role of another project. */
  predicate ClosedThrough(t: RoleTable, members: set<Id>, roles: set<Id>) {
    forall id :: id in RolesThrough(t, members) && t[id].customRoleId.Some? ==> t[id].customRoleId.value in roles
  }

  /** A remark on when a copy keeps all custom roles: no copied row lost its custom role if and only if
      the source rows only carry custom roles of the copied project. */
  lemma CustomRolesKeptExactlyWhenClosed(before: RoleTable, after: RoleTable, m: map<Id, Id>, members: map<Id, Id>,
                                         roles: map<Id, Id>)
    requires IsRoleCopy(before, after, m, members, roles)
    ensures (forall k :: k in m ==> m[k] in after && (after[m[k]].customRoleId.Some? <==> before[k].customRoleId.Some?))
            <==> ClosedThrough(before, members.Keys, roles.Keys)
  {
    if ClosedThrough(before, members.Keys, roles.Keys) {
      forall k | k in m ensures m[k] in after && (after[m[k]].customRoleId.Some? <==> before[k].customRoleId.Some?) {
        assert k in RolesThrough(before, members.Keys);
      }
    }
  }
}
