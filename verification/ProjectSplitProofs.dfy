/** How the tables relate to the original ones while projects are being split, and why deleting the
    copies after moving rows back restores the original tables. */
module ProjectSplitProofs {
  import opened Prelude
  import opened ProjectTables

  // ---------------------------------------------------------------- the state during and after `up`

  /** `o` is `o0` plus rows of destination projects. */
  predicate OwnedExt(o0: OwnedTable, o: OwnedTable, dsts: set<Id>) {
    && o0.Keys <= o.Keys
    && (forall id :: id in o0 ==> o[id] == o0[id])
    && (forall id :: id in o && id !in o0 ==> o[id].projectId in dsts)
  }

  /** `r` is `r0` plus rows held through new memberships, carrying at most new custom roles. */
  predicate RoleExt(r0: RoleTable, r: RoleTable, members0: OwnedTable, members: OwnedTable, roles0: OwnedTable,
                    roles: OwnedTable) {
    && r0.Keys <= r.Keys
    && (forall id :: id in r0 ==> r[id] == r0[id])
    && (forall id :: id in r && id !in r0 ==>
          && r[id].membershipId in members && r[id].membershipId !in members0
          && (r[id].customRoleId.Some? ==> r[id].customRoleId.value in roles && r[id].customRoleId.value !in roles0))
  }

  predicate HasSplit(splits: seq<Split>, src: Id, kind: ProjectType) {
    exists s :: s in splits && s.src == src && s.kind == kind
  }

  /** Every row sits in the certificate project split off its project, or where it was if there is
      none. */
  ghost predicate OwnedMoved(o0: OwnedTable, o: OwnedTable, splits: seq<Split>) {
    && o.Keys == o0.Keys
    && forall id :: id in o0 ==>
         && o[id] == o0[id].(projectId := o[id].projectId)
         && (if HasSplit(splits, o0[id].projectId, CertificateManager)
             then Split(o0[id].projectId, CertificateManager, o[id].projectId) in splits
             else o[id] == o0[id])
  }

  predicate KeyMoved(before: Key, after: Key, splits: seq<Split>) {
    && after == before.(projectId := after.projectId)
    && (if before.isReserved == Some(false) && before.projectId.Some? && HasSplit(splits, before.projectId.value, KMS)
        then after.projectId.Some? && Split(before.projectId.value, KMS, after.projectId.value) in splits
        else after == before)
  }

  /** The same for the keys that are not reserved and the KMS projects; besides there are copies of
      reserved keys in destination projects. */
  ghost predicate KeysMoved(k0: KeyTable, k: KeyTable, splits: seq<Split>, dsts: set<Id>) {
    && k0.Keys <= k.Keys
    && (forall id :: id in k && id !in k0 ==>
          k[id].isReserved == Some(true) && k[id].projectId.Some? && k[id].projectId.value in dsts)
    && forall id :: id in k0 ==> KeyMoved(k0[id], k[id], splits)
  }

  /** The split rows: sources among the original projects, new and distinct destinations, at most one
      split of a project for each product. */
  ghost predicate SplitsOk(projects0: set<Id>, splits: seq<Split>) {
    && (forall s :: s in splits ==> s.src in projects0 && s.dst !in projects0 && s.kind != SecretManager)
    && (forall i, j :: 0 <= i < j < |splits| ==> splits[i].dst != splits[j].dst)
    && (forall i, j :: 0 <= i < j < |splits| ==> splits[i].src != splits[j].src || splits[i].kind != splits[j].kind)
  }

  /** Some group or identity role row of `src` carries a custom role of `src`. */
  predicate CarriesCustomRole(r: RoleTable, members: OwnedTable, roles: OwnedTable, src: Id) {
    exists id :: id in r && r[id].membershipId in RowsOf(members, src)
              && r[id].customRoleId.Some? && r[id].customRoleId.value in RowsOf(roles, src)
  }

  predicate AddedCustom(r0: RoleTable, r: RoleTable) {
    exists id :: id in r && id !in r0 && r[id].customRoleId.Some?
  }

  predicate BlockedSource(t: Tables, src: Id) {
    || CarriesCustomRole(t.groupRoles, t.groupMembers, t.roles, src)
    || CarriesCustomRole(t.identityRoles, t.identityMembers, t.roles, src)
  }

  predicate BlockedSplit(t: Tables, splits: seq<Split>) {
    exists s :: s in splits && BlockedSource(t, s.src)
  }

  ghost predicate ProjectsSplit(t0: Tables, t: Tables) {
    && t.projects.Keys == t0.projects.Keys + Destinations(t.splits)
    && forall p :: p in t0.projects ==> t.projects[p] == t0.projects[p].(kind := Some(SecretManager))
  }

  ghost predicate MembersSplit(t0: Tables, t: Tables) {
    var d := Destinations(t.splits);
    && OwnedExt(t0.roles, t.roles, d)
    && OwnedExt(t0.groupMembers, t.groupMembers, d)
    && OwnedExt(t0.identityMembers, t.identityMembers, d)
    && OwnedExt(t0.userMembers, t.userMembers, d)
    && RoleExt(t0.groupRoles, t.groupRoles, t0.groupMembers, t.groupMembers, t0.roles, t.roles)
    && RoleExt(t0.identityRoles, t.identityRoles, t0.identityMembers, t.identityMembers, t0.roles, t.roles)
    && RoleExt(t0.userRoles, t.userRoles, t0.userMembers, t.userMembers, t0.roles, t.roles)
  }

  ghost predicate ProductsSplit(t0: Tables, t: Tables) {
    && OwnedExt(t0.bots, t.bots, Destinations(t.splits))
    && OwnedExt(t0.projectKeys, t.projectKeys, Destinations(t.splits))
    && KeysMoved(t0.keys, t.keys, t.splits, Destinations(t.splits))
    && OwnedMoved(t0.cas, t.cas, t.splits)
    && OwnedMoved(t0.alerts, t.alerts, t.splits)
    && OwnedMoved(t0.collections, t.collections, t.splits)
  }

  /** `t` is the original `t0` with the projects of `t.splits` split off. */
  ghost predicate SplitState(t0: Tables, t: Tables) {
    && SplitsOk(t0.projects.Keys, t.splits)
    && ProjectsSplit(t0, t)
    && MembersSplit(t0, t)
    && ProductsSplit(t0, t)
    && (AddedCustom(t0.groupRoles, t.groupRoles) || AddedCustom(t0.identityRoles, t.identityRoles)
        <==> BlockedSplit(t0, t.splits))
  }

  // ---------------------------------------------------------------- `down`, as a function of the tables

  function MoveBack(o: OwnedTable, splits: seq<Split>): OwnedTable
    decreases |splits|
  {
    if splits == [] then o
    else
      var s := splits[0];
      MoveBack(if s.kind == CertificateManager then Rehome(o, s.dst, s.src) else o, splits[1..])
  }

  function MoveKeysBack(k: KeyTable, splits: seq<Split>): KeyTable
    decreases |splits|
  {
    if splits == [] then k
    else
      var s := splits[0];
      MoveKeysBack(if s.kind == KMS then RehomeKeys(k, s.dst, s.src) else k, splits[1..])
  }

  /** A custom role reference has no cascade: rows carrying a deleted role block the deletion. */
  predicate Blocks(r: RoleTable, gone: set<Id>) {
    exists id :: id in r && r[id].customRoleId.Some? && r[id].customRoleId.value in gone
  }

  /** The tables after `down`, or the foreign key error on deleting project roles. */
  function DownTables(t: Tables): Option<Tables> {
    var d := Destinations(t.splits);
    var users := WithoutProjects(t.userMembers, d);
    var userRoles := RolesWithin(t.userRoles, users.Keys);
    var roles := WithoutProjects(t.roles, d);
    var gone := t.roles.Keys - roles.Keys;
    if Blocks(t.groupRoles, gone) || Blocks(t.identityRoles, gone) || Blocks(userRoles, gone) then None
    else
      var groups, identities := WithoutProjects(t.groupMembers, d), WithoutProjects(t.identityMembers, d);
      Some(Tables(
        map p | p in t.projects && p !in d :: t.projects[p].(kind := None),
        roles,
        groups, RolesWithin(t.groupRoles, groups.Keys),
        identities, RolesWithin(t.identityRoles, identities.Keys),
        users, userRoles,
        KeysWithoutProjects(MoveKeysBack(t.keys, t.splits), d),
        WithoutProjects(t.bots, d), WithoutProjects(t.projectKeys, d),
        WithoutProjects(MoveBack(t.cas, t.splits), d),
        WithoutProjects(MoveBack(t.alerts, t.splits), d),
        WithoutProjects(MoveBack(t.collections, t.splits), d),
        []))
  }

  // ---------------------------------------------------------------- `down` undoes `up`

  lemma WithoutRestores(o0: OwnedTable, o: OwnedTable, projects0: set<Id>, d: set<Id>)
    requires OwnedExt(o0, o, d) && OwnedRefs(o0, projects0) && projects0 !! d
    ensures WithoutProjects(o, d) == o0
  {
    var w := WithoutProjects(o, d);
    assert w.Keys == o0.Keys;
  }

  lemma WithinRestores(r0: RoleTable, r: RoleTable, m0: OwnedTable, m: OwnedTable, roles0: OwnedTable,
                       roles: OwnedTable)
    requires RoleExt(r0, r, m0, m, roles0, roles) && RoleRefs(r0, m0.Keys, roles0.Keys)
    ensures RolesWithin(r, m0.Keys) == r0
  {
    var w := RolesWithin(r, m0.Keys);
    assert w.Keys == r0.Keys;
  }

  lemma TailSplitsOk(projects0: set<Id>, splits: seq<Split>)
    requires splits != [] && SplitsOk(projects0, splits)
    ensures SplitsOk(projects0, splits[1..])
    ensures forall s :: s in splits[1..] ==>
              s.dst != splits[0].dst && !(s.src == splits[0].src && s.kind == splits[0].kind)
    ensures forall s :: s in splits <==> s == splits[0] || s in splits[1..]
  {
    assert splits == [splits[0]] + splits[1..];
  }

  /** Moving one split's rows back leaves the table moved by the other splits. */
  lemma RehomeUndoesSplit(o0: OwnedTable, o: OwnedTable, projects0: set<Id>, splits: seq<Split>)
    requires splits != [] && SplitsOk(projects0, splits) && OwnedRefs(o0, projects0) && OwnedMoved(o0, o, splits)
    ensures var s := splits[0];
            OwnedMoved(o0, if s.kind == CertificateManager then Rehome(o, s.dst, s.src) else o, splits[1..])
  {
    TailSplitsOk(projects0, splits);
    var s := splits[0];
    var back := if s.kind == CertificateManager then Rehome(o, s.dst, s.src) else o;
    forall id | id in o0
      ensures back[id] == o0[id].(projectId := back[id].projectId)
      ensures if HasSplit(splits[1..], o0[id].projectId, CertificateManager)
              then Split(o0[id].projectId, CertificateManager, back[id].projectId) in splits[1..]
              else back[id] == o0[id]
    {
      if HasSplit(splits[1..], o0[id].projectId, CertificateManager) {
        var u :| u in splits[1..] && u.src == o0[id].projectId && u.kind == CertificateManager;
        assert u in splits;
        assert HasSplit(splits, o0[id].projectId, CertificateManager);
      }
    }
  }

  lemma {:induction false} MoveBackRestores(o0: OwnedTable, o: OwnedTable, projects0: set<Id>, splits: seq<Split>)
    requires SplitsOk(projects0, splits) && OwnedRefs(o0, projects0) && OwnedMoved(o0, o, splits)
    ensures MoveBack(o, splits) == o0
    decreases |splits|
  {
    if splits != [] {
      RehomeUndoesSplit(o0, o, projects0, splits);
      TailSplitsOk(projects0, splits);
      MoveBackRestores(o0, if splits[0].kind == CertificateManager then Rehome(o, splits[0].dst,
          splits[0].src) else o, projects0, splits[1..]);
    }
  }

  lemma KeyMovesBack(before: Key, key: Key, projects0: set<Id>, splits: seq<Split>)
    requires splits != [] && SplitsOk(projects0, splits) && KeyMoved(before, key, splits)
    requires before.projectId.Some? ==> before.projectId.value in projects0
    ensures var s := splits[0];
            var back := if s.kind == KMS && key.isReserved == Some(false) && key.projectId == Some(s.dst)
                        then key.(projectId := Some(s.src)) else key;
            KeyMoved(before, back, splits[1..])
  {
    TailSplitsOk(projects0, splits);
    if before.projectId.Some? && HasSplit(splits[1..], before.projectId.value, KMS) {
      var u :| u in splits[1..] && u.src == before.projectId.value && u.kind == KMS;
      assert u in splits;
      assert HasSplit(splits, before.projectId.value, KMS);
    }
  }

  lemma RehomeUndoesKeySplit(k0: KeyTable, k: KeyTable, projects0: set<Id>, splits: seq<Split>, d: set<Id>)
    requires splits != [] && SplitsOk(projects0, splits) && KeyRefs(k0, projects0) && KeysMoved(k0, k, splits, d)
    ensures var s := splits[0];
            KeysMoved(k0, if s.kind == KMS then RehomeKeys(k, s.dst, s.src) else k, splits[1..], d)
  {
    var s := splits[0];
    var back := if s.kind == KMS then RehomeKeys(k, s.dst, s.src) else k;
    forall id | id in k0 ensures KeyMoved(k0[id], back[id], splits[1..]) {
      KeyMovesBack(k0[id], k[id], projects0, splits);
    }
  }

  lemma {:induction false} MoveKeysBackRestores(k0: KeyTable, k: KeyTable, projects0: set<Id>, splits: seq<Split>,
                                                d: set<Id>)
    requires SplitsOk(projects0, splits) && KeyRefs(k0, projects0) && KeysMoved(k0, k, splits, d)
    requires projects0 !! d
    ensures KeysWithoutProjects(MoveKeysBack(k, splits), d) == k0
    decreases |splits|
  {
    if splits != [] {
      RehomeUndoesKeySplit(k0, k, projects0, splits, d);
      TailSplitsOk(projects0, splits);
      MoveKeysBackRestores(k0, if splits[0].kind == KMS then RehomeKeys(k, splits[0].dst, splits[0].src) else k,
          projects0, splits[1..], d);
    } else {
      assert KeysWithoutProjects(k, d).Keys == k0.Keys;
    }
  }

  lemma DestinationsAreNew(projects0: set<Id>, splits: seq<Split>)
    requires SplitsOk(projects0, splits)
    ensures projects0 !! Destinations(splits)
  {
    forall d | d in Destinations(splits) ensures d !in projects0 {
      var s :| s in splits && s.dst == d;
    }
  }

  /** Deleting the new custom roles is blocked exactly if a new row carries one: the original rows
      only refer to original roles. */
  lemma BlocksExactlyWhenAdded(r0: RoleTable, r: RoleTable, m0: OwnedTable, m: OwnedTable, roles0: OwnedTable,
                               roles: OwnedTable)
    requires RoleExt(r0, r, m0, m, roles0, roles) && RoleRefs(r0, m0.Keys, roles0.Keys)
    ensures Blocks(r, roles.Keys - roles0.Keys) <==> AddedCustom(r0, r)
  {
  }

  lemma OriginalRowsDoNotBlock(r0: RoleTable, members: set<Id>, roles0: OwnedTable, roles: OwnedTable)
    requires RoleRefs(r0, members, roles0.Keys)
    ensures !Blocks(r0, roles.Keys - roles0.Keys)
  {
  }

  lemma DeletionIsBlockedExactlyWhen(t0: Tables, t: Tables)
    requires Consistent(t0) && SplitState(t0, t)
    ensures DownTables(t).None? <==> BlockedSplit(t0, t.splits)
  {
    var d := Destinations(t.splits);
    DestinationsAreNew(t0.projects.Keys, t.splits);
    WithoutRestores(t0.userMembers, t.userMembers, t0.projects.Keys, d);
    WithoutRestores(t0.roles, t.roles, t0.projects.Keys, d);
    WithinRestores(t0.userRoles, t.userRoles, t0.userMembers, t.userMembers, t0.roles, t.roles);
    BlocksExactlyWhenAdded(t0.groupRoles, t.groupRoles, t0.groupMembers, t.groupMembers, t0.roles, t.roles);
    BlocksExactlyWhenAdded(t0.identityRoles, t.identityRoles, t0.identityMembers, t.identityMembers, t0.roles, t.roles);
    OriginalRowsDoNotBlock(t0.userRoles, t0.userMembers.Keys, t0.roles, t.roles);
  }

  ghost predicate Untyped(t: Tables) {
    t.splits == [] && forall p :: p in t.projects ==> t.projects[p].kind.None?
  }

  lemma ProjectsRestored(t0: Tables, t: Tables)
    requires Untyped(t0) && SplitsOk(t0.projects.Keys, t.splits) && ProjectsSplit(t0, t)
    ensures (map p | p in t.projects && p !in Destinations(t.splits) :: t.projects[p].(kind := None)) == t0.projects
  {
    DestinationsAreNew(t0.projects.Keys, t.splits);
    var m := map p | p in t.projects && p !in Destinations(t.splits) :: t.projects[p].(kind := None);
    assert m.Keys == t0.projects.Keys;
  }

  lemma MembersRestored(t0: Tables, t: Tables)
    requires Consistent(t0) && SplitsOk(t0.projects.Keys, t.splits) && MembersSplit(t0, t)
    ensures var d := Destinations(t.splits);
            && WithoutProjects(t.roles, d) == t0.roles
            && WithoutProjects(t.groupMembers, d) == t0.groupMembers
            && RolesWithin(t.groupRoles, t0.groupMembers.Keys) == t0.groupRoles
            && WithoutProjects(t.identityMembers, d) == t0.identityMembers
            && RolesWithin(t.identityRoles, t0.identityMembers.Keys) == t0.identityRoles
            && WithoutProjects(t.userMembers, d) == t0.userMembers
            && RolesWithin(t.userRoles, t0.userMembers.Keys) == t0.userRoles
  {
    var d := Destinations(t.splits);
    DestinationsAreNew(t0.projects.Keys, t.splits);
    WithoutRestores(t0.roles, t.roles, t0.projects.Keys, d);
    WithoutRestores(t0.groupMembers, t.groupMembers, t0.projects.Keys, d);
    WithoutRestores(t0.identityMembers, t.identityMembers, t0.projects.Keys, d);
    WithoutRestores(t0.userMembers, t.userMembers, t0.projects.Keys, d);
    WithinRestores(t0.groupRoles, t.groupRoles, t0.groupMembers, t.groupMembers, t0.roles, t.roles);
    WithinRestores(t0.identityRoles, t.identityRoles, t0.identityMembers, t.identityMembers, t0.roles, t.roles);
    WithinRestores(t0.userRoles, t.userRoles, t0.userMembers, t.userMembers, t0.roles, t.roles);
  }

  lemma OriginalStays(o0: OwnedTable, projects0: set<Id>, d: set<Id>)
    requires OwnedRefs(o0, projects0) && projects0 !! d
    ensures WithoutProjects(o0, d) == o0
  {
    assert WithoutProjects(o0, d).Keys == o0.Keys;
  }

  lemma ProductsRestored(t0: Tables, t: Tables)
    requires Consistent(t0) && SplitsOk(t0.projects.Keys, t.splits) && ProductsSplit(t0, t)
    ensures var d := Destinations(t.splits);
            && WithoutProjects(t.bots, d) == t0.bots && WithoutProjects(t.projectKeys, d) == t0.projectKeys
            && KeysWithoutProjects(MoveKeysBack(t.keys, t.splits), d) == t0.keys
            && WithoutProjects(MoveBack(t.cas, t.splits), d) == t0.cas
            && WithoutProjects(MoveBack(t.alerts, t.splits), d) == t0.alerts
            && WithoutProjects(MoveBack(t.collections, t.splits), d) == t0.collections
  {
    var p0, d := t0.projects.Keys, Destinations(t.splits);
    DestinationsAreNew(p0, t.splits);
    WithoutRestores(t0.bots, t.bots, p0, d);
    WithoutRestores(t0.projectKeys, t.projectKeys, p0, d);
    MoveKeysBackRestores(t0.keys, t.keys, p0, t.splits, d);
    MoveBackRestores(t0.cas, t.cas, p0, t.splits);
    MoveBackRestores(t0.alerts, t.alerts, p0, t.splits);
    MoveBackRestores(t0.collections, t.collections, p0, t.splits);
    OriginalStays(t0.cas, p0, d);
    OriginalStays(t0.alerts, p0, d);
    OriginalStays(t0.collections, p0, d);
  }

  /** `down` after `up`, with nothing written in between. It succeeds exactly if no group or identity
      role row of a split project carries a custom role of that project, and then every table is
      back to what it was: nothing is lost to the cascade, and no copy or destination is left. */
  lemma DownUndoesUp(t0: Tables, t: Tables)
    requires Consistent(t0) && Untyped(t0) && SplitState(t0, t)
    ensures DownTables(t).Some? <==> !BlockedSplit(t0, t.splits)
    ensures DownTables(t).Some? ==> DownTables(t) == Some(t0)
  {
    DeletionIsBlockedExactlyWhen(t0, t);
    ProjectsRestored(t0, t);
    MembersRestored(t0, t);
    ProductsRestored(t0, t);
    if DownTables(t).Some? {
      var u := DownTables(t).value;
      assert u.projects == t0.projects;
      assert u.groupRoles == t0.groupRoles && u.identityRoles == t0.identityRoles && u.userRoles == t0.userRoles;
      assert u.splits == t0.splits;
      assert u == t0;
    }
  }

  // ---------------------------------------------------------------- splitting one more project

  /** The row moves and the mapping row that follow a copy. */
  function AfterMove(b: Tables, src: Id, kind: ProjectType, dst: Id): Tables {
    var splits := b.splits + [Split(src, kind, dst)];
    if kind == CertificateManager then
      b.(cas := Rehome(b.cas, src, dst), alerts := Rehome(b.alerts, src, dst),
         collections := Rehome(b.collections, src, dst), splits := splits)
    else b.(keys := RehomeKeys(b.keys, src, dst), splits := splits)
  }

  lemma CopyExtends(o0: OwnedTable, o: OwnedTable, o': OwnedTable, m: map<Id, Id>, dst: Id, d: set<Id>)
    requires OwnedExt(o0, o, d) && IsCopy(o, o', m, dst)
    ensures OwnedExt(o0, o', d + {dst})
  {
    forall id | id in o' && id !in o0 ensures o'[id].projectId in d + {dst} {
      if id !in o {
        var k :| k in m && m[k] == id;
      }
    }
  }

  /** The source rows of an original project are the original ones, whatever was copied before. */
  lemma SourceIsOriginal(o0: OwnedTable, o: OwnedTable, d: set<Id>, src: Id)
    requires OwnedExt(o0, o, d) && src !in d
    ensures RowsOf(o, src) == RowsOf(o0, src)
  {
  }

  lemma RoleCopyExtends(r0: RoleTable, r: RoleTable, r': RoleTable, m0: OwnedTable, m: OwnedTable, m': OwnedTable,
                        o0: OwnedTable, o: OwnedTable, o': OwnedTable,
                        rows: map<Id, Id>, members: map<Id, Id>, roles: map<Id, Id>, dst: Id)
    requires RoleExt(r0, r, m0, m, o0, o) && m0.Keys <= m.Keys && o0.Keys <= o.Keys
    requires IsCopy(m, m', members, dst) && IsCopy(o, o', roles, dst) && IsRoleCopy(r, r', rows, members, roles)
    ensures RoleExt(r0, r', m0, m', o0, o')
  {
    forall id | id in r' && id !in r0
      ensures r'[id].membershipId in m' && r'[id].membershipId !in m0
      ensures r'[id].customRoleId.Some? ==> r'[id].customRoleId.value in o' && r'[id].customRoleId.value !in o0
    {
      if id !in r {
        var k :| k in rows && rows[k] == id;
        var y := r[k].membershipId;
        assert y in members && members[y] in members.Values;
        if r'[id].customRoleId.Some? {
          assert roles[r[k].customRoleId.value] in roles.Values;
        }
      }
    }
  }

  /** A row that carries a custom role of the source has a copy that carries one. */
  lemma CarriedRoleIsAdded(r0: RoleTable, r: RoleTable, r': RoleTable, m0: OwnedTable, m: OwnedTable, o0: OwnedTable,
                           o: OwnedTable, rows: map<Id, Id>, members: map<Id, Id>, roles: map<Id, Id>, src: Id)
    requires RoleExt(r0, r, m0, m, o0, o) && m0.Keys <= m.Keys && o0.Keys <= o.Keys
    requires members.Keys == RowsOf(m0, src) && roles.Keys == RowsOf(o0, src)
    requires IsRoleCopy(r, r', rows, members, roles)
    requires CarriesCustomRole(r0, m0, o0, src)
    ensures AddedCustom(r0, r')
  {
    var k :| k in r0 && r0[k].membershipId in RowsOf(m0, src)
          && r0[k].customRoleId.Some? && r0[k].customRoleId.value in RowsOf(o0, src);
    assert k in rows && rows[k] in r' && rows[k] !in r0;
    assert r'[rows[k]].customRoleId.Some?;
  }

  /** A new row that carries a custom role is the copy of a row that carries one. */
  lemma AddedRoleIsCarried(r0: RoleTable, r: RoleTable, r': RoleTable, m0: OwnedTable, m: OwnedTable, o0: OwnedTable,
                           o: OwnedTable, rows: map<Id, Id>, members: map<Id, Id>, roles: map<Id, Id>, src: Id)
    requires RoleExt(r0, r, m0, m, o0, o) && m0.Keys <= m.Keys && o0.Keys <= o.Keys
    requires members.Keys == RowsOf(m0, src) && roles.Keys == RowsOf(o0, src)
    requires IsRoleCopy(r, r', rows, members, roles)
    requires AddedCustom(r0, r') && !AddedCustom(r0, r)
    ensures CarriesCustomRole(r0, m0, o0, src)
  {
    var id :| id in r' && id !in r0 && r'[id].customRoleId.Some?;
    var k :| k in rows && rows[k] == id;
    assert r[k].membershipId in m0;
    assert k in r0;
  }

  /** Copying a project adds a row with a custom role exactly if the source carries one. */
  lemma CopyAddsCustom(r0: RoleTable, r: RoleTable, r': RoleTable, m0: OwnedTable, m: OwnedTable, o0: OwnedTable,
                       o: OwnedTable, rows: map<Id, Id>, members: map<Id, Id>, roles: map<Id, Id>, src: Id, d: set<Id>)
    requires RoleExt(r0, r, m0, m, o0, o) && OwnedExt(m0, m, d) && OwnedExt(o0, o, d) && src !in d
    requires members.Keys == RowsOf(m, src) && roles.Keys == RowsOf(o, src)
    requires IsRoleCopy(r, r', rows, members, roles)
    ensures AddedCustom(r0, r') <==> AddedCustom(r0, r) || CarriesCustomRole(r0, m0, o0, src)
  {
    SourceIsOriginal(m0, m, d, src);
    SourceIsOriginal(o0, o, d, src);
    if CarriesCustomRole(r0, m0, o0, src) {
      CarriedRoleIsAdded(r0, r, r', m0, m, o0, o, rows, members, roles, src);
    }
    if AddedCustom(r0, r') && !AddedCustom(r0, r) {
      AddedRoleIsCarried(r0, r, r', m0, m, o0, o, rows, members, roles, src);
    }
    if AddedCustom(r0, r) {
      var id :| id in r && id !in r0 && r[id].customRoleId.Some?;
      assert id in r' && r'[id] == r[id];
    }
  }

  lemma OneMoreSplit(splits: seq<Split>, s: Split)
    ensures Destinations(splits + [s]) == Destinations(splits) + {s.dst}
    ensures forall u :: u in splits + [s] <==> u in splits || u == s
    ensures forall p, kind ::
              HasSplit(splits + [s], p, kind) <==> HasSplit(splits, p, kind) || (p == s.src && kind == s.kind)
  {
    var more := splits + [s];
    assert more[|splits|] == s;
    assert forall i :: 0 <= i < |splits| ==> more[i] == splits[i];
    assert forall u :: u in more <==> u in splits || u == s;
    forall p, kind
      ensures HasSplit(more, p, kind) <==> HasSplit(splits, p, kind) || (p == s.src && kind == s.kind)
    {
      if HasSplit(splits, p, kind) {
        var u :| u in splits && u.src == p && u.kind == kind;
        assert u in more;
      }
      if p == s.src && kind == s.kind {
        assert s in more;
      }
    }
  }

  lemma MoreSplitsOk(projects0: set<Id>, splits: seq<Split>, s: Split)
    requires SplitsOk(projects0, splits)
    requires s.src in projects0 && s.dst !in projects0 && s.dst !in Destinations(splits) && s.kind != SecretManager
    requires !HasSplit(splits, s.src, s.kind)
    ensures SplitsOk(projects0, splits + [s])
  {
    var more := splits + [s];
    forall i, j | 0 <= i < j < |more|
      ensures more[i].dst != more[j].dst && (more[i].src != more[j].src || more[i].kind != more[j].kind)
    {
      assert more[i] == splits[i] && splits[i] in splits;
    }
  }

  lemma RehomeMoves(o0: OwnedTable, o: OwnedTable, projects0: set<Id>, splits: seq<Split>, src: Id, dst: Id)
    requires OwnedMoved(o0, o, splits) && SplitsOk(projects0, splits)
    requires src in projects0 && !HasSplit(splits, src, CertificateManager)
    ensures OwnedMoved(o0, Rehome(o, src, dst), splits + [Split(src, CertificateManager, dst)])
  {
    var s := Split(src, CertificateManager, dst);
    OneMoreSplit(splits, s);
    var o' := Rehome(o, src, dst);
    forall id | id in o0
      ensures o'[id] == o0[id].(projectId := o'[id].projectId)
      ensures if HasSplit(splits + [s], o0[id].projectId, CertificateManager)
              then Split(o0[id].projectId, CertificateManager, o'[id].projectId) in splits + [s]
              else o'[id] == o0[id]
    {
    }
  }

  lemma OtherSplitKeepsMoved(o0: OwnedTable, o: OwnedTable, splits: seq<Split>, s: Split)
    requires OwnedMoved(o0, o, splits) && s.kind != CertificateManager
    ensures OwnedMoved(o0, o, splits + [s])
  {
    OneMoreSplit(splits, s);
  }

  function KeysAfter(k: KeyTable, s: Split): KeyTable {
    if s.kind == KMS then RehomeKeys(k, s.src, s.dst) else k
  }

  lemma CopiedKeysAreReserved(k0: KeyTable, k: KeyTable, k': KeyTable, m: map<Id, Id>, d: set<Id>, s: Split, id: Id)
    requires k0.Keys <= k.Keys && m.Keys == ReservedKeysOf(k, s.src) && IsKeyCopy(k, k', m, s.dst)
    requires forall id :: id in k && id !in k0 ==>
               k[id].isReserved == Some(true) && k[id].projectId.Some? && k[id].projectId.value in d
    requires id in k' && id !in k0
    ensures var key := KeysAfter(k', s)[id];
            key.isReserved == Some(true) && key.projectId.Some? && key.projectId.value in d + {s.dst}
  {
    if id !in k {
      var j :| j in m && m[j] == id;
    }
  }

  lemma KeyFollows(before: Key, key: Key, projects0: set<Id>, splits: seq<Split>, s: Split)
    requires KeyMoved(before, key, splits) && SplitsOk(projects0, splits)
    requires s.src in projects0 && !HasSplit(splits, s.src, s.kind)
    ensures var after := if s.kind == KMS && key.isReserved == Some(false) && key.projectId == Some(s.src)
                         then key.(projectId := Some(s.dst)) else key;
            KeyMoved(before, after, splits + [s])
  {
    OneMoreSplit(splits, s);
  }

  /** Reserved keys are copied; then, for a KMS split, the others are moved. */
  lemma KeysFollow(k0: KeyTable, k: KeyTable, k': KeyTable, m: map<Id, Id>, projects0: set<Id>, splits: seq<Split>,
                   s: Split)
    requires KeysMoved(k0, k, splits, Destinations(splits)) && SplitsOk(projects0, splits)
    requires m.Keys == ReservedKeysOf(k, s.src) && IsKeyCopy(k, k', m, s.dst)
    requires s.src in projects0 && !HasSplit(splits, s.src, s.kind)
    ensures KeysMoved(k0, KeysAfter(k', s), splits + [s], Destinations(splits + [s]))
  {
    OneMoreSplit(splits, s);
    var after := KeysAfter(k', s);
    forall id | id in after && id !in k0
      ensures after[id].isReserved == Some(true) && after[id].projectId.Some?
      ensures after[id].projectId.value in Destinations(splits + [s])
    {
      CopiedKeysAreReserved(k0, k, k', m, Destinations(splits), s, id);
    }
    forall id | id in k0 ensures KeyMoved(k0[id], after[id], splits + [s]) {
      assert k'[id] == k[id];
      KeyFollows(k0[id], k[id], projects0, splits, s);
    }
  }

  lemma MoreBlocked(t0: Tables, splits: seq<Split>, s: Split)
    ensures BlockedSplit(t0, splits + [s]) <==> BlockedSplit(t0, splits) || BlockedSource(t0, s.src)
  {
    OneMoreSplit(splits, s);
    if BlockedSplit(t0, splits) {
      var u :| u in splits && BlockedSource(t0, u.src);
      assert u in splits + [s];
    }
    assert s in splits + [s];
  }

  lemma MembersFollow(t0: Tables, t: Tables, b: Tables, u: Tables, src: Id, kind: ProjectType, dst: Id, c: CopyMaps)
    requires src in t.projects && Copied(t, b, src, kind, dst, c) && u == AfterMove(b, src, kind, dst)
    requires MembersSplit(t0, t)
    ensures MembersSplit(t0, u)
  {
    var d := Destinations(t.splits);
    OneMoreSplit(t.splits, Split(src, kind, dst));
    CopyExtends(t0.roles, t.roles, b.roles, c.roles, dst, d);
    CopyExtends(t0.groupMembers, t.groupMembers, b.groupMembers, c.groupMembers, dst, d);
    CopyExtends(t0.identityMembers, t.identityMembers, b.identityMembers, c.identityMembers, dst, d);
    CopyExtends(t0.userMembers, t.userMembers, b.userMembers, c.userMembers, dst, d);
    RoleCopyExtends(t0.groupRoles, t.groupRoles, b.groupRoles, t0.groupMembers, t.groupMembers, b.groupMembers,
                    t0.roles, t.roles, b.roles, c.groupRoles, c.groupMembers, c.roles, dst);
    RoleCopyExtends(t0.identityRoles, t.identityRoles, b.identityRoles, t0.identityMembers, t.identityMembers,
                    b.identityMembers, t0.roles, t.roles, b.roles, c.identityRoles, c.identityMembers, c.roles, dst);
    RoleCopyExtends(t0.userRoles, t.userRoles, b.userRoles, t0.userMembers, t.userMembers, b.userMembers,
                    t0.roles, t.roles, b.roles, c.userRoles, c.userMembers, c.roles, dst);
  }

  lemma ProductsFollow(t0: Tables, t: Tables, b: Tables, u: Tables, src: Id, kind: ProjectType, dst: Id, c: CopyMaps)
    requires src in t.projects && Copied(t, b, src, kind, dst, c) && u == AfterMove(b, src, kind, dst)
    requires kind == CertificateManager || kind == KMS
    requires SplitsOk(t0.projects.Keys, t.splits) && ProductsSplit(t0, t)
    requires src in t0.projects && !HasSplit(t.splits, src, kind)
    ensures ProductsSplit(t0, u)
  {
    var d, s := Destinations(t.splits), Split(src, kind, dst);
    OneMoreSplit(t.splits, s);
    CopyExtends(t0.bots, t.bots, b.bots, c.bots, dst, d);
    CopyExtends(t0.projectKeys, t.projectKeys, b.projectKeys, c.projectKeys, dst, d);
    KeysFollow(t0.keys, t.keys, b.keys, c.keys, t0.projects.Keys, t.splits, s);
    if kind == CertificateManager {
      RehomeMoves(t0.cas, t.cas, t0.projects.Keys, t.splits, src, dst);
      RehomeMoves(t0.alerts, t.alerts, t0.projects.Keys, t.splits, src, dst);
      RehomeMoves(t0.collections, t.collections, t0.projects.Keys, t.splits, src, dst);
    } else {
      OtherSplitKeepsMoved(t0.cas, t.cas, t.splits, s);
      OtherSplitKeepsMoved(t0.alerts, t.alerts, t.splits, s);
      OtherSplitKeepsMoved(t0.collections, t.collections, t.splits, s);
    }
  }

  lemma BlockingFollows(t0: Tables, t: Tables, b: Tables, src: Id, dst: Id, c: CopyMaps)
    requires MembersSplit(t0, t) && MembersCopied(t, b, src, dst, c)
    requires src in t0.projects && t0.projects.Keys !! Destinations(t.splits)
    ensures AddedCustom(t0.groupRoles, b.groupRoles) || AddedCustom(t0.identityRoles, b.identityRoles)
            <==> AddedCustom(t0.groupRoles, t.groupRoles) || AddedCustom(t0.identityRoles, t.identityRoles)
                 || BlockedSource(t0, src)
  {
    var d := Destinations(t.splits);
    CopyAddsCustom(t0.groupRoles, t.groupRoles, b.groupRoles, t0.groupMembers, t.groupMembers, t0.roles, t.roles,
                   c.groupRoles, c.groupMembers, c.roles, src, d);
    CopyAddsCustom(t0.identityRoles, t.identityRoles, b.identityRoles, t0.identityMembers, t.identityMembers, t0.roles,
                   t.roles, c.identityRoles, c.identityMembers, c.roles, src, d);
  }

  lemma ProjectsFollow(t0: Tables, t: Tables, b: Tables, u: Tables, src: Id, kind: ProjectType, dst: Id)
    requires src in t.projects && dst !in t.projects && dst in b.projects
    requires b.projects == t.projects[dst := t.projects[src].(kind := Some(kind), slug := b.projects[dst].slug)]
    requires b.splits == t.splits && u == AfterMove(b, src, kind, dst)
    requires ProjectsSplit(t0, t)
    ensures ProjectsSplit(t0, u)
  {
    OneMoreSplit(t.splits, Split(src, kind, dst));
  }

  /** Copying one more project and moving its rows keeps the state of a split in progress. */
  lemma SplitFollows(t0: Tables, t: Tables, b: Tables, src: Id, kind: ProjectType, dst: Id, c: CopyMaps)
    requires SplitState(t0, t) && src in t0.projects && src in t.projects
    requires kind == CertificateManager || kind == KMS
    requires !HasSplit(t.splits, src, kind) && Copied(t, b, src, kind, dst, c)
    ensures SplitState(t0, AfterMove(b, src, kind, dst))
  {
    var u := AfterMove(b, src, kind, dst);
    MoreSplitsOk(t0.projects.Keys, t.splits, Split(src, kind, dst));
    ProjectsFollow(t0, t, b, u, src, kind, dst);
    MembersFollow(t0, t, b, u, src, kind, dst, c);
    ProductsFollow(t0, t, b, u, src, kind, dst, c);
    DestinationsAreNew(t0.projects.Keys, t.splits);
    BlockingFollows(t0, t, b, src, dst, c);
    MoreBlocked(t0, t.splits, Split(src, kind, dst));
  }
}
