/** What holds in every state between two rounds of the split migration: the foreign keys, and that every
    destination project mirrors the roles and memberships of its source. */
module ProjectSplitMirrors {
  import opened Prelude
  import opened ProjectTables
  import opened ProjectSplitProofs

  // ---------------------------------------------------------------- foreign keys

  lemma ExtensionKeepsOwned(o0: OwnedTable, o: OwnedTable, projects0: set<Id>, d: set<Id>)
    requires OwnedExt(o0, o, d) && OwnedRefs(o0, projects0)
    ensures OwnedRefs(o, projects0 + d)
  {
  }

  lemma ExtensionKeepsRoles(r0: RoleTable, r: RoleTable, m0: OwnedTable, m: OwnedTable, o0: OwnedTable, o: OwnedTable)
    requires RoleExt(r0, r, m0, m, o0, o) && RoleRefs(r0, m0.Keys, o0.Keys)
    requires m0.Keys <= m.Keys && o0.Keys <= o.Keys
    ensures RoleRefs(r, m.Keys, o.Keys)
  {
  }

  lemma MoveKeepsOwned(o0: OwnedTable, o: OwnedTable, projects0: set<Id>, splits: seq<Split>)
    requires OwnedMoved(o0, o, splits) && OwnedRefs(o0, projects0)
    ensures OwnedRefs(o, projects0 + Destinations(splits))
  {
  }

  lemma MoveKeepsKeys(k0: KeyTable, k: KeyTable, projects0: set<Id>, splits: seq<Split>)
    requires KeysMoved(k0, k, splits, Destinations(splits)) && KeyRefs(k0, projects0)
    ensures KeyRefs(k, projects0 + Destinations(splits))
  {
    forall id | id in k && k[id].projectId.Some?
      ensures k[id].projectId.value in projects0 + Destinations(splits)
    {
      if id in k0 {
        assert KeyMoved(k0[id], k[id], splits);
      }
    }
  }

  /** No foreign key is ever broken between two rounds. */
  lemma SplitStateIsConsistent(t0: Tables, t: Tables)
    requires Consistent(t0) && SplitState(t0, t)
    ensures Consistent(t)
  {
    var p0, d := t0.projects.Keys, Destinations(t.splits);
    ExtensionKeepsOwned(t0.roles, t.roles, p0, d);
    ExtensionKeepsOwned(t0.groupMembers, t.groupMembers, p0, d);
    ExtensionKeepsOwned(t0.identityMembers, t.identityMembers, p0, d);
    ExtensionKeepsOwned(t0.userMembers, t.userMembers, p0, d);
    ExtensionKeepsOwned(t0.bots, t.bots, p0, d);
    ExtensionKeepsOwned(t0.projectKeys, t.projectKeys, p0, d);
    ExtensionKeepsRoles(t0.groupRoles, t.groupRoles, t0.groupMembers, t.groupMembers, t0.roles, t.roles);
    ExtensionKeepsRoles(t0.identityRoles, t.identityRoles, t0.identityMembers, t.identityMembers, t0.roles, t.roles);
    ExtensionKeepsRoles(t0.userRoles, t.userRoles, t0.userMembers, t.userMembers, t0.roles, t.roles);
    MoveKeepsOwned(t0.cas, t.cas, p0, t.splits);
    MoveKeepsOwned(t0.alerts, t.alerts, p0, t.splits);
    MoveKeepsOwned(t0.collections, t.collections, p0, t.splits);
    MoveKeepsKeys(t0.keys, t.keys, p0, t.splits);
  }

  // ---------------------------------------------------------------- mirrored destinations

  predicate KindMirrored(ma: OwnedTable, mb: OwnedTable, ra: RoleTable, rb: RoleTable,
                         members: map<Id, Id>, rows: map<Id, Id>, roles: map<Id, Id>, src: Id, dst: Id) {
    && rows.Keys <= ra.Keys && rows.Values <= rb.Keys
    && MembershipsMirrored(ma, mb, ra, rb, members, rows, roles, src, dst)
  }

  /** The rows of `dst` are exactly the images of rows of `src`, with the same contents. */
  predicate Imaged(a: OwnedTable, b: OwnedTable, m: map<Id, Id>, src: Id, dst: Id) {
    Injective(m) && m.Keys <= RowsOf(a, src) && m.Values == RowsOf(b, dst) && SameContents(a, b, m, dst)
  }

  predicate RowsMirrored(a: OwnedTable, b: OwnedTable, m: map<Id, Id>, src: Id, dst: Id) {
    Imaged(a, b, m, src, dst) && m.Keys == RowsOf(a, src)
  }

  predicate FirstMirrored(a: OwnedTable, b: OwnedTable, m: map<Id, Id>, src: Id, dst: Id) {
    Imaged(a, b, m, src, dst) && |m.Keys| == Min(1, |RowsOf(a, src)|)
  }

  predicate ReservedMirrored(a: KeyTable, b: KeyTable, m: map<Id, Id>, src: Id, dst: Id) {
    && Injective(m) && m.Keys == ReservedKeysOf(a, src) && m.Values == ReservedKeysOf(b, dst)
    && forall k :: k in m ==> k in a && m[k] in b && b[m[k]] == a[k].(projectId := Some(dst), slug := b[m[k]].slug)
  }

  /** In `t` the destination of a split holds exactly the images of the roles, memberships and roles held
      through them that its source had in the original tables `t0`, with mirrored references. */
  predicate MembersMirrored(t0: Tables, t: Tables, s: Split, c: CopyMaps) {
    && RowsMirrored(t0.roles, t.roles, c.roles, s.src, s.dst)
    && KindMirrored(t0.groupMembers, t.groupMembers, t0.groupRoles, t.groupRoles,
                    c.groupMembers, c.groupRoles, c.roles, s.src, s.dst)
    && KindMirrored(t0.identityMembers, t.identityMembers, t0.identityRoles, t.identityRoles,
                    c.identityMembers, c.identityRoles, c.roles, s.src, s.dst)
    && KindMirrored(t0.userMembers, t.userMembers, t0.userRoles, t.userRoles,
                    c.userMembers, c.userRoles, c.roles, s.src, s.dst)
  }

  /** And of its reserved keys, of one of its bots, if it has any, and of its project keys. */
  predicate ProductsMirrored(t0: Tables, t: Tables, s: Split, c: CopyMaps) {
    && ReservedMirrored(t0.keys, t.keys, c.keys, s.src, s.dst)
    && FirstMirrored(t0.bots, t.bots, c.bots, s.src, s.dst)
    && RowsMirrored(t0.projectKeys, t.projectKeys, c.projectKeys, s.src, s.dst)
  }

  ghost predicate Mirrored(t0: Tables, t: Tables, s: Split) {
    exists c :: MembersMirrored(t0, t, s, c) && ProductsMirrored(t0, t, s, c)
  }

  ghost predicate AllMirrored(t0: Tables, t: Tables) {
    forall s :: s in t.splits ==> Mirrored(t0, t, s)
  }

  lemma RolesThroughOld(m: OwnedTable, r: RoleTable, r': RoleTable, rows: map<Id, Id>, members: map<Id, Id>,
                        roles: map<Id, Id>, some: set<Id>)
    requires IsRoleCopy(r, r', rows, members, roles) && some <= m.Keys
    requires forall k :: k in members ==> members[k] !in m
    ensures RolesThrough(r', some) == RolesThrough(r, some)
  {
  }

  /** A later copy does not disturb an earlier destination. */
  lemma EarlierKindStays(ma: OwnedTable, mb: OwnedTable, ra: RoleTable, rb: RoleTable, members: map<Id, Id>,
                         rows: map<Id, Id>, roles: map<Id, Id>, src: Id, dst: Id, mb': OwnedTable, rb': RoleTable,
                         members': map<Id, Id>, rows': map<Id, Id>, roles': map<Id, Id>, dst': Id)
    requires KindMirrored(ma, mb, ra, rb, members, rows, roles, src, dst)
    requires IsCopy(mb, mb', members', dst') && IsRoleCopy(rb, rb', rows', members', roles')
    requires dst' != src && dst' != dst
    ensures KindMirrored(ma, mb', ra, rb', members, rows, roles, src, dst)
  {
    SourceRowsStay(mb, mb', members', src, dst');
    SourceRowsStay(mb, mb', members', dst, dst');
    RolesThroughOld(mb, rb, rb', rows', members', roles', RowsOf(mb, dst));
    assert Mirrors(ra, rb', rows, members, roles);
  }

  /** A copy of the current source rows is a copy of the original ones. */
  lemma NewKindMirrors(ma: OwnedTable, mb: OwnedTable, ra: RoleTable, rb: RoleTable,
                       o0: OwnedTable, o: OwnedTable, d: set<Id>,
                       mb': OwnedTable, rb': RoleTable, members: map<Id, Id>, rows: map<Id, Id>, roles: map<Id, Id>,
                       src: Id, dst: Id)
    requires OwnedExt(ma, mb, d) && src !in d && RoleExt(ra, rb, ma, mb, o0, o)
    requires KindMirrored(mb, mb', rb, rb', members, rows, roles, src, dst)
    ensures KindMirrored(ma, mb', ra, rb', members, rows, roles, src, dst)
  {
    SourceIsOriginal(ma, mb, d, src);
    forall id | id in RolesThrough(rb, RowsOf(ma, src)) ensures id in RolesThrough(ra, RowsOf(ma, src)) {
      assert rb[id].membershipId in ma;
    }
    assert RolesThrough(rb, RowsOf(ma, src)) == RolesThrough(ra, RowsOf(ma, src));
    assert Mirrors(ra, rb', rows, members, roles);
  }

  /** The same for rows that belong to the project directly. */
  lemma EarlierImageStays(a: OwnedTable, b: OwnedTable, m: map<Id, Id>, src: Id, dst: Id,
                          b': OwnedTable, m': map<Id, Id>, dst': Id)
    requires Imaged(a, b, m, src, dst) && IsCopy(b, b', m', dst') && dst' != dst
    ensures Imaged(a, b', m, src, dst)
  {
    SourceRowsStay(b, b', m', dst, dst');
  }

  lemma NewImage(a: OwnedTable, b: OwnedTable, d: set<Id>, projects: set<Id>, b': OwnedTable, m: map<Id, Id>, src: Id,
                 dst: Id)
    requires OwnedExt(a, b, d) && src !in d && OwnedRefs(b, projects) && dst !in projects
    requires m.Keys <= RowsOf(b, src) && IsCopy(b, b', m, dst)
    ensures Imaged(a, b', m, src, dst) && RowsOf(a, src) == RowsOf(b, src)
  {
    SourceIsOriginal(a, b, d, src);
    NothingOwnedYet(b, projects, dst);
    RowsOfCopy(b, b', m, dst);
  }

  /** Reserved keys: neither a later copy nor a later move disturbs an earlier destination. */
  lemma EarlierReservedStay(a: KeyTable, b: KeyTable, m: map<Id, Id>, s: Split, b': KeyTable, m': map<Id, Id>,
                            s': Split)
    requires ReservedMirrored(a, b, m, s.src, s.dst) && IsKeyCopy(b, b', m', s'.dst) && s'.dst != s.dst
    ensures ReservedMirrored(a, KeysAfter(b', s'), m, s.src, s.dst)
  {
    assert ReservedKeysOf(KeysAfter(b', s'), s.dst) == ReservedKeysOf(b, s.dst);
  }

  lemma ReservedKeysAreOriginal(k0: KeyTable, k: KeyTable, splits: seq<Split>, d: set<Id>, src: Id)
    requires KeysMoved(k0, k, splits, d) && src !in d
    ensures ReservedKeysOf(k, src) == ReservedKeysOf(k0, src)
    ensures forall id :: id in ReservedKeysOf(k0, src) ==> k[id] == k0[id]
  {
    forall id | id in k0 && k0[id].isReserved == Some(true) ensures k[id] == k0[id] {
      assert KeyMoved(k0[id], k[id], splits);
    }
    forall id | id in ReservedKeysOf(k, src) ensures id in ReservedKeysOf(k0, src) {
      if id in k0 {
        assert KeyMoved(k0[id], k[id], splits);
      }
    }
  }

  lemma NewReserved(k0: KeyTable, k: KeyTable, splits: seq<Split>, d: set<Id>, projects: set<Id>,
                    k': KeyTable, m: map<Id, Id>, s: Split)
    requires KeysMoved(k0, k, splits, d) && s.src !in d && KeyRefs(k, projects) && s.dst !in projects
    requires m.Keys == ReservedKeysOf(k, s.src) && IsKeyCopy(k, k', m, s.dst)
    ensures ReservedMirrored(k0, KeysAfter(k', s), m, s.src, s.dst)
  {
    ReservedKeysAreOriginal(k0, k, splits, d, s.src);
    var after := KeysAfter(k', s);
    assert forall j :: j in m ==> m[j] in m.Values;
    assert forall v :: v in m.Values ==> v in ReservedKeysOf(after, s.dst);
  }

  lemma EarlierMembersStay(t0: Tables, t: Tables, b: Tables, s: Split, c: CopyMaps, src: Id, dst: Id, c': CopyMaps)
    requires MembersMirrored(t0, t, s, c) && MembersCopied(t, b, src, dst, c')
    requires dst != s.src && dst != s.dst
    ensures MembersMirrored(t0, b, s, c)
  {
    EarlierImageStays(t0.roles, t.roles, c.roles, s.src, s.dst, b.roles, c'.roles, dst);
    EarlierKindStays(t0.groupMembers, t.groupMembers, t0.groupRoles, t.groupRoles, c.groupMembers, c.groupRoles,
                     c.roles, s.src, s.dst, b.groupMembers, b.groupRoles, c'.groupMembers, c'.groupRoles, c'.roles,
                     dst);
    EarlierKindStays(t0.identityMembers, t.identityMembers, t0.identityRoles, t.identityRoles, c.identityMembers,
                     c.identityRoles, c.roles, s.src, s.dst, b.identityMembers, b.identityRoles, c'.identityMembers,
                     c'.identityRoles, c'.roles, dst);
    EarlierKindStays(t0.userMembers, t.userMembers, t0.userRoles, t.userRoles, c.userMembers, c.userRoles, c.roles,
                     s.src, s.dst, b.userMembers, b.userRoles, c'.userMembers, c'.userRoles, c'.roles, dst);
  }

  lemma EarlierProductsStay(t0: Tables, t: Tables, b: Tables, s: Split, c: CopyMaps, s': Split, c': CopyMaps)
    requires ProductsMirrored(t0, t, s, c) && ProductsCopied(t, b, s'.src, s'.dst, c') && s'.dst != s.dst
    ensures ProductsMirrored(t0, b.(keys := KeysAfter(b.keys, s')), s, c)
  {
    EarlierReservedStay(t0.keys, t.keys, c.keys, s, b.keys, c'.keys, s');
    EarlierImageStays(t0.bots, t.bots, c.bots, s.src, s.dst, b.bots, c'.bots, s'.dst);
    EarlierImageStays(t0.projectKeys, t.projectKeys, c.projectKeys, s.src, s.dst, b.projectKeys, c'.projectKeys,
                      s'.dst);
  }

  lemma NewMembersMirror(t0: Tables, t: Tables, b: Tables, src: Id, kind: ProjectType, dst: Id, c: CopyMaps)
    requires Consistent(t) && MembersSplit(t0, t) && src !in Destinations(t.splits)
    requires src in t.projects && Copied(t, b, src, kind, dst, c)
    ensures MembersMirrored(t0, b, Split(src, kind, dst), c)
  {
    var d := Destinations(t.splits);
    CopyIsIsomorphic(t, b, src, kind, dst, c);
    NewImage(t0.roles, t.roles, d, t.projects.Keys, b.roles, c.roles, src, dst);
    NewKindMirrors(t0.groupMembers, t.groupMembers, t0.groupRoles, t.groupRoles, t0.roles, t.roles, d,
                   b.groupMembers, b.groupRoles, c.groupMembers, c.groupRoles, c.roles, src, dst);
    NewKindMirrors(t0.identityMembers, t.identityMembers, t0.identityRoles, t.identityRoles, t0.roles, t.roles, d,
                   b.identityMembers, b.identityRoles, c.identityMembers, c.identityRoles, c.roles, src, dst);
    NewKindMirrors(t0.userMembers, t.userMembers, t0.userRoles, t.userRoles, t0.roles, t.roles, d,
                   b.userMembers, b.userRoles, c.userMembers, c.userRoles, c.roles, src, dst);
  }

  lemma NewProductsMirror(t0: Tables, t: Tables, b: Tables, s: Split, c: CopyMaps)
    requires OwnedRefs(t.bots, t.projects.Keys) && OwnedRefs(t.projectKeys, t.projects.Keys)
    requires KeyRefs(t.keys, t.projects.Keys)
    requires ProductsSplit(t0, t) && s.src !in Destinations(t.splits) && s.dst !in t.projects
    requires ProductsCopied(t, b, s.src, s.dst, c)
    ensures ProductsMirrored(t0, b.(keys := KeysAfter(b.keys, s)), s, c)
  {
    var d, p := Destinations(t.splits), t.projects.Keys;
    NewReserved(t0.keys, t.keys, t.splits, d, p, b.keys, c.keys, s);
    NewImage(t0.bots, t.bots, d, p, b.bots, c.bots, s.src, s.dst);
    NewImage(t0.projectKeys, t.projectKeys, d, p, b.projectKeys, c.projectKeys, s.src, s.dst);
  }

  /** The certificate rows that move are not among those that mirror, and the keys are as after the move. */
  lemma MoveKeepsMirrors(t0: Tables, b: Tables, s': Split, s: Split, c: CopyMaps)
    requires MembersMirrored(t0, b, s, c) && ProductsMirrored(t0, b.(keys := KeysAfter(b.keys, s')), s, c)
    requires s'.kind != SecretManager
    ensures Mirrored(t0, AfterMove(b, s'.src, s'.kind, s'.dst), s)
  {
    var u := AfterMove(b, s'.src, s'.kind, s'.dst);
    assert u.keys == if s'.kind == CertificateManager then b.keys else RehomeKeys(b.keys, s'.src, s'.dst);
    assert MembersMirrored(t0, u, s, c) && ProductsMirrored(t0, u, s, c);
  }

  lemma EarlierSplitMirrors(t0: Tables, t: Tables, b: Tables, s: Split, s': Split, c: CopyMaps)
    requires SplitsOk(t0.projects.Keys, t.splits) && ProjectsSplit(t0, t) && Mirrored(t0, t, s) && s in t.splits
    requires MembersCopied(t, b, s'.src, s'.dst, c) && ProductsCopied(t, b, s'.src, s'.dst, c)
    requires s'.dst !in t.projects && s'.kind != SecretManager
    ensures Mirrored(t0, AfterMove(b, s'.src, s'.kind, s'.dst), s)
  {
    var c' :| MembersMirrored(t0, t, s, c') && ProductsMirrored(t0, t, s, c');
    assert s.dst in Destinations(t.splits);
    EarlierMembersStay(t0, t, b, s, c', s'.src, s'.dst, c);
    EarlierProductsStay(t0, t, b, s, c', s', c);
    MoveKeepsMirrors(t0, b, s', s, c');
  }

  lemma NewSplitMirrors(t0: Tables, t: Tables, b: Tables, s: Split, c: CopyMaps)
    requires Consistent(t) && SplitsOk(t0.projects.Keys, t.splits) && MembersSplit(t0, t) && ProductsSplit(t0, t)
    requires s.src in t0.projects && s.src in t.projects && s.kind != SecretManager
    requires Copied(t, b, s.src, s.kind, s.dst, c)
    ensures Mirrored(t0, AfterMove(b, s.src, s.kind, s.dst), s)
  {
    DestinationsAreNew(t0.projects.Keys, t.splits);
    NewMembersMirror(t0, t, b, s.src, s.kind, s.dst, c);
    NewProductsMirror(t0, t, b, s, c);
    MoveKeepsMirrors(t0, b, s, s, c);
  }

  /** In `t`, a state of the migration started from `t0`, a project is copied, which gives `b`; then the
      product's rows are moved and the split is recorded. */
  ghost predicate SplitsOffBy(t0: Tables, t: Tables, b: Tables, u: Tables, s: Split, c: CopyMaps) {
    && Consistent(t) && SplitsOk(t0.projects.Keys, t.splits) && ProjectsSplit(t0, t)
    && MembersSplit(t0, t) && ProductsSplit(t0, t) && s.kind != SecretManager
    && s.src in t0.projects && s.src in t.projects && Copied(t, b, s.src, s.kind, s.dst, c)
    && u == AfterMove(b, s.src, s.kind, s.dst)
  }

  ghost predicate SplitsOff(t0: Tables, t: Tables, u: Tables, s: Split) {
    exists b, c :: SplitsOffBy(t0, t, b, u, s, c)
  }

  lemma CopyAndMoveSplitsOff(t0: Tables, t: Tables, b: Tables, src: Id, kind: ProjectType, dst: Id, c: CopyMaps)
    requires Consistent(t0) && SplitState(t0, t) && src in t0.projects && src in t.projects
    requires Copied(t, b, src, kind, dst, c) && (kind == CertificateManager || kind == KMS)
    ensures SplitsOff(t0, t, AfterMove(b, src, kind, dst), Split(src, kind, dst))
  {
    SplitStateIsConsistent(t0, t);
    assert SplitsOffBy(t0, t, b, AfterMove(b, src, kind, dst), Split(src, kind, dst), c);
  }

  lemma EarlierStaysMirrored(t0: Tables, t: Tables, u: Tables, s: Split, earlier: Split)
    requires SplitsOff(t0, t, u, s) && earlier in t.splits && Mirrored(t0, t, earlier)
    ensures Mirrored(t0, u, earlier)
  {
    var b, c :| SplitsOffBy(t0, t, b, u, s, c);
    EarlierSplitMirrors(t0, t, b, earlier, s, c);
  }

  lemma NewIsMirrored(t0: Tables, t: Tables, u: Tables, s: Split)
    requires SplitsOff(t0, t, u, s)
    ensures Mirrored(t0, u, s)
  {
    var b, c :| SplitsOffBy(t0, t, b, u, s, c);
    NewSplitMirrors(t0, t, b, s, c);
  }

  lemma SplitsOffAppends(t0: Tables, t: Tables, u: Tables, s: Split)
    requires SplitsOff(t0, t, u, s)
    ensures forall e :: e in u.splits <==> e in t.splits || e == s
  {
    var b, c :| SplitsOffBy(t0, t, b, u, s, c);
    OneMoreSplit(t.splits, s);
  }

  lemma EachIsMirrored(t0: Tables, t: Tables, u: Tables, s: Split, e: Split)
    requires SplitsOff(t0, t, u, s)
    requires e == s || (e in t.splits && Mirrored(t0, t, e))
    ensures Mirrored(t0, u, e)
  {
    if e == s {
      NewIsMirrored(t0, t, u, s);
    } else {
      EarlierStaysMirrored(t0, t, u, s, e);
    }
  }

  /** After one more split all destinations mirror their sources, the earlier ones and the new one. */
  lemma MirrorsFollow(t0: Tables, t: Tables, u: Tables, s: Split)
    requires SplitsOff(t0, t, u, s) && AllMirrored(t0, t)
    ensures AllMirrored(t0, u)
  {
    SplitsOffAppends(t0, t, u, s);
    forall e | e in u.splits ensures Mirrored(t0, u, e) {
      EachIsMirrored(t0, t, u, s, e);
    }
  }
}
