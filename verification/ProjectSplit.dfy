/** db/migrations/20241213122350_project-split-to-products.ts: the migration itself. Fresh uuids are
    assumed not to be in use in the table they are inserted into. */
module ProjectSplit {
  import opened Prelude
  import opened ProjectTables
  import opened ProjectSplitProofs
  import opened ProjectSplitMirrors

  const BATCH_SIZE := 500

  /** uuidV4(): some id that is not in use. */
  method NewUuid(used: set<Id>) returns (id: Id)
    ensures id !in used
  {
    id := 0;
    var seen, rest := {}, used;
    while rest != {}
      invariant seen + rest == used
      invariant forall x :: x in seen ==> x < id
      decreases rest
    {
      var u :| u in rest;
      if u >= id {
        id := u + 1;
      }
      seen, rest := seen + {u}, rest - {u};
    }
  }

  /** slugify(...nanoid): some slug. */
  method NewSlug(seed: string) returns (slug: string) {
    slug := seed;
  }

  /** Reads the given rows and inserts a copy of each into project `dst`, recording the id map. */
  method CopyOwned(table: OwnedTable, rows: set<Id>, dst: Id) returns (after: OwnedTable, mapping: map<Id, Id>)
    requires rows <= table.Keys
    ensures mapping.Keys == rows && IsCopy(table, after, mapping, dst)
  {
    var list := Enumerate(rows);
    after, mapping := table, map[];
    var i := 0;
    while i < |list|
      invariant 0 <= i <= |list|
      invariant mapping.Keys == Elements(list[..i])
      invariant IsCopy(table, after, mapping, dst)
    {
      var el := list[i];
      NextInOrder(list, i);
      var id := NewUuid(after.Keys);
      OneMoreCopy(table, after, mapping, dst, el, id);
      mapping := mapping[el := id];
      after := after[id := table[el].(projectId := dst)];
      i := i + 1;
    }
    assert list[..i] == list;
  }

  lemma OneMoreCopy(table: OwnedTable, after: OwnedTable, m: map<Id, Id>, dst: Id, el: Id, id: Id)
    requires IsCopy(table, after, m, dst) && el in table && el !in m && id !in after
    ensures m[el := id].Keys == m.Keys + {el}
    ensures IsCopy(table, after[id := table[el].(projectId := dst)], m[el := id], dst)
  {
    var m', after' := m[el := id], after[id := table[el].(projectId := dst)];
    assert m'.Values == m.Values + {id} by { ValuesOfExtension(m, el, id); }
    assert forall k :: k in m ==> m[k] in m.Values;
    assert after'.Keys == table.Keys + m'.Values;
  }

  lemma ValuesOfExtension(m: map<Id, Id>, el: Id, id: Id)
    requires el !in m
    ensures m[el := id].Values == m.Values + {id}
  {
    var m' := m[el := id];
    forall v | v in m.Values + {id} ensures v in m'.Values {
      if v in m.Values {
        var k :| k in m && m[k] == v;
        assert m'[k] == v;
      } else {
        assert m'[el] == v;
      }
    }
  }

  /** The same for role rows, with both references remapped. */
  method CopyMemberRoles(table: RoleTable, members: map<Id, Id>, roles: map<Id, Id>)
    returns (after: RoleTable, mapping: map<Id, Id>)
    ensures IsRoleCopy(table, after, mapping, members, roles)
  {
    var rows := RolesThrough(table, members.Keys);
    var list := Enumerate(rows);
    after, mapping := table, map[];
    var i := 0;
    while i < |list|
      invariant 0 <= i <= |list|
      invariant mapping.Keys == Elements(list[..i])
      invariant RoleRowsCopied(table, after, mapping, members, roles)
    {
      var el := list[i];
      NextInOrder(list, i);
      var id := NewUuid(after.Keys);
      assert el in rows;
      var row := RemappedRole(table[el], members, roles);
      OneMoreRoleCopy(table, after, mapping, members, roles, el, id);
      mapping := mapping[el := id];
      after := after[id := row];
      i := i + 1;
    }
    assert list[..i] == list;
  }

  lemma OneMoreRoleCopy(table: RoleTable, after: RoleTable, m: map<Id, Id>, members: map<Id, Id>, roles: map<Id, Id>,
                        el: Id, id: Id)
    requires RoleRowsCopied(table, after, m, members, roles)
    requires el in RolesThrough(table, members.Keys) && el !in m && id !in after
    ensures m[el := id].Keys == m.Keys + {el}
    ensures RoleRowsCopied(table, after[id := RemappedRole(table[el], members, roles)], m[el := id], members, roles)
  {
    var m', after' := m[el := id], after[id := RemappedRole(table[el], members, roles)];
    ValuesOfExtension(m, el, id);
    assert forall k :: k in m ==> m[k] in m.Values;
    assert after'.Keys == table.Keys + m'.Values;
  }

  /** The same for the reserved keys of a project, each under a new slug. */
  method CopyReservedKeys(table: KeyTable, src: Id, dst: Id) returns (after: KeyTable, mapping: map<Id, Id>)
    ensures mapping.Keys == ReservedKeysOf(table, src) && IsKeyCopy(table, after, mapping, dst)
  {
    var list := Enumerate(ReservedKeysOf(table, src));
    after, mapping := table, map[];
    var i := 0;
    while i < |list|
      invariant 0 <= i <= |list|
      invariant mapping.Keys == Elements(list[..i])
      invariant IsKeyCopy(table, after, mapping, dst)
    {
      var el := list[i];
      NextInOrder(list, i);
      assert el in ReservedKeysOf(table, src);
      var id := NewUuid(after.Keys);
      var slug := NewSlug(table[el].slug);
      OneMoreKeyCopy(table, after, mapping, dst, el, id, slug);
      mapping := mapping[el := id];
      after := after[id := table[el].(projectId := Some(dst), slug := slug)];
      i := i + 1;
    }
    assert list[..i] == list;
  }

  lemma OneMoreKeyCopy(table: KeyTable, after: KeyTable, m: map<Id, Id>, dst: Id, el: Id, id: Id, slug: string)
    requires IsKeyCopy(table, after, m, dst) && el in table && el !in m && id !in after
    ensures m[el := id].Keys == m.Keys + {el}
    ensures IsKeyCopy(table, after[id := table[el].(projectId := Some(dst), slug := slug)], m[el := id], dst)
  {
    var m', after' := m[el := id], after[id := table[el].(projectId := Some(dst), slug := slug)];
    ValuesOfExtension(m, el, id);
    assert forall k :: k in m ==> m[k] in m.Values;
    assert after'.Keys == table.Keys + m'.Values;
  }

  /** Memberships of one kind, then the roles held through them. */
  method CopyMemberships(members: OwnedTable, roles: RoleTable, src: Id, dst: Id, customRoles: map<Id, Id>)
    returns (members': OwnedTable, roles': RoleTable, mm: map<Id, Id>, rm: map<Id, Id>)
    ensures MembershipsCopied(members, members', roles, roles', mm, rm, customRoles, src, dst)
  {
    members', mm := CopyOwned(members, RowsOf(members, src), dst);
    roles', rm := CopyMemberRoles(roles, mm, customRoles);
  }

  /** The loop over the certificate splits, for one of the three tables it updates. */
  method MoveOwnedBack(table: OwnedTable, splits: seq<Split>) returns (back: OwnedTable)
    ensures back == MoveBack(table, splits)
  {
    back := table;
    var i := 0;
    while i < |splits|
      invariant 0 <= i <= |splits|
      invariant MoveBack(back, splits[i..]) == MoveBack(table, splits)
    {
      assert splits[i..][1..] == splits[i + 1..];
      if splits[i].kind == CertificateManager {
        back := Rehome(back, splits[i].dst, splits[i].src);
      }
      i := i + 1;
    }
  }

  /** The loop over the KMS splits. */
  method MoveCmekBack(table: KeyTable, splits: seq<Split>) returns (back: KeyTable)
    ensures back == MoveKeysBack(table, splits)
  {
    back := table;
    var i := 0;
    while i < |splits|
      invariant 0 <= i <= |splits|
      invariant MoveKeysBack(back, splits[i..]) == MoveKeysBack(table, splits)
    {
      assert splits[i..][1..] == splits[i + 1..];
      if splits[i].kind == KMS {
        back := RehomeKeys(back, splits[i].dst, splits[i].src);
      }
      i := i + 1;
    }
  }

  function UntypedProjects(projects: map<Id, Project>): set<Id> {
    set p | p in projects && projects[p].kind.None?
  }

  function ProjectsWithCertificates(t: Tables): set<Id> {
    set id | id in t.cas :: t.cas[id].projectId
  }

  function ProjectsWithCmek(keys: KeyTable): set<Id> {
    set id | id in keys && keys[id].isReserved == Some(false) && keys[id].projectId.Some? :: keys[id].projectId.value
  }

  /** The tables after `up`: certificate projects are split off exactly the projects that own a
      certificate authority, KMS projects off exactly those that own a key that is not reserved. */
  ghost predicate SplitUp(t0: Tables, t: Tables) {
    && SplitState(t0, t)
    && (forall p :: HasSplit(t.splits, p, CertificateManager) <==> p in ProjectsWithCertificates(t0))
    && (forall p :: HasSplit(t.splits, p, KMS) <==> p in ProjectsWithCmek(t0.keys))
    && (forall s :: s in t.splits ==> s.kind != SecretManager)
  }

  /** Exactly the first `i` projects of the list have been split for the product. */
  ghost predicate SplitUpTo(splits: seq<Split>, list: seq<Id>, i: nat, kind: ProjectType)
    requires i <= |list|
  {
    forall p :: HasSplit(splits, p, kind) <==> p in Elements(list[..i])
  }

  ghost predicate SameOtherSplits(before: seq<Split>, after: seq<Split>, kind: ProjectType) {
    forall p, k :: k != kind ==> (HasSplit(after, p, k) <==> HasSplit(before, p, k))
  }

  lemma NotYetSplit(splits: seq<Split>, list: seq<Id>, i: nat, kind: ProjectType)
    requires i < |list| && NoDuplicates(list) && SplitUpTo(splits, list, i, kind)
    ensures !HasSplit(splits, list[i], kind)
  {
    NextInOrder(list, i);
  }

  lemma SplitUpToGrows(splits: seq<Split>, list: seq<Id>, i: nat, s: Split)
    requires i < |list| && NoDuplicates(list) && s.src == list[i] && SplitUpTo(splits, list, i, s.kind)
    ensures SplitUpTo(splits + [s], list, i + 1, s.kind)
    ensures SameOtherSplits(splits, splits + [s], s.kind)
  {
    NextInOrder(list, i);
    OneMoreSplit(splits, s);
  }

  lemma WholeListSplit(splits: seq<Split>, list: seq<Id>, all: set<Id>, kind: ProjectType)
    requires SplitUpTo(splits, list, |list|, kind) && forall p :: p in list <==> p in all
    ensures forall p :: HasSplit(splits, p, kind) <==> p in all
  {
    assert list[..|list|] == list;
  }

  lemma NothingSplitYet(t0: Tables, t: Tables)
    requires Untyped(t0) && t == t0.(projects := t.projects) && t.projects.Keys == t0.projects.Keys
    requires forall p :: p in t.projects ==> t.projects[p] == t0.projects[p].(kind := Some(SecretManager))
    ensures SplitState(t0, t)
  {
    assert Destinations(t.splits) == {};
    NoProductsMovedYet(t0, t);
    assert MembersSplit(t0, t);
  }

  lemma NoProductsMovedYet(t0: Tables, t: Tables)
    requires t == t0.(projects := t.projects) && t.splits == []
    ensures ProductsSplit(t0, t)
  {
    assert forall p, kind :: !HasSplit(t.splits, p, kind);
  }

  /** As long as no KMS project is split off, the keys that are not reserved are the original ones. */
  lemma CmekProjectsAreOriginal(t0: Tables, t: Tables)
    requires SplitState(t0, t) && Consistent(t0)
    requires forall p :: !HasSplit(t.splits, p, KMS)
    ensures ProjectsWithCmek(t.keys) == ProjectsWithCmek(t0.keys)
    ensures ProjectsWithCmek(t0.keys) <= t0.projects.Keys
  {
    forall id | id in t0.keys ensures t.keys[id] == t0.keys[id] {
      assert KeyMoved(t0.keys[id], t.keys[id], t.splits);
    }
    forall p | p in ProjectsWithCmek(t0.keys) ensures p in ProjectsWithCmek(t.keys) {
      var id :| id in t0.keys && t0.keys[id].isReserved == Some(false) && t0.keys[id].projectId == Some(p);
      assert t.keys[id] == t0.keys[id];
    }
  }

  /** Up, then down, with nothing written in between: every table is back exactly as it was if and only
      if, in the original tables, no project owning a certificate authority or a key that is not
      reserved has a group or identity role row carrying one of its own custom roles. Otherwise the
      foreign key makes `down` fail. */
  lemma RoundTripExactlyWhen(t0: Tables, t: Tables)
    requires Consistent(t0) && Untyped(t0) && SplitUp(t0, t)
    ensures DownTables(t) == Some(t0)
            <==> forall p :: p in ProjectsWithCertificates(t0) + ProjectsWithCmek(t0.keys) ==> !BlockedSource(t0, p)
    ensures DownTables(t) == None
            <==> exists p :: p in ProjectsWithCertificates(t0) + ProjectsWithCmek(t0.keys) && BlockedSource(t0, p)
  {
    DownUndoesUp(t0, t);
    SplitSources(t0, t.splits, ProjectsWithCertificates(t0), ProjectsWithCmek(t0.keys));
  }

  lemma SplitSources(t0: Tables, splits: seq<Split>, certificates: set<Id>, cmek: set<Id>)
    requires forall p :: HasSplit(splits, p, CertificateManager) <==> p in certificates
    requires forall p :: HasSplit(splits, p, KMS) <==> p in cmek
    requires forall s :: s in splits ==> s.kind != SecretManager
    ensures BlockedSplit(t0, splits) <==> exists p :: p in certificates + cmek && BlockedSource(t0, p)
  {
    if BlockedSplit(t0, splits) {
      var s :| s in splits && BlockedSource(t0, s.src);
      assert HasSplit(splits, s.src, s.kind);
      assert s.src in certificates + cmek;
    }
    forall p | p in certificates + cmek && BlockedSource(t0, p) ensures BlockedSplit(t0, splits) {
      assert HasSplit(splits, p, CertificateManager) || HasSplit(splits, p, KMS);
    }
  }

  /** The destination owns a row of the product it was split off for. */
  predicate ReceivedARow(t: Tables, s: Split) {
    if s.kind == CertificateManager then exists id :: id in t.cas && t.cas[id].projectId == s.dst
    else exists id :: id in t.keys && t.keys[id].isReserved == Some(false) && t.keys[id].projectId == Some(s.dst)
  }

  /** What `up` is for: afterwards no certificate authority and no key that is not reserved belongs to an
      original project any more, and no destination has been made in vain: each received such a row. */
  lemma ProductsLiveInTheirProjects(t0: Tables, t: Tables)
    requires Consistent(t0) && SplitUp(t0, t)
    ensures forall id :: id in t.cas ==>
              exists s {:trigger s in t.splits} :: s in t.splits && s.kind == CertificateManager
                && s.src == t0.cas[id].projectId && s.dst == t.cas[id].projectId
    ensures forall id :: id in t.keys && t.keys[id].isReserved == Some(false) && t.keys[id].projectId.Some? ==>
              exists s {:trigger s in t.splits} :: s in t.splits && s.kind == KMS
                && Some(s.src) == t0.keys[id].projectId && Some(s.dst) == t.keys[id].projectId
    ensures forall s :: s in t.splits ==> ReceivedARow(t, s)
  {
    forall id | id in t.cas
      ensures Split(t0.cas[id].projectId, CertificateManager, t.cas[id].projectId) in t.splits
    {
      assert t0.cas[id].projectId in ProjectsWithCertificates(t0);
    }
    forall id | id in t.keys && t.keys[id].isReserved == Some(false) && t.keys[id].projectId.Some?
      ensures id in t0.keys && t0.keys[id].projectId.Some?
      ensures Split(t0.keys[id].projectId.value, KMS, t.keys[id].projectId.value) in t.splits
    {
      CmekIsMoved(t0, t, id);
    }
    forall s | s in t.splits ensures ReceivedARow(t, s)
    {
      SplitReceivesARow(t0, t, s);
    }
  }

  lemma CmekIsMoved(t0: Tables, t: Tables, id: Id)
    requires SplitUp(t0, t)
    requires id in t.keys && t.keys[id].isReserved == Some(false) && t.keys[id].projectId.Some?
    ensures id in t0.keys && t0.keys[id].projectId.Some?
    ensures Split(t0.keys[id].projectId.value, KMS, t.keys[id].projectId.value) in t.splits
  {
    assert KeyMoved(t0.keys[id], t.keys[id], t.splits);
    assert t0.keys[id].projectId.value in ProjectsWithCmek(t0.keys);
  }

  lemma SplitReceivesARow(t0: Tables, t: Tables, s: Split)
    requires SplitUp(t0, t) && s in t.splits
    ensures ReceivedARow(t, s)
  {
    assert HasSplit(t.splits, s.src, s.kind);
    if s.kind == CertificateManager {
      var id :| id in t0.cas && t0.cas[id].projectId == s.src;
      OneSplitPerProduct(t0, t.splits, s, Split(s.src, s.kind, t.cas[id].projectId));
    } else {
      var id :| id in t0.keys && t0.keys[id].isReserved == Some(false) && t0.keys[id].projectId == Some(s.src);
      assert KeyMoved(t0.keys[id], t.keys[id], t.splits);
      OneSplitPerProduct(t0, t.splits, s, Split(s.src, s.kind, t.keys[id].projectId.value));
    }
  }

  lemma OneSplitPerProduct(t0: Tables, splits: seq<Split>, a: Split, b: Split)
    requires SplitsOk(t0.projects.Keys, splits) && a in splits && b in splits && a.src == b.src && a.kind == b.kind
    ensures a == b
  {
  }

  /** Such tables exist: a project with a certificate authority and a group whose membership carries a
      custom role of the project. */
  lemma BlockedTables() returns (t0: Tables)
    ensures Consistent(t0) && Untyped(t0)
    ensures 0 in ProjectsWithCertificates(t0) && BlockedSource(t0, 0)
  {
    t0 := Tables(
      map[0 := Project(None, "p", "")],
      map[1 := Owned(0, "role")],
      map[2 := Owned(0, "group")], map[3 := MemberRole(2, Some(1), "")],
      map[], map[], map[], map[], map[], map[], map[],
      map[4 := Owned(0, "ca")], map[], map[],
      []);
    assert t0.groupRoles[3].membershipId in RowsOf(t0.groupMembers, 0);
    assert t0.groupRoles[3].customRoleId.value in RowsOf(t0.roles, 0);
    assert t0.cas[4].projectId in ProjectsWithCertificates(t0);
  }

  /** Whatever `up` leaves of them, `down` fails. */
  lemma DownFails(t0: Tables, t: Tables)
    requires Consistent(t0) && Untyped(t0) && SplitUp(t0, t)
    requires 0 in ProjectsWithCertificates(t0) && BlockedSource(t0, 0)
    ensures DownTables(t) == None
  {
    RoundTripExactlyWhen(t0, t);
  }

  class Database {
    var t: Tables
    var hasTypeColumn: bool
    var hasSplitMappingTable: bool

    constructor (t: Tables, hasTypeColumn: bool, hasSplitMappingTable: bool)
      ensures this.t == t && this.hasTypeColumn == hasTypeColumn && this.hasSplitMappingTable == hasSplitMappingTable
    {
      this.t, this.hasTypeColumn, this.hasSplitMappingTable := t, hasTypeColumn, hasSplitMappingTable;
    }

    method CopyMembers(src: Id, dst: Id) returns (ghost c: CopyMaps)
      modifies this`t
      ensures MembersCopied(old(t), t, src, dst, c)
      ensures t == old(t).(roles := t.roles, groupMembers := t.groupMembers, groupRoles := t.groupRoles,
                           identityMembers := t.identityMembers, identityRoles := t.identityRoles,
                           userMembers := t.userMembers, userRoles := t.userRoles)
    {
      var roles, customRoleMapping := CopyOwned(t.roles, RowsOf(t.roles, src), dst);
      var groups, groupRoles, gm, gr := CopyMemberships(t.groupMembers, t.groupRoles, src, dst, customRoleMapping);
      var identities, identityRoles, im, ir := CopyMemberships(t.identityMembers, t.identityRoles, src, dst,
                                                               customRoleMapping);
      var users, userRoles, um, ur := CopyMemberships(t.userMembers, t.userRoles, src, dst, customRoleMapping);
      c := CopyMaps(customRoleMapping, gm, gr, im, ir, um, ur, map[], map[], map[]);
      t := t.(roles := roles, groupMembers := groups, groupRoles := groupRoles,
              identityMembers := identities, identityRoles := identityRoles, userMembers := users,
                  userRoles := userRoles);
    }

    method CopyProducts(src: Id, dst: Id) returns (ghost c: CopyMaps)
      modifies this`t
      ensures ProductsCopied(old(t), t, src, dst, c)
      ensures t == old(t).(keys := t.keys, bots := t.bots, projectKeys := t.projectKeys)
    {
      var keys, km := CopyReservedKeys(t.keys, src, dst);
      var firstBot := TakeSome(RowsOf(t.bots, src), 1);
      var bots, bm := CopyOwned(t.bots, firstBot, dst);
      var projectKeys, pm := CopyOwned(t.projectKeys, RowsOf(t.projectKeys, src), dst);
      c := CopyMaps(map[], map[], map[], map[], map[], map[], map[], km, bm, pm);
      t := t.(keys := keys, bots := bots, projectKeys := projectKeys);
    }

    /** newProject: the project with its roles, memberships, reserved keys, bot and project keys. */
    method NewProject(src: Id, kind: ProjectType) returns (newProjectId: Id, ghost c: CopyMaps)
      requires src in t.projects
      modifies this`t
      ensures Copied(old(t), t, src, kind, newProjectId, c)
    {
      newProjectId := NewUuid(t.projects.Keys);
      var slug := NewSlug(t.projects[src].slug);
      t := t.(projects := t.projects[newProjectId := t.projects[src].(kind := Some(kind), slug := slug)]);
      c := CopyMembers(src, newProjectId);
      ghost var p := CopyProducts(src, newProjectId);
      c := c.(keys := p.keys, bots := p.bots, projectKeys := p.projectKeys);
    }

    /** One round of either loop of `up`: copy the project, move the product's rows, record the split. */
    method SplitProject(ghost t0: Tables, src: Id, kind: ProjectType) returns (newProjectId: Id, ghost c: CopyMaps,
                                                                               ghost b: Tables)
      requires Consistent(t0) && SplitState(t0, t) && src in t0.projects
      requires kind == CertificateManager || kind == KMS
      requires !HasSplit(t.splits, src, kind)
      modifies this`t
      ensures SplitState(t0, t) && t.splits == old(t).splits + [Split(src, kind, newProjectId)]
      ensures SplitsOff(t0, old(t), t, Split(src, kind, newProjectId))
      ensures src in old(t).projects && Copied(old(t), b, src, kind, newProjectId, c)
      ensures t == AfterMove(b, src, kind, newProjectId)
    {
      ghost var before := t;
      assert src in t.projects;
      newProjectId, c := NewProject(src, kind);
      b := t;
      if kind == CertificateManager {
        t := t.(cas := Rehome(t.cas, src, newProjectId));
        t := t.(alerts := Rehome(t.alerts, src, newProjectId));
        t := t.(collections := Rehome(t.collections, src, newProjectId));
      } else {
        t := t.(keys := RehomeKeys(t.keys, src, newProjectId));
      }
      t := t.(splits := t.splits + [Split(src, kind, newProjectId)]);
      SplitFollows(t0, before, b, src, kind, newProjectId, c);
      CopyAndMoveSplitsOff(t0, before, b, src, kind, newProjectId, c);
    }

    /** Gives every project without a type the type of the first product, in batches. */
    method TypeProjects()
      modifies this`t
      ensures t == old(t).(projects := t.projects) && t.projects.Keys == old(t).projects.Keys
      ensures forall p :: p in t.projects ==>
                t.projects[p] == if old(t).projects[p].kind.None? then old(t).projects[p].(kind := Some(SecretManager))
                                 else old(t).projects[p]
    {
      while true
        invariant t == old(t).(projects := t.projects) && t.projects.Keys == old(t).projects.Keys
        invariant forall p :: p in t.projects ==>
                    t.projects[p] == old(t).projects[p] ||
                    (old(t).projects[p].kind.None? && t.projects[p] == old(t).projects[p].(kind := Some(SecretManager)))
        decreases |UntypedProjects(t.projects)|
      {
        var projectsToBeTyped := TakeSome(UntypedProjects(t.projects), BATCH_SIZE);
        if |projectsToBeTyped| == 0 {
          break;
        }
        ghost var before := t.projects;
        t := t.(projects := map p | p in t.projects ::
                  if p in projectsToBeTyped then t.projects[p].(kind := Some(SecretManager)) else t.projects[p]);
        assert UntypedProjects(t.projects) == UntypedProjects(before) - projectsToBeTyped;
      }
      assert UntypedProjects(t.projects) == {};
      forall p | p in t.projects ensures t.projects[p].kind.Some? {
        assert p !in UntypedProjects(t.projects);
      }
    }

    /** The migration. It splits a certificate project off exactly the projects that own a certificate
        authority, and a KMS project off exactly those that own a key that is not reserved, moving
        the product's rows along. At the end every destination project mirrors the roles and
        memberships its source had. With the type column already there it does nothing to the rows. */
    method Up()
      requires Consistent(t) && (!hasTypeColumn ==> Untyped(t))
      modifies this
      ensures hasTypeColumn && hasSplitMappingTable
      ensures old(hasTypeColumn) ==> t == old(t)
      ensures !old(hasTypeColumn) ==>
                SplitUp(old(t), t) && AllMirrored(old(t), t)
    {
      hasSplitMappingTable := true;
      if !hasTypeColumn {
        hasTypeColumn := true;
        TypeProjects();
        ghost var t0 := old(t);
        NothingSplitYet(t0, t);
        SplitCertificates(t0);
        SplitCmek(t0);
      }
    }

    /** The round again, with what it means for the loops: one more project has been split. */
    method SplitNext(ghost t0: Tables, list: seq<Id>, i: nat, kind: ProjectType)
      requires i < |list| && NoDuplicates(list) && list[i] in t0.projects
      requires kind == CertificateManager || kind == KMS
      requires Consistent(t0) && SplitState(t0, t) && AllMirrored(t0, t) && SplitUpTo(t.splits, list, i, kind)
      modifies this`t
      ensures SplitState(t0, t) && AllMirrored(t0, t) && SplitUpTo(t.splits, list, i + 1, kind)
      ensures SameOtherSplits(old(t).splits, t.splits, kind)
    {
      NotYetSplit(t.splits, list, i, kind);
      ghost var before := t;
      var newProjectId, c, b := SplitProject(t0, list[i], kind);
      MirrorsFollow(t0, before, t, Split(list[i], kind, newProjectId));
      SplitUpToGrows(before.splits, list, i, Split(list[i], kind, newProjectId));
    }

    /** The loop over the projects to be split for one product. */
    method SplitAll(ghost t0: Tables, list: seq<Id>, kind: ProjectType)
      requires NoDuplicates(list) && forall p :: p in list ==> p in t0.projects
      requires kind == CertificateManager || kind == KMS
      requires Consistent(t0) && SplitState(t0, t) && AllMirrored(t0, t)
      requires forall p :: !HasSplit(t.splits, p, kind)
      modifies this`t
      ensures SplitState(t0, t) && AllMirrored(t0, t)
      ensures SplitUpTo(t.splits, list, |list|, kind)
      ensures SameOtherSplits(old(t).splits, t.splits, kind)
    {
      var i := 0;
      while i < |list|
        invariant 0 <= i <= |list|
        invariant SplitState(t0, t) && AllMirrored(t0, t) && SplitUpTo(t.splits, list, i, kind)
        invariant SameOtherSplits(old(t).splits, t.splits, kind)
      {
        SplitNext(t0, list, i, kind);
        i := i + 1;
      }
    }

    method SplitCertificates(ghost t0: Tables)
      requires Consistent(t0) && SplitState(t0, t) && t.splits == [] && t.cas == t0.cas
      modifies this`t
      ensures SplitState(t0, t) && AllMirrored(t0, t)
      ensures forall p :: HasSplit(t.splits, p, CertificateManager) <==> p in ProjectsWithCertificates(t0)
      ensures forall p :: !HasSplit(t.splits, p, KMS)
    {
      var list := Enumerate(ProjectsWithCertificates(t));
      assert forall p :: p in list ==> p in t0.projects;
      SplitAll(t0, list, CertificateManager);
      WholeListSplit(t.splits, list, ProjectsWithCertificates(t0), CertificateManager);
    }

    method SplitCmek(ghost t0: Tables)
      requires Consistent(t0) && SplitState(t0, t) && AllMirrored(t0, t)
      requires forall p :: !HasSplit(t.splits, p, KMS)
      modifies this`t
      ensures SplitState(t0, t) && AllMirrored(t0, t)
      ensures forall p :: HasSplit(t.splits, p, KMS) <==> p in ProjectsWithCmek(t0.keys)
      ensures SameOtherSplits(old(t).splits, t.splits, KMS)
    {
      CmekProjectsAreOriginal(t0, t);
      var list := Enumerate(ProjectsWithCmek(t.keys));
      assert forall p :: p in list ==> p in t0.projects;
      SplitAll(t0, list, KMS);
      WholeListSplit(t.splits, list, ProjectsWithCmek(t0.keys), KMS);
    }

    /** The reverse migration, in one transaction: move rows back, delete the copied memberships, roles
        and projects, drop the column and the mapping table. */
    method Down() returns (ok: bool)
      modifies this
      ensures old(hasTypeColumn && hasSplitMappingTable) ==>
                && ok == DownTables(old(t)).Some?
                && (ok ==> Some(t) == DownTables(old(t)) && !hasTypeColumn && !hasSplitMappingTable)
                && (!ok ==> t == old(t) && hasTypeColumn && hasSplitMappingTable)
      ensures !old(hasTypeColumn && hasSplitMappingTable) ==>
                && ok && !hasSplitMappingTable && hasTypeColumn == old(hasTypeColumn)
                && t == if old(hasSplitMappingTable) then old(t).(splits := []) else old(t)
    {
      if hasTypeColumn && hasSplitMappingTable {
        var d := Destinations(t.splits);
        var cas := MoveOwnedBack(t.cas, t.splits);
        var alerts := MoveOwnedBack(t.alerts, t.splits);
        var collections := MoveOwnedBack(t.collections, t.splits);
        var keys := MoveCmekBack(t.keys, t.splits);
        var users := WithoutProjects(t.userMembers, d);
        var userRoles := RolesWithin(t.userRoles, users.Keys);
        var roles := WithoutProjects(t.roles, d);
        var gone := t.roles.Keys - roles.Keys;
        if Blocks(t.groupRoles, gone) || Blocks(t.identityRoles, gone) || Blocks(userRoles, gone) {
          return false;
        }
        var groups := WithoutProjects(t.groupMembers, d);
        var identities := WithoutProjects(t.identityMembers, d);
        t := Tables(
          map p | p in t.projects && p !in d :: t.projects[p].(kind := None),
          roles,
          groups, RolesWithin(t.groupRoles, groups.Keys),
          identities, RolesWithin(t.identityRoles, identities.Keys),
          users, userRoles,
          KeysWithoutProjects(keys, d), WithoutProjects(t.bots, d), WithoutProjects(t.projectKeys, d),
          WithoutProjects(cas, d), WithoutProjects(alerts, d), WithoutProjects(collections, d),
          []);
        hasTypeColumn := false;
      }
      if hasSplitMappingTable {
        t := t.(splits := []);
        hasSplitMappingTable := false;
      }
      ok := true;
    }

    /** Both migrations, one after the other. The second succeeds exactly if no project that owns a
        certificate authority or a key that is not reserved is blocked, and then every table is back as
        it was. */
    method UpThenDown() returns (ok: bool)
      requires Consistent(t) && Untyped(t) && !hasTypeColumn
      modifies this
      ensures ok <==> forall p :: p in ProjectsWithCertificates(old(t)) + ProjectsWithCmek(old(t).keys) ==>
                        !BlockedSource(old(t), p)
      ensures ok ==> t == old(t) && !hasTypeColumn && !hasSplitMappingTable
    {
      ghost var t0 := t;
      Up();
      RoundTripExactlyWhen(t0, t);
      ok := Down();
    }
  }
}
