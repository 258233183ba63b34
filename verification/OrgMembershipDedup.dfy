/** db/migrations/20240405000045_org-memberships-unique-constraint.ts: in one transaction, keep one
    membership of every user and organization pair and delete the others. */
module OrgMembershipDedup {
  import opened Prelude

  type Id = string

  datatype Membership = Membership(
    userId: Option<Id>, orgId: Id, inviteEmail: Option<string>, role: string, roleId: Option<Id>, status: string,
    createdAt: int)

  type Table = map<Id, Membership>

  /** Which of the compared fields differs first. */
  datatype Mismatch = InviteEmails | OrgIds | Roles | RoleIds | Statuses | UserIds

  /** The order in which the fields are compared. */
  function Position(m: Mismatch): nat {
    match m
    case InviteEmails => 1
    case OrgIds => 2
    case Roles => 3
    case RoleIds => 4
    case Statuses => 5
    case UserIds => 6
  }

  predicate Differs(m: Mismatch, a: Membership, b: Membership) {
    match m
    case InviteEmails => a.inviteEmail != b.inviteEmail
    case OrgIds => a.orgId != b.orgId
    case Roles => a.role != b.role
    case RoleIds => a.roleId != b.roleId
    case Statuses => a.status != b.status
    case UserIds => a.userId != b.userId
  }

  /** Two memberships agree on every validated field. */
  predicate Agree(a: Membership, b: Membership) {
    && a.inviteEmail == b.inviteEmail && a.orgId == b.orgId && a.role == b.role
    && a.roleId == b.roleId && a.status == b.status && a.userId == b.userId
  }

  /** validateOrgMembership: the error it throws, if any, which names the first field that differs. A row
      is not compared with itself. */
  function ValidateOrgMembership(id: Id, row: Membership, firstId: Id, first: Membership): (r: Option<Mismatch>)
    ensures r.None? <==> id == firstId || Agree(row, first)
    ensures r.Some? ==> Differs(r.value, row, first)
    ensures r.Some? ==> forall m :: Differs(m, row, first) ==> Position(r.value) <= Position(m)
  {
    if id == firstId then None
    else if row.inviteEmail != first.inviteEmail then Some(InviteEmails)
    else if row.orgId != first.orgId then Some(OrgIds)
    else if row.role != first.role then Some(Roles)
    else if row.roleId != first.roleId then Some(RoleIds)
    else if row.status != first.status then Some(Statuses)
    else if row.userId != first.userId then Some(UserIds)
    else None
  }

  /** A user and an organization. */
  datatype Pair = Pair(userId: Id, orgId: Id)

  /** The rows of one pair; rows without a user belong to none. */
  function RowsOf(rows: Table, p: Pair): set<Id> {
    set id | id in rows && rows[id].userId == Some(p.userId) && rows[id].orgId == p.orgId
  }

  function PairsIn(rows: Table): set<Pair> {
    set id | id in rows && rows[id].userId.Some? :: Pair(rows[id].userId.value, rows[id].orgId)
  }

  /** GROUP BY "userId", "orgId" HAVING count(*) > 1. */
  function DuplicatePairs(rows: Table): set<Pair> {
    set p | p in PairsIn(rows) && |RowsOf(rows, p)| > 1
  }

  ghost predicate AllAgree(rows: Table, ids: set<Id>)
    requires ids <= rows.Keys
  {
    forall a, b :: a in ids && b in ids ==> Agree(rows[a], rows[b])
  }

  /** No pair has two rows that differ in a validated field. */
  ghost predicate Consistent(rows: Table) {
    forall p :: p in PairsIn(rows) ==> AllAgree(rows, RowsOf(rows, p))
  }

  /** `keep` is the one row left of pair `p`: an earliest one, agreeing with all it replaces. */
  ghost predicate Survives(before: Table, after: Table, p: Pair, keep: Id) {
    && keep in RowsOf(before, p)
    && RowsOf(after, p) == {keep}
    && (forall id :: id in RowsOf(before, p) ==>
          before[keep].createdAt <= before[id].createdAt && Agree(before[id], before[keep]))
  }

  /** Rows are only deleted, never changed, and only rows that have a user. */
  ghost predicate OnlyDeletes(before: Table, after: Table) {
    && after.Keys <= before.Keys
    && (forall id :: id in after ==> after[id] == before[id])
    && (forall id :: id in before && before[id].userId.None? ==> id in after)
  }

  /** The pairs of `done` have been reduced to one row each, all others are as before. */
  ghost predicate Progress(before: Table, after: Table, done: set<Pair>) {
    && OnlyDeletes(before, after)
    && (forall p :: p in done ==> exists keep :: Survives(before, after, p, keep))
    && (forall p :: p !in done ==> RowsOf(after, p) == RowsOf(before, p))
  }

  predicate SamePair(a: Membership, b: Membership) {
    a.userId.Some? && a.userId == b.userId && a.orgId == b.orgId
  }

  /** The unique constraint the migration adds holds. */
  ghost predicate Unique(rows: Table) {
    forall a, b :: a in rows && b in rows && SamePair(rows[a], rows[b]) ==> a == b
  }

  lemma ReducingOnePair(before: Table, tx: Table, done: set<Pair>, p: Pair, keep: Id)
    requires Progress(before, tx, done) && p !in done
    requires keep in RowsOf(tx, p)
    requires AllAgree(tx, RowsOf(tx, p))
    requires forall id :: id in RowsOf(tx, p) ==> tx[keep].createdAt <= tx[id].createdAt
    ensures Progress(before, tx - (RowsOf(tx, p) - {keep}), done + {p})
  {
    var after := tx - (RowsOf(tx, p) - {keep});
    assert RowsOf(before, p) == RowsOf(tx, p);
    assert RowsOf(after, p) == {keep};
    assert Survives(before, after, p, keep);
    forall q | q != p ensures RowsOf(after, q) == RowsOf(tx, q) {}
    forall q | q in done + {p} ensures exists k :: Survives(before, after, q, k) {
      if q != p {
        var k :| Survives(before, tx, q, k);
        assert Survives(before, after, q, k);
      }
    }
  }

  lemma SingleRow(rows: Table, p: Pair)
    requires p in PairsIn(rows) && p !in DuplicatePairs(rows)
    ensures exists id :: RowsOf(rows, p) == {id}
  {
    var id :| id in rows && rows[id].userId.Some? && p == Pair(rows[id].userId.value, rows[id].orgId);
    assert id in RowsOf(rows, p);
    var rest := RowsOf(rows, p) - {id};
    assert |rest| == 0;
    assert RowsOf(rows, p) == {id};
  }

  lemma SurvivorMeansAgreement(before: Table, after: Table, p: Pair, keep: Id)
    requires Survives(before, after, p, keep)
    ensures AllAgree(before, RowsOf(before, p))
  {
  }

  /** When all duplicated pairs are reduced, every pair is. */
  lemma AllPairsReduced(before: Table, after: Table)
    requires Progress(before, after, DuplicatePairs(before))
    ensures Consistent(before)
    ensures forall p :: p in PairsIn(before) ==> exists keep :: Survives(before, after, p, keep)
    ensures Unique(after)
  {
    forall p | p in PairsIn(before)
      ensures AllAgree(before, RowsOf(before, p)) && exists keep :: Survives(before, after, p, keep)
    {
      if p !in DuplicatePairs(before) {
        SingleRow(before, p);
        var id :| RowsOf(before, p) == {id};
        assert Survives(before, after, p, id);
      }
      var keep :| Survives(before, after, p, keep);
      SurvivorMeansAgreement(before, after, p, keep);
    }
    forall a, b | a in after && b in after && SamePair(after[a], after[b]) ensures a == b
    {
      var p := Pair(after[a].userId.value, after[a].orgId);
      assert p in PairsIn(before);
      var keep :| Survives(before, after, p, keep);
      assert a in RowsOf(after, p) && b in RowsOf(after, p);
    }
  }

  class OrgMembershipTable {
    var rows: Table

    constructor (rows: Table)
      ensures this.rows == rows
    {
      this.rows := rows;
    }

    /** The rows of a pair pass validation exactly if they all agree. */
    static method Validate(rows: Table, rowsToDelete: seq<Id>) returns (error: Option<Mismatch>)
      requires rowsToDelete != [] && forall id :: id in rowsToDelete ==> id in rows
      ensures error.None? <==> AllAgree(rows, Elements(rowsToDelete))
    {
      var first := rowsToDelete[0];
      error := None;
      var i := 0;
      while i < |rowsToDelete|
        invariant 0 <= i <= |rowsToDelete| && error.None?
        invariant forall j :: 0 <= j < i ==> Agree(rows[rowsToDelete[j]], rows[first])
      {
        error := ValidateOrgMembership(rowsToDelete[i], rows[rowsToDelete[i]], first, rows[first]);
        if error.Some? {
          assert first in Elements(rowsToDelete) && rowsToDelete[i] in Elements(rowsToDelete);
          return;
        }
        i := i + 1;
      }
      forall id | id in Elements(rowsToDelete) ensures Agree(rows[id], rows[first]) {
        var j :| 0 <= j < |rowsToDelete| && rowsToDelete[j] == id;
      }
    }

    /** The row with the lowest createdAt. */
    static method Earliest(rows: Table, rowsToDelete: seq<Id>) returns (keep: Id)
      requires rowsToDelete != [] && forall id :: id in rowsToDelete ==> id in rows
      ensures keep in rowsToDelete
      ensures forall id :: id in rowsToDelete ==> rows[keep].createdAt <= rows[id].createdAt
    {
      var lowestCreatedAt: Option<int> := None;
      var latestCreatedRow: Option<Id> := None;
      var i := 0;
      while i < |rowsToDelete|
        invariant 0 <= i <= |rowsToDelete|
        invariant latestCreatedRow.Some? == lowestCreatedAt.Some? == (i > 0)
        invariant i > 0 ==> latestCreatedRow.value in rowsToDelete
        invariant i > 0 ==> lowestCreatedAt.value == rows[latestCreatedRow.value].createdAt
        invariant forall j :: 0 <= j < i ==> lowestCreatedAt.value <= rows[rowsToDelete[j]].createdAt
      {
        var row := rows[rowsToDelete[i]];
        if lowestCreatedAt.None? || row.createdAt < lowestCreatedAt.value {
          lowestCreatedAt := Some(row.createdAt);
          latestCreatedRow := Some(rowsToDelete[i]);
        }
        i := i + 1;
      }
      keep := latestCreatedRow.value;
    }

    /** One round of the outer loop: validate the rows of a pair, delete all but an earliest. */
    static method ReducePair(tx: Table, p: Pair) returns (error: Option<Mismatch>, after: Table, ghost keep: Id)
      requires RowsOf(tx, p) != {}
      ensures error.None? <==> AllAgree(tx, RowsOf(tx, p))
      ensures error.None? ==>
                && keep in RowsOf(tx, p)
                && (forall id :: id in RowsOf(tx, p) ==> tx[keep].createdAt <= tx[id].createdAt)
                && after == tx - (RowsOf(tx, p) - {keep})
    {
      after, keep := tx, "";
      var rowsToDelete := Enumerate(RowsOf(tx, p));
      assert Elements(rowsToDelete) == RowsOf(tx, p);
      error := Validate(tx, rowsToDelete);
      if error.None? {
        var latestCreatedRow := Earliest(tx, rowsToDelete);
        var membershipIdsToDelete := set id | id in rowsToDelete && id != latestCreatedRow;
        keep := latestCreatedRow;
        assert membershipIdsToDelete == RowsOf(tx, p) - {keep};
        after := tx - membershipIdsToDelete;
      }
    }

    /** The migration. It succeeds exactly if every pair is consistent; then every pair that had a
        row has exactly one left, an earliest one, and (userId, orgId) is unique. On a mismatch the
        transaction leaves the table as it was. */
    method Up() returns (error: Option<Mismatch>)
      modifies this
      ensures error.None? <==> Consistent(old(rows))
      ensures error.Some? ==> rows == old(rows)
      ensures error.None? ==>
                && OnlyDeletes(old(rows), rows)
                && (forall p :: p in PairsIn(old(rows)) ==> exists keep :: Survives(old(rows), rows, p, keep))
                && Unique(rows)
    {
      var tx := rows;
      var duplicateRows := Enumerate(DuplicatePairs(rows));
      var i := 0;
      while i < |duplicateRows|
        invariant 0 <= i <= |duplicateRows|
        invariant rows == old(rows)
        invariant Progress(rows, tx, Elements(duplicateRows[..i]))
      {
        var p := duplicateRows[i];
        NextInOrder(duplicateRows, i);
        ghost var done := Elements(duplicateRows[..i]);
        assert p in DuplicatePairs(rows);
        assert RowsOf(tx, p) == RowsOf(rows, p);
        ghost var before := tx;
        ghost var keep;
        error, tx, keep := ReducePair(tx, p);
        if error.Some? {
          return;
        }
        ReducingOnePair(rows, before, done, p, keep);
        i := i + 1;
      }
      assert duplicateRows[..i] == duplicateRows;
      assert Elements(duplicateRows) == DuplicatePairs(rows);
      AllPairsReduced(rows, tx);
      error := None;
      rows := tx;
    }
  }
}
