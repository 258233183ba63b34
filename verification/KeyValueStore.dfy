/** keystore/key-value-store-dal.ts: the pruning loop over expired rows and what readers of the table
    see of it. */
module KeyValueStore {
  import opened Prelude

  const CACHE_KEY_PRUNE_BATCH_SIZE := 10000
  const MAX_RETRY_ON_FAILURE := 3

  datatype Row = Row(integerValue: Option<int>, expiresAt: Option<int>)

  type Table = map<string, Row>

  /** WHERE "expiresAt" < NOW(). */
  predicate Expired(row: Row, now: int) {
    row.expiresAt.Some? && row.expiresAt.value < now
  }

  function ExpiredKeys(rows: Table, now: int): set<string> {
    set key | key in rows && Expired(rows[key], now)
  }

  /** findOneInt: the value of a row without expiry or expiring later than now, otherwise 0. */
  function FindOneInt(rows: Table, key: string, now: int): int {
    if key in rows && (rows[key].expiresAt.None? || rows[key].expiresAt.value > now) && rows[key].integerValue.Some?
    then rows[key].integerValue.value
    else 0
  }

  /** `after` is `before` without some rows that were expired at `now`. */
  predicate Pruned(before: Table, after: Table, now: int) {
    && after.Keys <= before.Keys
    && (forall key :: key in after ==> after[key] == before[key])
    && (forall key :: key in before && key !in after ==> Expired(before[key], now))
  }

  lemma PrunedTrans(a: Table, b: Table, c: Table, s: int, t: int)
    requires Pruned(a, b, s) && Pruned(b, c, t) && s <= t
    ensures Pruned(a, c, t)
  {
    forall key | key in a && key !in c ensures Expired(a[key], t) {
      assert key in b ==> b[key] == a[key];
    }
  }

  /** What a read returns: a value written without expiry always, one with an expiry before that time and
      0 from then on, 0 for a null value and an absent key; and writing one key changes no other. */
  lemma WrittenValueIsRead(rows: Table, key: string, value: int, expiresAt: int, other: string, row: Row, now: int)
    ensures FindOneInt(rows[key := Row(Some(value), None)], key, now) == value
    ensures FindOneInt(rows[key := Row(Some(value), Some(expiresAt))], key, now)
         == if now < expiresAt then value else 0
    ensures row.integerValue.None? ==> FindOneInt(rows[key := row], key, now) == 0
    ensures FindOneInt(rows - {key}, key, now) == 0
    ensures other != key ==>
              && FindOneInt(rows[key := row], other, now) == FindOneInt(rows, other, now)
              && FindOneInt(rows - {key}, other, now) == FindOneInt(rows, other, now)
  {
  }

  /** A value is read until it expires, and 0 from then on, whatever is pruned after it was written. */
  lemma WrittenValueSurvivesPruning(rows: Table, key: string, value: int, expiresAt: Option<int>, after: Table,
                                    pruned: int, now: int)
    requires Pruned(rows[key := Row(Some(value), expiresAt)], after, pruned) && pruned <= now
    ensures FindOneInt(after, key, now) == if expiresAt.None? || now < expiresAt.value then value else 0
  {
    var before := rows[key := Row(Some(value), expiresAt)];
    PruningIsInvisible(before, after, pruned, key, now);
  }

  /** Pruning is invisible: a read at the prune time or later returns what it would have returned. */
  lemma PruningIsInvisible(before: Table, after: Table, pruned: int, key: string, now: int)
    requires Pruned(before, after, pruned) && pruned <= now
    ensures FindOneInt(after, key, now) == FindOneInt(before, key, now)
  {
    if key in before && key !in after {
      assert Expired(before[key], pruned);
    }
  }

  /** The exact condition on the two clocks: pruning at `pruned` is invisible to a read at `now`, for
      every table, whatever was pruned and whichever key is read, if and only if the reader's clock is at
      most one tick behind. Expiry is strict on both sides, so a row is spared by the reader and taken
      by the pruner only if it expires strictly between the two. */
  lemma PruningIsInvisibleExactlyWhen(pruned: int, now: int)
    ensures (forall before, after, key :: Pruned(before, after, pruned) ==>
               FindOneInt(after, key, now) == FindOneInt(before, key, now))
            <==> pruned <= now + 1
  {
    if pruned <= now + 1 {
      forall before, after, key | Pruned(before, after, pruned)
        ensures FindOneInt(after, key, now) == FindOneInt(before, key, now)
      {
        if key in before && key !in after {
          assert Expired(before[key], pruned);
        }
      }
    } else {
      var before: Table := map["k" := Row(Some(1), Some(now + 1))];
      assert Pruned(before, map[], pruned);
      assert FindOneInt(before, "k", now) == 1 && FindOneInt(map[], "k", now) == 0;
    }
  }

  /** How many of the first `n` rounds did not fail. */
  function Successes(fails: nat -> bool, n: nat): nat {
    if n == 0 then 0 else Successes(fails, n - 1) + if fails(n - 1) then 0 else 1
  }

  /** Deleting expired keys prunes, shrinks the table when it deletes anything, and leaves nothing
      expired when it deletes nothing. */
  lemma DeletionPrunes(rows: Table, deleted: set<string>, now: int)
    requires deleted <= ExpiredKeys(rows, now)
    requires |deleted| == Min(|ExpiredKeys(rows, now)|, CACHE_KEY_PRUNE_BATCH_SIZE)
    ensures Pruned(rows, rows - deleted, now)
    ensures |deleted| > 0 ==> |rows - deleted| < |rows|
    ensures |deleted| == 0 ==> rows - deleted == rows && ExpiredKeys(rows, now) == {}
  {
    assert (rows - deleted).Keys == rows.Keys - deleted;
    assert deleted <= rows.Keys;
    assert |rows.Keys - deleted| == |rows.Keys| - |deleted|;
    assert |rows| == |rows.Keys| && |rows - deleted| == |(rows - deleted).Keys|;
    if |deleted| == 0 {
      assert deleted == {};
      assert rows - deleted == rows;
    }
  }

  /** At most `most` rows are gone, and at least as many unless all that had expired by `start` are. */
  ghost predicate Removed(before: Table, after: Table, start: int, most: int) {
    Min(|ExpiredKeys(before, start)|, most) <= |before| - |after| <= most
  }

  /** One more batch: it is a full one, or nothing that had expired by `start` is left. */
  lemma DeletionRemoves(first: Table, rows: Table, deleted: set<string>, start: int, now: int, most: int)
    requires Pruned(first, rows, now) && start <= now && Removed(first, rows, start, most)
    requires deleted <= ExpiredKeys(rows, now)
    requires |deleted| == Min(|ExpiredKeys(rows, now)|, CACHE_KEY_PRUNE_BATCH_SIZE)
    ensures Removed(first, rows - deleted, start, most + CACHE_KEY_PRUNE_BATCH_SIZE)
  {
    var after := rows - deleted;
    assert after.Keys == rows.Keys - deleted && |after.Keys| == |rows.Keys| - |deleted|;
    assert |after| == |after.Keys| && |rows| == |rows.Keys| && |first| == |first.Keys|;
    if |deleted| < CACHE_KEY_PRUNE_BATCH_SIZE {
      AllDeleted(ExpiredKeys(rows, now), deleted);
      forall key | key in ExpiredKeys(first, start) ensures key in first.Keys - after.Keys {
        assert key in rows ==> key in ExpiredKeys(rows, now);
      }
      SubsetSize(ExpiredKeys(first, start), first.Keys - after.Keys);
      assert |first.Keys - after.Keys| == |first.Keys| - |after.Keys|;
    }
  }

  lemma AllDeleted(all: set<string>, deleted: set<string>)
    requires deleted <= all && |deleted| == |all|
    ensures deleted == all
  {
    assert |all - deleted| == 0;
  }

  lemma SubsetSize(a: set<string>, b: set<string>)
    requires a <= b
    ensures |a| <= |b|
  {
    assert |b - a| == |b| - |a|;
  }

  /** A round that does not fail. */
  lemma RoundPrunes(first: Table, rows: Table, deleted: set<string>, start: int, now: int, most: int)
    requires Pruned(first, rows, now) && start <= now && Removed(first, rows, start, most)
    requires deleted <= ExpiredKeys(rows, now)
    requires |deleted| == Min(|ExpiredKeys(rows, now)|, CACHE_KEY_PRUNE_BATCH_SIZE)
    ensures Pruned(first, rows - deleted, now)
    ensures Removed(first, rows - deleted, start, most + CACHE_KEY_PRUNE_BATCH_SIZE)
    ensures |deleted| > 0 ==> |rows - deleted| < |rows|
    ensures |deleted| == 0 ==> ExpiredKeys(rows - deleted, now) == {}
  {
    DeletionPrunes(rows, deleted, now);
    PrunedTrans(first, rows, rows - deleted, now, now);
    DeletionRemoves(first, rows, deleted, start, now, most);
  }

  lemma PrunedLater(before: Table, after: Table, s: int, t: int)
    requires Pruned(before, after, s) && s <= t
    ensures Pruned(before, after, t)
  {
  }

  lemma InvisibleFromThenOn(before: Table, after: Table, pruned: int)
    requires Pruned(before, after, pruned)
    ensures forall key: string, now: int ::
              now >= pruned ==> FindOneInt(after, key, now) == FindOneInt(before, key, now)
  {
    forall key: string, now: int | now >= pruned ensures FindOneInt(after, key, now) == FindOneInt(before, key, now) {
      PruningIsInvisible(before, after, pruned, key, now);
    }
  }

  class KeyValueStoreTable {
    var rows: Table

    constructor (rows: Table)
      ensures this.rows == rows
    {
      this.rows := rows;
    }

    /** The transaction of one round: delete up to a batch of the rows expired now. */
    method DeleteExpiredBatch(now: int) returns (deletedIds: set<string>)
      modifies this
      ensures deletedIds <= ExpiredKeys(old(rows), now)
      ensures |deletedIds| == Min(|ExpiredKeys(old(rows), now)|, CACHE_KEY_PRUNE_BATCH_SIZE)
      ensures rows == old(rows) - deletedIds
    {
      deletedIds := TakeSome(ExpiredKeys(rows, now), CACHE_KEY_PRUNE_BATCH_SIZE);
      rows := rows - deletedIds;
    }

    /** pruneExpiredKeys. Round k finds the clock at `clock(k)` and its transaction fails, leaving the
        table alone, exactly if `fails(k)`. Whatever the failures, the loop ends; it ends with no
        expired row left or right after three failures in a row; and only expired rows are gone. Every
        round that does not fail removes a full batch as long as rows expired from the start are left,
        and never more than a batch. */
    method PruneExpiredKeys(clock: nat -> int, fails: nat -> bool)
      returns (rounds: nat, numberOfRetryOnFailure: nat)
      requires forall j: nat, k: nat :: j <= k ==> clock(j) <= clock(k)
      modifies this
      ensures rounds >= 1
      ensures Pruned(old(rows), rows, clock(rounds - 1))
      ensures numberOfRetryOnFailure == 0 || numberOfRetryOnFailure == MAX_RETRY_ON_FAILURE
      ensures numberOfRetryOnFailure == 0 ==>
                !fails(rounds - 1) && ExpiredKeys(rows, clock(rounds - 1)) == {}
      ensures numberOfRetryOnFailure == MAX_RETRY_ON_FAILURE ==>
                rounds >= 3 && fails(rounds - 1) && fails(rounds - 2) && fails(rounds - 3)
      ensures var most := CACHE_KEY_PRUNE_BATCH_SIZE * Successes(fails, rounds);
              Min(|ExpiredKeys(old(rows), clock(0))|, most) <= |old(rows)| - |rows| <= most
      ensures forall key: string, now: int ::
                now >= clock(rounds - 1) ==> FindOneInt(rows, key, now) == FindOneInt(old(rows), key, now)
    {
      var deletedIds: set<string> := {};
      var isRetrying := false;
      numberOfRetryOnFailure := 0;
      rounds := 0;
      ghost var most := 0;
      while true
        invariant numberOfRetryOnFailure < MAX_RETRY_ON_FAILURE
        invariant numberOfRetryOnFailure <= rounds
        invariant forall k :: rounds - numberOfRetryOnFailure <= k < rounds ==> fails(k)
        invariant Pruned(old(rows), rows, clock(rounds))
        invariant most == CACHE_KEY_PRUNE_BATCH_SIZE * Successes(fails, rounds)
        invariant Removed(old(rows), rows, clock(0), most)
        decreases |rows|, MAX_RETRY_ON_FAILURE - numberOfRetryOnFailure
      {
        ghost var before := rows;
        if fails(rounds) {
          numberOfRetryOnFailure := numberOfRetryOnFailure + 1;
          deletedIds := {};
        } else {
          deletedIds := DeleteExpiredBatch(clock(rounds));
          RoundPrunes(old(rows), before, deletedIds, clock(0), clock(rounds), most);
          most := most + CACHE_KEY_PRUNE_BATCH_SIZE;
          numberOfRetryOnFailure := 0;
        }
        isRetrying := numberOfRetryOnFailure > 0;
        rounds := rounds + 1;
        if !(|deletedIds| > 0 || (isRetrying && numberOfRetryOnFailure < MAX_RETRY_ON_FAILURE)) {
          break;
        }
        PrunedLater(old(rows), rows, clock(rounds - 1), clock(rounds));
      }
      InvisibleFromThenOn(old(rows), rows, clock(rounds - 1));
    }
  }
}
