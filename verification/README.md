# Boot-time migrations, Redis protocols and data migrations: a verified model

This project models six stateful parts of the backend and proves what they keep over whole runs.

* **Booting many instances against one database** (`BootDirection`, `StartupLock`, `BootProtocol`,
  `BootOutcomes`, `MigrationTables`). Any number of server instances, each with its own bundle of migration names,
  compare histories, create the lock tables, wait for the startup lock, heartbeat, migrate and release.
  `BootProtocol` is a timed state machine whose steps are single SQL statements and timer ticks; a
  statement that was sent may land at any later time, also after its sender crashed. `BootOutcomes` says
  how the boot of an instance ends, why, and that it does.
  `StartupLock.StartupLockTable` is the table with its three statements, and the retry loop is a method
  over it. `MigrationTables` is the double-checked initialisation, statement by statement, with
  transactions and the advisory lock.
* **Redis protocols** (`SlotCounter`, `RedisStream`, with `JavaScriptNumbers` for sequence numbers).
  The concurrency-slot counter kept by two Lua scripts against the jobs that really hold slots; the
  paginated stream reader, the inclusive trim and the log consumers built on them.
* **The project split migration** (`ProjectTables`, `ProjectSplitProofs`, `ProjectSplitMirrors`,
  `ProjectSplit`). A graph of rows is copied with fresh ids and remapped references, rows move, and the
  reverse migration restores.
* **Deduplicating and backfilling migrations** (`OrgMembershipDedup`, `GroupNames`, `AuthMethodBackfill`).
* **The audit-log partition planner** (`AuditPartitions`, with `Decimals` for number printing).
* **Pruning of expired keys** (`KeyValueStore`).

Code that updates rows or keys step by step is modelled by classes and methods with loops; each method is
proved against a function or predicate on the old and new tables, and lemmas prove what the source
promises about that function. `Prelude` holds shared vocabulary: a query without `ORDER BY` returns its
rows in some order (`Enumerate`), one with `LIMIT` returns some of them (`TakeSome`).

These promises do not hold unconditionally. Each has a witness of the failure and the exact condition:

* the lease excludes a second holder in every run if and only if acquire-reply latency plus
  heartbeat-write latency stays within ten seconds (`ExclusionExactlyWhenTimely`; witness
  `SlowWritesBreakExclusion`);
* a lone waiter always recovers a crashed holder's lock if and only if the lease runs out more than one
  longest sleep before the waiter's deadline, because no attempt follows the clipped last sleep
  (`RecoveryIsGuaranteedExactlyWhen`; `LongestSleepsMissLateExpiry`);
* at most `limit` jobs run at a time if and only if no job may outlive the time to live of the counter
  (`CapIsKeptExactlyWhenJobsAreShort`; `LongJobsExceedTheCap`). The only caller passes 1800 seconds
  (`backend/src/services/secret-sync/secret-sync-queue.ts:146-149`);
* the scripts of the slot counter never leave a key without a time to live if and only if the limit is at
  least 1 (`TtlExactlyWhenLimitPositive`, whose proof gives the key left by a limit of 0);
* an inclusive trim spares all unread entries if and only if the successor of the sequence number, computed
  in doubles and printed by a template literal, is not too large: always below 2^53, for three numbers
  in four below 2^54, and from there on depending on how the nearest double is printed
  (`TrimIsSafeExactlyWhen`; `LargeSequenceNumbersLoseEntries`, `PrintingSkips`). The input does not arise in
  production: the only caller of `streamAdd` lets Redis choose the id
  (`backend/src/ee/services/audit-log/audit-log-queue.ts:132`), and Redis counts the number within one
  millisecond;
* pruning is invisible to a reader if and only if its clock is at most one tick behind
  (`PruningIsInvisibleExactlyWhen`, whose proof gives the row);
* re-running the interrupted token backfill finishes it, tokens and constraint, if and only if the column was
  not yet added (`RerunFinishesExactlyWhen`, and `UpAgain` in numbers of statements); the tokens alone come
  out right also if none was null any more (`RerunCompletesExactlyWhen`; `StuckTable`);
* `down` restores every table if and only if no split project had a group or identity role row carrying one
  of its own custom roles; those references have no cascade and block the delete (`RoundTripExactlyWhen`;
  `BlockedTables`);
* renamed groups come out distinct in every order of processing if and only if none of the numbered names
  to be handed out is already taken (`UniqueExactlyWhenNoCollision`; `CollisionHappens`).

Where code and comments differ the model follows the code: the membership migration says that it keeps the
row created latest, and keeps the earliest (`20240405000045_org-memberships-unique-constraint.ts:75-85`).

## Assumptions

* Every SQL statement and every Lua script is one atomic step, and there is one database clock. In the boot
  protocol only the statements of a live lock holder obey the two latency bounds.
* `migrate.latest` applies the pending names of the applier's bundle one by one and may fail or crash after
  any prefix.
* A fresh uuid is not in use in the table it is inserted into; sessions have distinct ids.
* A retry delay lies between 1600 and 2400 ms: two seconds with a jitter of a fifth
  (`backend/src/lib/delay/index.ts:6-14`).
* Of the shortest numerals of a double a JavaScript engine prints the closest, as the notes on
  Number::toString in ECMA-262 recommend.
* Approximate `MAXLEN` trimming drops any number of the oldest entries beyond the cap.

## Model

| member | source | states |
|---|---|---|
| BootDirection.Unknown | backend/src/auto-start-migrations-fns.ts:27-33 | filtering keeps exactly the names missing on the other side; its order is in the next three rows |
| BootDirection.UnknownConcat | backend/src/auto-start-migrations-fns.ts:27-33 | the filter works name by name, so that it is determined together with its value on one name, order and repetitions included |
| BootDirection.UnknownKeepsOrder | backend/src/auto-start-migrations-fns.ts:27-33 | of two missing names the one listed first stays first, with everything between them filtered in place |
| BootDirection.FirstUnknown | backend/src/auto-start-migrations-fns.ts:31-33 | before the first pending name only known names are listed; once it is known, the other pending names are what is pending, in order |
| BootDirection.DirectionIsSetComparison | backend/src/auto-start-migrations-fns.ts:17-71 | the four directions are exactly equal, proper subset, proper superset and incomparable sets, and the reported names are the two differences, in the order of their lists |
| StartupLock.SupersededSessionIsErased | backend/src/auto-start-migrations.ts:286-343 | fencing without timing: once the row is not locked by a session, all its late heartbeats and releases can be erased from any interleaving without changing the outcome |
| StartupLock.LockIsTakenOverExactlyWhen | backend/src/auto-start-migrations.ts:286-301 | a lock of somebody else is taken over exactly if it has no heartbeat or its last one is more than 15 s old |
| StartupLock.SuccessorRowIsFenced | backend/src/auto-start-migrations.ts:311-343 | a successor's row is unchanged by any sequence of heartbeats and releases of other sessions, or of other nodes under its session id |
| StartupLock.LateStatementsAreHarmless | backend/src/auto-start-migrations.ts:302-338 | after a takeover the old session's leftovers do not show; after a session's own release its late heartbeats leave the row free |
| StartupLock.TwoRowsAdmitTwoHolders | backend/src/auto-start-migrations.ts:196-201 | remark: with a second, free row beside a held one two sessions own fresh locks at once |
| StartupLock.OwnerStaysInPossession | backend/src/auto-start-migrations.ts:286-343 | whatever other sessions acquire, beat or release within 15 s of an owner's last heartbeat, in any order, the owner still owns the lock |
| StartupLock.FirstAcquireWins | backend/src/auto-start-migrations.ts:186-201 | from the row as the table is created with, the first session to acquire owns the lock over any such sequence of statements |
| StartupLock.StartupLockTable.Update | backend/src/auto-start-migrations.ts:286-308 | an UPDATE changes exactly the matching rows and its result is positive exactly if there was one |
| StartupLock.StartupLockTable.AcquireLock | backend/src/auto-start-migrations.ts:286-309 | free and strictly stale rows become owned by the session with a fresh heartbeat, all others stay, and the reply says whether there was one |
| StartupLock.StartupLockTable.UpdateHeartbeat | backend/src/auto-start-migrations.ts:311-322 | rows owned by the session and node stay owned and become fresh, so nobody can acquire them; no other row changes |
| StartupLock.StartupLockTable.ReleaseLock | backend/src/auto-start-migrations.ts:331-343 | rows owned by the session and node become acquirable at any time and are owned no more; no other row changes |
| StartupLock.AcquireWithRetries | backend/src/auto-start-migrations.ts:345-385 | the loop computes the recursive description of attempts, replies, clipped sleeps and interference, and owns the row when it reports success |
| StartupLock.RetryIsBounded | backend/src/auto-start-migrations.ts:349-378 | at most 188 attempts whatever others do; giving up only after the whole timeout, success only before it and then owning the row |
| StartupLock.RetryIsOverInTime | backend/src/auto-start-migrations.ts:352-378 | with replies of at most a given time the loop is over by that much after the deadline, and if it is over after the deadline then within one reply to an acquire sent before it |
| StartupLock.GivingUpTakesManyAttempts | backend/src/auto-start-migrations.ts:362-385 | with instant replies at least 125 attempts before giving up, exactly at the deadline |
| StartupLock.CrashedHolderIsReplaced | backend/src/auto-start-migrations.ts:345-378 | a lone waiter takes a crashed holder's lock after last heartbeat + 15 s and within one more longest sleep, if that is before its deadline |
| StartupLock.LongestSleepsMissLateExpiry | backend/src/auto-start-migrations.ts:370-378 | the missing final attempt: with longest sleeps a lease running out in the last 2400 ms is missed |
| StartupLock.RecoveryIsGuaranteedExactlyWhen | backend/src/auto-start-migrations.ts:345-385 | the exact condition of crash recovery over all draws of sleeps |
| BootProtocol.LiveRowIsFresh | backend/src/auto-start-migrations.ts:286-309 | under the latency bound a live holder's row is never acquirable |
| BootProtocol.StepKeepsLease | backend/src/auto-start-migrations.ts:270-397 | every step of every instance, late statements and crashes included, keeps the timed lease invariant |
| BootProtocol.MutualExclusion | backend/src/auto-start-migrations.ts:270-397 | at most one session is inside doMigrations in every state of every run, for any number of instances |
| BootProtocol.SlowWritesBreakExclusion | backend/src/auto-start-migrations.ts:277-322 | with larger latencies a reachable state has two sessions inside |
| BootProtocol.ExclusionExactlyWhenTimely | backend/src/auto-start-migrations.ts:277-322 | exclusion in every reachable state if and only if reply plus write latency is at most 10 s |
| BootProtocol.ApplyNextIsSafe | backend/src/auto-start-migrations.ts:549-573 | applying a name keeps the history invariant, adds a new name of the applier's bundle, finds nothing applied that this bundle lacks, and finds everything applied that the bundle lists before it |
| BootProtocol.RunKeepsHistory | backend/src/auto-start-migrations.ts:449-573 | the history invariant holds in every state of every run in which no two sessions are inside at once, whatever the latencies |
| BootProtocol.EveryChangeIsSafe | backend/src/auto-start-migrations.ts:549-573 | every change of the history over such a run is a safe application |
| BootProtocol.HistoryOnlyGrows | backend/src/auto-start-migrations.ts:399-599 | an earlier history is a prefix of every later one, in every run and under any timing |
| BootProtocol.NormalReturnMeansUpToDate | backend/src/auto-start-migrations.ts:449-574 | in such a run an instance that boots normally finds its whole bundle applied, then and ever after |
| BootProtocol.IncomparableBundlesDoNotBothBoot | backend/src/auto-start-migrations.ts:488-494 | in such a run two instances that both boot have bundles jointly in the initial history or jointly in one image's bundle |
| BootProtocol.TimelyRunsAreSafe | backend/src/auto-start-migrations.ts:270-397 | under the latency bound every run is such a run: exclusive, with the history invariant in every state and only safe changes |
| BootOutcomes.CheckDecides | backend/src/auto-start-migrations.ts:449-573 | which outcome each check must have: an image ahead of or level with the history boots or leaves normally, a fork fails, and one behind waits for the lock or, holding it, applies exactly the pending names in order |
| BootOutcomes.StepDoomsExactlyWhen | backend/src/auto-start-migrations.ts:399-599 | a step dooms an instance exactly if its check finds a fork, it gives up waiting, or its migration throws |
| BootOutcomes.FailsExactlyWhenSomethingWentWrong | backend/src/auto-start-migrations.ts:399-599 | over any run an instance that has not crashed fails if and only if one of these happened to it earlier, and a finished one has booted if and only if none did |
| BootOutcomes.LockIsGivenBack | backend/src/auto-start-migrations.ts:331-343 | under any timing, an instance that left the lock section and still owns the row has a release pending, and its landing frees the row |
| BootOutcomes.SentStatementsStayPending | backend/src/auto-start-migrations.ts:286-343 | no other step, a crash of the sender included, takes back a statement that was sent |
| BootOutcomes.BootIsShort | backend/src/auto-start-migrations.ts:349-397 | besides waiting for the lock and heartbeats an instance takes at most as many steps as its bundle has names and five more, over any run |
| BootOutcomes.NobodyIsStuck | backend/src/auto-start-migrations.ts:349-397 | in every state of every run an unfinished instance has a next step, which advances it unless it is waiting for the lock, where it can give up |
| MigrationTables.CreatedOnceWithOneRow | backend/src/auto-start-migrations.ts:158-245 | over all interleavings and crashes the startup lock table is created at most once, never holds two rows, no CREATE TABLE fails, and a finished instance finds exactly one row |
| MigrationTables.NoSecondCreation | backend/src/auto-start-migrations.ts:203-214 | a startup lock table that exists at the start stays and is never created again |
| MigrationTables.RowIsPermanent | backend/src/auto-start-migrations.ts:196-201 | the single row, once committed, stays the single row |
| MigrationTables.SomeoneCanMove | backend/src/auto-start-migrations.ts:223-244 | as long as an instance is unfinished, some instance can take a statement: no deadlock on the advisory lock |
| MigrationTables.TwentyMovesAtMost | backend/src/auto-start-migrations.ts:216-245 | nobody loops: over any run an instance takes at most 20 steps, whatever the others do |
| MigrationTables.EverybodyFinishes | backend/src/auto-start-migrations.ts:216-245 | every run ends after at most 20 steps per instance, and where no step is left every instance is done or crashed |
| MigrationTables.ReadsDecide | backend/src/auto-start-migrations.ts:158-185 | the first check leads to the transaction, and the second to creating the tables, exactly if a table is missing or empty |
| MigrationTables.CompleteTablesAreOnlyRead | backend/src/auto-start-migrations.ts:216-222 | on complete tables no instance ever opens the transaction, takes the advisory lock or writes |
| SlotCounter.RedisCounter.IncrementAndRefreshExpiryIfUnderLimit | backend/src/keystore/keystore.ts:358-393 | new key and reply of the admit script; rejection exactly at the limit, leaving the key with its deadline untouched; otherwise the reply is the new count |
| SlotCounter.AdmitOutcome | backend/src/keystore/keystore.ts:358-366 | for a limit and a time to live of at least 1: below the limit one more is counted, replied and given a new deadline; at it the reply is -1 and the key stays as it was |
| SlotCounter.RedisCounter.DecrementOrDelete | backend/src/keystore/keystore.ts:371-398 | the release script decrements down to zero, and never extends or drops a deadline |
| SlotCounter.StepKeepsInv | backend/src/keystore/keystore.ts:354-398 | admit, reject, release, crash and expiry keep the invariant tying the key to the outstanding jobs |
| SlotCounter.CounterAgainstHolders | backend/src/keystore/keystore.ts:354-398 | over any run, with any lifetimes, the counter is within 0..limit and at most the outstanding jobs, and these are at most limit per expiry round |
| SlotCounter.StepCoversRunning | backend/src/keystore/keystore.ts:358-378 | a step that leaves only running jobs younger than the time to live keeps the counter at least their number, also when the key expires and when jobs crash |
| SlotCounter.CapIsKeptExactlyWhenJobsAreShort | backend/src/keystore/keystore.ts:354-398 | the exact condition of the cap: at most limit jobs run at a time in every run without a running job of a given age, crashes included, if and only if that age is within the time to live |
| SlotCounter.CounterIsExactExactlyWhenHoldersAreShort | backend/src/keystore/keystore.ts:354-398 | the same for all jobs that have not released, whose number the counter then is |
| SlotCounter.LongJobsExceedTheCap | backend/src/keystore/keystore.ts:364-365 | jobs that may outlive the time to live break the cap: a full round, one expiry, one more job |
| SlotCounter.OneExpiryCanDoubleTheHolders | backend/src/keystore/keystore.ts:364-365 | the bound per expiry round is attained: after one expiry there can be twice the limit |
| SlotCounter.DeadlineIsNotExtended | backend/src/keystore/keystore.ts:354-370 | rejected probes, releases and crashes never move the deadline |
| SlotCounter.OrphansAreRecovered | backend/src/keystore/keystore.ts:354-366 | the key is gone, and the next probe admitted, once the time to live has passed since the last admit, whatever was probed meanwhile |
| SlotCounter.SaturatedRejectsEveryProbe | backend/src/keystore/keystore.ts:354-366 | a saturated counter without releases turns every probe of every run away until the deadline, and the key does not change |
| SlotCounter.SaturatedUntilTheDeadline | backend/src/keystore/keystore.ts:354-366 | all probes of a run and the next one are rejected if and only if the run ends before the deadline |
| SlotCounter.TtlExactlyWhenLimitPositive | backend/src/keystore/keystore.ts:359-364 | an admit never leaves a key without a time to live if and only if the limit is at least 1 |
| JavaScriptNumbers.ReadingIsMonotone | backend/src/keystore/keystore.ts:482 | reading a decimal numeral as a double, to the nearest and ties to even, is monotone |
| JavaScriptNumbers.ReadingIsRoundToNearestEven | backend/src/keystore/keystore.ts:482 | Number(...) of a numeral is a double, no double is nearer, and of two equally near ones it is the even one |
| JavaScriptNumbers.SumBelow54 | backend/src/keystore/keystore.ts:482 | between 2^53 and 2^54 reading a number and adding one gives it, its successor, or two more or one less, according to its remainder modulo 4 |
| JavaScriptNumbers.SumFrom54 | backend/src/keystore/keystore.ts:482 | from 2^54 on adding one to the double that was read gives back the double |
| JavaScriptNumbers.PrintedExactly | backend/src/keystore/keystore.ts:482 | the template literal prints doubles up to 2^54 exactly |
| JavaScriptNumbers.PrintedIsRoundest | backend/src/keystore/keystore.ts:482 | what is printed reads back as the double, and no numeral that does ends in more zeros |
| JavaScriptNumbers.RoundNumeralIsClosest | backend/src/keystore/keystore.ts:482 | of the numerals with as many zeros that read back, none is closer to the double than the chosen one |
| JavaScriptNumbers.SuccessorAgainstNext | backend/src/keystore/keystore.ts:482 | exactly which numbers are given a successor that is too large, and exactly which the right one, for all numbers |
| JavaScriptNumbers.PrintingSkips | backend/src/keystore/keystore.ts:482 | the printing matters: at 2^54 + 24 the sum is the number itself and its numeral is two more |
| RedisStream.TrimIsSafeExactlyWhen | backend/src/keystore/keystore.ts:478-485 | the exact condition: an inclusive trim leaves all later ids alone if and only if the sequence number is below 2^53, or below 2^54 and not 2 modulo 4, or from 2^54 on the nearest double prints as at most the number plus one |
| RedisStream.TrimIsInclusiveExactlyWhen | backend/src/keystore/keystore.ts:478-485 | and it drops exactly the ids up to the given one if and only if the number is below 2^53, or below 2^54 and 3 modulo 4, or from 2^54 on the nearest double prints as the number plus one |
| RedisStream.LargeSequenceNumbersLoseEntries | backend/src/keystore/keystore.ts:481-482 | the first number that skips is 2^53 + 2: the trim there also drops the unread id after it |
| RedisStream.ReadingOn | backend/src/keystore/keystore.ts:492-494 | an exclusive start at the last id of a prefix continues right behind it |
| RedisStream.NextPage | backend/src/keystore/keystore.ts:492-500 | a page extends the prefix read so far to a longer prefix, by as many entries as fit |
| RedisStream.InclusiveTrimDropsThePast | backend/src/keystore/keystore.ts:478-485 | on those numbers an inclusive trim drops exactly the entries a reader with that last id is past |
| RedisStream.SafeTrimStaysInThePast | backend/src/keystore/keystore.ts:478-485 | and on all numbers that do not skip it drops none beyond them |
| RedisStream.PagesIsCeiling | backend/src/keystore/keystore.ts:491 | the number of pages is the quotient rounded up |
| RedisStream.PagesReachMaxEntries | backend/src/keystore/keystore.ts:491 | it is the least number of whole batches reaching maxEntries |
| RedisStream.CapacityOvershoot | backend/src/keystore/keystore.ts:491-502 | maxEntries is overshot by less than one batch |
| RedisStream.Stream.StreamAdd | backend/src/keystore/keystore.ts:463-469 | ids strictly increase; an entry below the cap displaces nothing |
| RedisStream.Stream.StreamTrim | backend/src/keystore/keystore.ts:478-485 | drops the entries below the printed bound; inclusively these are all up to and including the id, or none beyond it, exactly on the numbers above |
| RedisStream.Stream.StreamCollect | backend/src/keystore/keystore.ts:487-506 | whatever is appended between pages, the result is exactly the prefix of the final stream that fills the capacity, or all of it, with its last id |
| RedisStream.PageKeepsBatch | backend/src/keystore/keystore.ts:491-503 | reading another page keeps: everything up to the last id read is in the batch or already safe |
| RedisStream.TrimKeepsStream | backend/src/ee/services/audit-log/audit-log-queue.ts:300-302 | a trim after a successful insert removes only persisted entries, also with overlapping consumers and also if it lands after its sender crashed |
| RedisStream.StepKeepsInv | backend/src/ee/services/audit-log/audit-log-queue.ts:180-303 | every step of producers, of any number of consumers, and of trims left in flight keeps the invariant |
| RedisStream.NoEntryIsLost | backend/src/ee/services/audit-log/audit-log-queue.ts:180-303 | every entry that left the stream was persisted or fell to the cap; within the cap all were persisted |
| RedisStream.NothingEvictedWithinCap | backend/src/keystore/keystore.ts:463-469 | while the backlog is below the cap nothing is evicted |
| RedisStream.TrimRemovesThePart | backend/src/ee/services/audit-log/audit-log-queue.ts:300-302 | a trim removes, in order, exactly the entries of its batch that are still in the stream |
| RedisStream.ProcessedThenRemaining | backend/src/ee/services/audit-log/audit-log-queue.ts:180-331 | what the trims acknowledged followed by the rest of the stream is everything appended, in order, each once and persisted, for any number of overlapping consumers, under crashes, failed inserts and late trims |
| RedisStream.LoneTrimRemovesTheBatch | backend/src/ee/services/audit-log/audit-log-queue.ts:312-331 | a lone consumer, with no trim left in flight, removes with each trim exactly what it has read |
| KeyValueStore.KeyValueStoreTable.DeleteExpiredBatch | backend/src/keystore/key-value-store-dal.ts:56-71 | one round deletes only expired rows, as many as the batch size allows |
| KeyValueStore.DeletionPrunes | backend/src/keystore/key-value-store-dal.ts:59-68 | a round that deletes shrinks the table, one that deletes nothing found nothing expired |
| KeyValueStore.KeyValueStoreTable.PruneExpiredKeys | backend/src/keystore/key-value-store-dal.ts:47-87 | for any failures and any monotone clock: terminates, removes only expired rows, a full batch in every round that does not fail while rows expired at the start are left, ends with none left or after three failures in a row, and no later read changes |
| KeyValueStore.DeletionRemoves | backend/src/keystore/key-value-store-dal.ts:56-71 | another round removes a full batch or leaves nothing that had expired at the start |
| KeyValueStore.WrittenValueIsRead | backend/src/keystore/key-value-store-dal.ts:33-45 | a value without expiry is read at any time, one with an expiry strictly before it, and 0 otherwise, for a null value and for an absent key; writing or deleting another key changes nothing |
| KeyValueStore.WrittenValueSurvivesPruning | backend/src/keystore/key-value-store-dal.ts:33-86 | a written value is read until it expires, and 0 from then on, whatever is pruned in between |
| KeyValueStore.PruningIsInvisible | backend/src/keystore/key-value-store-dal.ts:33-45 | reads at the prune time or later return what they would have returned |
| KeyValueStore.PruningIsInvisibleExactlyWhen | backend/src/keystore/key-value-store-dal.ts:36-60 | the exact condition on the clocks: no read of any key of any table changes if and only if the reader is at most one tick behind the pruner |
| AuthMethodBackfill.AccessTokenTable.FillInBatches | backend/src/db/migrations/20241014084900_identity-multiple-auth-methods.ts:23-55 | after every pass, interrupted or not, the tokens are filled or null and a batch fewer are null; the do-while loop finishes after exactly the passes that cover all tokens, at least one, having counted each token once |
| AuthMethodBackfill.AccessTokenTable.Up | backend/src/db/migrations/20241014084900_identity-multiple-auth-methods.ts:7-65 | interrupted after any number of statements, or not: finished, it leaves exactly the tokens of identities with a method, each with it, and the constraint; interrupted, it leaves one of the described states; with the column present it does nothing |
| AuthMethodBackfill.RerunFinishesExactlyWhen | backend/src/db/migrations/20241014084900_identity-multiple-auth-methods.ts:7-62 | a re-run after an interruption finishes the migration, tokens and NOT NULL constraint, if and only if the column was not yet added |
| AuthMethodBackfill.RerunCompletesExactlyWhen | backend/src/db/migrations/20241014084900_identity-multiple-auth-methods.ts:7-55 | as to the tokens alone, it ends with the right ones if and only if the column was not yet added or no token is null any more |
| AuthMethodBackfill.AccessTokenTable.UpAgain | backend/src/db/migrations/20241014084900_identity-multiple-auth-methods.ts:7-65 | the migration interrupted after any number of statements and then run again is finished if and only if none or all of the statements were executed the first time |
| AuthMethodBackfill.StuckTable | backend/src/db/migrations/20241014084900_identity-multiple-auth-methods.ts:7-14 | an interruption that no re-run repairs: one token, and a crash right after the column is added |
| AuthMethodBackfill.FilledExactlyWhenNoneIsNull | backend/src/db/migrations/20241014084900_identity-multiple-auth-methods.ts:55-61 | after the delete the tokens are as they should be exactly when none is null |
| AuthMethodBackfill.BatchIsFilled | backend/src/db/migrations/20241014084900_identity-multiple-auth-methods.ts:34-44 | a pass makes exactly its batch non-null, so the number left strictly falls |
| AuthMethodBackfill.OrphanTokensStayNull | backend/src/db/migrations/20241014084900_identity-multiple-auth-methods.ts:15-21 | remark: without the delete a batch of tokens whose identities have no method would stay null |
| OrgMembershipDedup.ValidateOrgMembership | backend/src/db/migrations/20240405000045_org-memberships-unique-constraint.ts:6-32 | no error exactly for the same row or agreement on all six compared fields; otherwise the error names the first field that differs |
| OrgMembershipDedup.OrgMembershipTable.Validate | backend/src/db/migrations/20240405000045_org-memberships-unique-constraint.ts:70-73 | comparing with the first row decides whether all rows agree pairwise |
| OrgMembershipDedup.OrgMembershipTable.Earliest | backend/src/db/migrations/20240405000045_org-memberships-unique-constraint.ts:77-88 | finds a row with the smallest createdAt |
| OrgMembershipDedup.OrgMembershipTable.ReducePair | backend/src/db/migrations/20240405000045_org-memberships-unique-constraint.ts:63-94 | one round errs exactly on a disagreement, otherwise leaves one earliest row of the pair |
| OrgMembershipDedup.OrgMembershipTable.Up | backend/src/db/migrations/20240405000045_org-memberships-unique-constraint.ts:34-106 | succeeds exactly if every pair is consistent; then each pair has one survivor, earliest and agreeing with all it replaces, rows without user stay, and the pair is unique; otherwise the table is unchanged |
| OrgMembershipDedup.ReducingOnePair | backend/src/db/migrations/20240405000045_org-memberships-unique-constraint.ts:54-100 | reducing a pair keeps the pairs already reduced and leaves the others alone |
| OrgMembershipDedup.AllPairsReduced | backend/src/db/migrations/20240405000045_org-memberships-unique-constraint.ts:103-105 | when all duplicated pairs are reduced the unique constraint holds |
| Decimals.DecimalInjective | backend/src/db/migrations/20250115222458_groups-unique-name.ts:29 | different numbers print differently |
| GroupNames.SuffixedInjective | backend/src/db/migrations/20250115222458_groups-unique-name.ts:29 | name and number can be read back from a suffixed name |
| GroupNames.RenameFromNames | backend/src/db/migrations/20250115222458_groups-unique-name.ts:23-35 | what the inner loop does to each row: the first keeps its name, the j-th gets number j, others are untouched |
| GroupNames.SelectByAge | backend/src/db/migrations/20250115222458_groups-unique-name.ts:15-21 | lists exactly the set's groups, oldest first |
| GroupNames.GroupsTable.RenameDuplicates | backend/src/db/migrations/20250115222458_groups-unique-name.ts:15-35 | one round is that renaming for an age-ordered listing |
| GroupNames.GroupsTable.Up | backend/src/db/migrations/20250115222458_groups-unique-name.ts:5-42 | the nested loops reach an outcome of some processing order; without a collision names are unique and every set is renumbered by age |
| GroupNames.OutcomeIsRenumbering | backend/src/db/migrations/20250115222458_groups-unique-name.ts:13-36 | without a collision every order of processing renumbers each set by age, keeps the oldest name, leaves other groups alone and ends with unique names |
| GroupNames.CollisionBreaksSomeOrder | backend/src/db/migrations/20250115222458_groups-unique-name.ts:13-40 | with a collision some order ends with two groups of one name, so the constraint fails |
| GroupNames.CollisionHappens | backend/src/db/migrations/20250115222458_groups-unique-name.ts:13-40 | a table of three groups that collides, with an order that ends in two groups of one name |
| GroupNames.UniqueExactlyWhenNoCollision | backend/src/db/migrations/20250115222458_groups-unique-name.ts:6-41 | unique names in every order if and only if no number name to be handed out is taken |
| AuditPartitions.NextDayIsSuccessor | backend/src/db/manual-migrations/partition-audit-logs.ts:109-111 | the next day is the least later date, over month ends and leap days |
| AuditPartitions.NextDayIsOneDayLater | backend/src/db/manual-migrations/partition-audit-logs.ts:109-111 | the calendar is the Gregorian one: in a closed-form count of days the next day is one more |
| AuditPartitions.FormattedDateReadsBack | backend/src/db/manual-migrations/partition-audit-logs.ts:8-14 | year, two-digit month and two-digit day can be read back between the two dashes, for any year |
| AuditPartitions.FormattedDatesSortAsDates | backend/src/db/manual-migrations/partition-audit-logs.ts:8-14 | with four-digit years formatted dates compare as strings exactly as dates do |
| AuditPartitions.NameDeterminesStart | backend/src/db/manual-migrations/partition-audit-logs.ts:20 | a partition name determines its first day |
| AuditPartitions.NameDeterminesRange | backend/src/db/manual-migrations/partition-audit-logs.ts:20 | a partition name determines both its first day and the day it ends before |
| AuditPartitions.PlanPartitions | backend/src/db/manual-migrations/partition-audit-logs.ts:109-137 | the loop plans the 241 ranges of the specification, from tomorrow on |
| AuditPartitions.RangesAreContiguous | backend/src/db/manual-migrations/partition-audit-logs.ts:124-134 | each range is non-empty and ends where the next begins |
| AuditPartitions.BoundsDelimitTheRange | backend/src/db/manual-migrations/partition-audit-logs.ts:16-24 | the formatted bounds delimit, as strings, exactly the planned dates, and consecutive partitions share their bound |
| AuditPartitions.PartitionsTileTheTimeLine | backend/src/db/manual-migrations/partition-audit-logs.ts:113-139 | every date from tomorrow to the first of the 241st following month is in exactly one range, every other date in none |
| AuditPartitions.PlanReachesTwentyYearsAhead | backend/src/db/manual-migrations/partition-audit-logs.ts:124-134 | the last range ends on the first of the month 241 months after that of tomorrow |
| AuditPartitions.PartitionNamesAreDistinct | backend/src/db/manual-migrations/partition-audit-logs.ts:16-25 | no two planned partitions share a name |
| ProjectTables.RoleCopyMirrors | backend/src/db/migrations/20241213122350_project-split-to-products.ts:51-65 | a copied role row refers to the copy of a membership or role exactly if its original refers to that one |
| ProjectTables.CopyIsIsomorphic | backend/src/db/migrations/20241213122350_project-split-to-products.ts:21-122 | the copy's rows are exactly the images of the source's rows under injective id maps, with mirrored references, for roles and all three kinds of membership |
| ProjectTables.CustomRolesKeptExactlyWhenClosed | backend/src/db/migrations/20241213122350_project-split-to-products.ts:59-63 | remark: no copied row loses its custom role if and only if the source rows carry only roles of the copied project |
| ProjectSplit.CopyOwned | backend/src/db/migrations/20241213122350_project-split-to-products.ts:21-37 | fresh, injective copies of the given rows; everything else untouched |
| ProjectSplit.CopyMemberRoles | backend/src/db/migrations/20241213122350_project-split-to-products.ts:51-65 | copies exactly the role rows held through copied memberships, both references remapped |
| ProjectSplit.CopyMemberships | backend/src/db/migrations/20241213122350_project-split-to-products.ts:67-94 | memberships of one kind and the roles held through them |
| ProjectSplit.CopyReservedKeys | backend/src/db/migrations/20241213122350_project-split-to-products.ts:124-134 | copies exactly the reserved keys, changing only id, slug and project |
| ProjectSplit.Database.NewProject | backend/src/db/migrations/20241213122350_project-split-to-products.ts:10-154 | a new project with copies of roles, memberships, reserved keys, one bot and all project keys; source rows unchanged |
| ProjectSplit.Database.SplitProject | backend/src/db/migrations/20241213122350_project-split-to-products.ts:195-205 | one round of a loop: copy, move the product's rows, record the split, keeping the invariant |
| ProjectSplit.Database.TypeProjects | backend/src/db/migrations/20241213122350_project-split-to-products.ts:176-189 | the batch loop terminates with every untyped project typed and the rest untouched |
| ProjectSplit.Database.SplitAll | backend/src/db/migrations/20241213122350_project-split-to-products.ts:195-226 | the loop of either product: exactly the listed projects are split, the other product's splits stay |
| ProjectSplit.Database.SplitCertificates | backend/src/db/migrations/20241213122350_project-split-to-products.ts:191-205 | exactly the projects owning a certificate authority are split for certificates |
| ProjectSplit.Database.SplitCmek | backend/src/db/migrations/20241213122350_project-split-to-products.ts:207-227 | exactly the original projects owning a key that is not reserved are split for KMS, also after the certificate loop |
| ProjectSplit.Database.Up | backend/src/db/migrations/20241213122350_project-split-to-products.ts:157-234 | from consistent, untyped tables: exactly the owning projects are split; every destination holds exactly the images of its source's original roles, memberships, role rows, reserved keys, project keys and one bot; every moved row is in its project's destination, and the original rows are otherwise unchanged |
| ProjectSplit.Database.Down | backend/src/db/migrations/20241213122350_project-split-to-products.ts:236-297 | the reverse migration as a function of the tables, unchanged tables on a foreign key error |
| ProjectSplitProofs.SplitFollows | backend/src/db/migrations/20241213122350_project-split-to-products.ts:195-226 | copying and moving one more project keeps the split state of the whole database |
| ProjectSplitMirrors.SplitStateIsConsistent | backend/src/db/migrations/20241213122350_project-split-to-products.ts:191-227 | every foreign key holds between any two rounds of the loops |
| ProjectSplitMirrors.CopyAndMoveSplitsOff | backend/src/db/migrations/20241213122350_project-split-to-products.ts:196-204 | a copy followed by the row moves is one step of the run, taken from a consistent state |
| ProjectSplitMirrors.NewReserved | backend/src/db/migrations/20241213122350_project-split-to-products.ts:124-134 | the reserved keys of a new destination are exactly the images of the source's original ones, also after the row moves |
| ProjectSplitMirrors.MirrorsFollow | backend/src/db/migrations/20241213122350_project-split-to-products.ts:191-227 | after each further split every destination, earlier ones included, still holds exactly the images of its source's original rows, with mirrored references |
| ProjectSplitProofs.CopyAddsCustom | backend/src/db/migrations/20241213122350_project-split-to-products.ts:55-63 | a copy adds a role row with a custom role exactly if the source carries one |
| ProjectSplitProofs.MoveBackRestores | backend/src/db/migrations/20241213122350_project-split-to-products.ts:246-256 | moving every split's certificate rows back gives the original table |
| ProjectSplitProofs.MoveKeysBackRestores | backend/src/db/migrations/20241213122350_project-split-to-products.ts:261-268 | moving keys back and deleting the copies gives the original keys |
| ProjectSplitProofs.DeletionIsBlockedExactlyWhen | backend/src/db/migrations/20241213122350_project-split-to-products.ts:270-287 | the foreign key error occurs exactly if a split project had a group or identity role row carrying its own custom role |
| ProjectSplitProofs.DownUndoesUp | backend/src/db/migrations/20241213122350_project-split-to-products.ts:236-292 | when it succeeds, every table is exactly what it was before the split |
| ProjectSplit.RoundTripExactlyWhen | backend/src/db/migrations/20241213122350_project-split-to-products.ts:157-297 | up then down is the identity on all tables if and only if no project that owns a certificate authority or a non-reserved key is so blocked |
| ProjectSplit.ProductsLiveInTheirProjects | backend/src/db/migrations/20241213122350_project-split-to-products.ts:191-227 | after up every certificate authority and every non-reserved key of a project is in the destination split off that project for its product, and every destination received such a row |
| ProjectSplit.Database.UpThenDown | backend/src/db/migrations/20241213122350_project-split-to-products.ts:157-297 | the two migrations one after the other: the second succeeds exactly under that condition, and then all tables, the column and the mapping table are as before |
| ProjectSplit.BlockedTables | backend/src/db/migrations/20241213122350_project-split-to-products.ts:51-65 | consistent tables with a project that is blocked: a certificate authority, a group membership and its custom role |
| ProjectSplit.DownFails | backend/src/db/migrations/20241213122350_project-split-to-products.ts:276-281 | whatever up leaves of such tables, down fails |

## Left out

- Knex internals: its own migration lock, the validation of missing files, batches and the migration table's ids; `migrate.latest` is the assumption above.
- The audit-log database pass of `runMigrations`, ClickHouse, sanitized schemas, the renaming of recorded file names and logging: the same protocol a second time, or text and I/O.
- Liveness of a crowd of waiters: crash recovery is stated for one waiter; with several, one of them takes the lock and the others wait for it.
- ExclusionExactlyWhenTimely: the latency bounds hold for statements of live holders; a statement that fails is one that does not land, and a holder whose heartbeats all fail is outside the bound.
- AcquireWithRetries: statements that raise an error end the boot and are not part of the loop.
- StreamCollect: assumes a batch size of at least 1, as its caller passes; Redis gives no page for others.
- NoEntryIsLost: assumes sequence numbers below 2^53, all of which meet the condition of TrimIsInclusiveExactlyWhen; persisting stands for the successful insert step, which skips unparseable entries by design.
- StreamAdd: takes explicit ids; ids generated by Redis are explicit ids chosen by the clock, and the 64-bit limit of their parts is not modelled.
- Printed: numbers from 10^21 on, which print with an exponent; sequence numbers have 64 bits.
- The payload mapping of audit-log entries and the outbox: pure shape transforms.
- RoundTripExactlyWhen: states the case without writes between the two migrations; rows added to a destination project meanwhile are deleted by the source.
- CopyIsIsomorphic: the project row's references to KMS keys are copied as they are by the source and are part of the uninterpreted columns; tables that hang off memberships but are not copied (privileges, metadata) are not modelled.
- NewProject: slugs are arbitrary strings, the slug of the project and of reserved keys is not required to be unique.
- FormattedDatesSortAsDates: years 1000 to 9999, and so for BoundsDelimitTheRange; other years have other lengths and do not sort as strings.
- PlanPartitions: calendar dates without time of day or zone; `Date` maps the years 0 to 99 to the twentieth century, which is not modelled.
- Index, constraint and column statements of the migrations other than the constraint each one ends with.
- `keystore/memory.ts`, the SCAN loops and the get, set and hash wrappers: constant stubs, cursor-dependent or single calls.
- `incrementBy` of the key-value table: its first insert stores 1 whatever the increment, so it obeys no sum law.
- Queue plumbing, Redlock and the KMS and HSM services.
