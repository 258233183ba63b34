/** auto-start-migrations.ts, withStartupLock: the three SQL statements issued on the
    startup lock table, what late statements of a superseded session can do, and the
    retry loop. Every statement is one atomic step that reads the one database clock. */
module StartupLock {
  import opened Prelude

  const HEARTBEAT_INTERVAL_MS := 5000
  const STALE_HEARTBEAT_THRESHOLD_MS := HEARTBEAT_INTERVAL_MS * 3
  const ACQUIRE_LOCK_TIMEOUT_MS := 5 * 60 * 1000

  /** floor(applyJitter(2000)): two seconds give or take a fifth. */
  const MIN_RETRY_MS := 1600
  const MAX_RETRY_MS := 2400
  type RetryDelay = d: int | MIN_RETRY_MS <= d <= MAX_RETRY_MS witness 2000

  type Session = nat
  type Node = string
  datatype Holder = Holder(session: Session, node: Node)

  datatype LockRow = LockRow(isLocked: int, sessionId: Option<Session>, node: Option<Node>, heartbeat: Option<int>)

  const FREE_ROW := LockRow(0, None, None, None)

  function LockedBy(who: Holder, at: int): LockRow {
    LockRow(1, Some(who.session), Some(who.node), Some(at))
  }

  predicate Stale(row: LockRow, now: int) {
    row.heartbeat.None? || row.heartbeat.value < now - STALE_HEARTBEAT_THRESHOLD_MS
  }

  predicate Acquirable(row: LockRow, now: int) {
    row.isLocked == 0 || (row.isLocked == 1 && Stale(row, now))
  }

  predicate Owns(row: LockRow, who: Holder) {
    row.isLocked == 1 && row.sessionId == Some(who.session) && row.node == Some(who.node)
  }

  datatype Statement =
    | Acquire(who: Holder, at: int)
    | Heartbeat(who: Holder, at: int)
    | Release(who: Holder)

  predicate Matches(row: LockRow, stmt: Statement) {
    match stmt
    case Acquire(_, at) => Acquirable(row, at)
    case Heartbeat(who, _) => Owns(row, who)
    case Release(who) => Owns(row, who)
  }

  function Execute(row: LockRow, stmt: Statement): LockRow {
    if !Matches(row, stmt) then row
    else
      match stmt
      case Acquire(who, at) => LockedBy(who, at)
      case Heartbeat(_, at) => row.(heartbeat := Some(at))
      case Release(_) => FREE_ROW
  }

  function ExecuteAll(row: LockRow, stmts: seq<Statement>): LockRow
    decreases |stmts|
  {
    if stmts == [] then row else ExecuteAll(Execute(row, stmts[0]), stmts[1..])
  }

  /** The statements of every session but `s`. */
  function WithoutSession(stmts: seq<Statement>, s: Session): seq<Statement>
    decreases |stmts|
  {
    if stmts == [] then []
    else (if stmts[0].who.session == s then [] else [stmts[0]]) + WithoutSession(stmts[1..], s)
  }

  /** Fencing, with no timing assumption. Once the row is not (or no longer) locked by session
      `s`, and `s` sends no further acquire, everything `s` still has in flight may be erased
      from the run: whatever its heartbeats and release are interleaved with, the row at the
      end is the one the other sessions produce among themselves, and never locked by `s`. */
  lemma {:induction false} SupersededSessionIsErased(row: LockRow, stmts: seq<Statement>, s: Session)
    requires row.sessionId != Some(s)
    requires forall st :: st in stmts && st.Acquire? ==> st.who.session != s
    ensures ExecuteAll(row, stmts) == ExecuteAll(row, WithoutSession(stmts, s))
    ensures ExecuteAll(row, stmts).sessionId != Some(s)
    decreases |stmts|
  {
    if stmts != [] {
      var first, rest := stmts[0], stmts[1..];
      assert first in stmts && forall st :: st in rest ==> st in stmts;
      var next := Execute(row, first);
      SupersededSessionIsErased(next, rest, s);
      var others := WithoutSession(rest, s);
      if first.who.session == s {
        assert next == row;
        assert WithoutSession(stmts, s) == others;
      } else {
        assert WithoutSession(stmts, s) == [first] + others;
        assert ([first] + others)[0] == first && ([first] + others)[1..] == others;
      }
    }
  }

  /** Another session's lock is taken over at every time but those up to fifteen seconds after its last
      heartbeat, and without a heartbeat at any time. */
  lemma LockIsTakenOverExactlyWhen(row: LockRow, who: Holder, now: int)
    requires row.isLocked == 1 && !Owns(row, who)
    ensures Owns(Execute(row, Acquire(who, now)), who)
            <==> row.heartbeat.None? || row.heartbeat.value + 15_000 < now
  {
  }

  /** A successor's row is untouched by any heartbeats and releases of other sessions, or of other nodes
      under the same session id, however many and in whatever order they land. */
  lemma {:induction false} SuccessorRowIsFenced(row: LockRow, stmts: seq<Statement>)
    requires forall st :: st in stmts ==>
               !st.Acquire? && (row.sessionId != Some(st.who.session) || row.node != Some(st.who.node))
    ensures ExecuteAll(row, stmts) == row
    decreases |stmts|
  {
    if stmts != [] {
      assert stmts[0] in stmts && forall st :: st in stmts[1..] ==> st in stmts;
      SuccessorRowIsFenced(Execute(row, stmts[0]), stmts[1..]);
    }
  }

  /** After a takeover nothing the old session left behind is visible, and after a session's own
      release its late heartbeats leave the row free. */
  lemma LateStatementsAreHarmless(old': Holder, next: Holder, at: int, row: LockRow, late: seq<Statement>)
    requires old'.session != next.session
    requires forall st :: st in late ==> !st.Acquire? && st.who == old'
    ensures Acquirable(row, at) ==> ExecuteAll(Execute(row, Acquire(next, at)), late) == LockedBy(next, at)
    ensures Owns(row, old') ==> ExecuteAll(Execute(row, Release(old')), late) == FREE_ROW
  {
    if Acquirable(row, at) {
      SuccessorRowIsFenced(LockedBy(next, at), late);
    }
    if Owns(row, old') {
      SupersededSessionIsErased(FREE_ROW, late, old'.session);
      NothingButSession(late, old'.session);
    }
  }

  lemma {:induction false} NothingButSession(stmts: seq<Statement>, s: Session)
    requires forall st :: st in stmts ==> st.who.session == s
    ensures WithoutSession(stmts, s) == []
    decreases |stmts|
  {
    if stmts != [] {
      assert stmts[0] in stmts && forall st :: st in stmts[1..] ==> st in stmts;
      NothingButSession(stmts[1..], s);
    }
  }

  function UpdateRows(rows: seq<LockRow>, stmt: Statement): (r: seq<LockRow>)
    ensures |r| == |rows|
  {
    seq(|rows|, i requires 0 <= i < |rows| => Execute(rows[i], stmt))
  }

  /** A remark on why the table must hold one row: with a second row, a free one, a second session
      acquires while the first still owns a fresh lock. */
  lemma TwoRowsAdmitTwoHolders(a: Holder, b: Holder, at: int)
    requires a.session != b.session
    ensures var rows := [LockedBy(a, at), FREE_ROW];
            && (exists r :: r in rows && Matches(r, Acquire(b, at)))
            && (exists r :: r in UpdateRows(rows, Acquire(b, at)) && Owns(r, a))
            && (exists r :: r in UpdateRows(rows, Acquire(b, at)) && Owns(r, b))
  {
    var rows := [LockedBy(a, at), FREE_ROW];
    var after := UpdateRows(rows, Acquire(b, at));
    assert rows[1] in rows && Matches(rows[1], Acquire(b, at));
    assert after[0] in after && Owns(after[0], a);
    assert after[1] in after && Owns(after[1], b);
  }

  /** Statements that keep coming no later than 15 seconds after `at`, none of them the owner's own
      release, leave the lock with the session that took it then. */
  lemma {:induction false} OwnerStaysInPossession(row: LockRow, who: Holder, at: int, stmts: seq<Statement>)
    requires Owns(row, who) && row.heartbeat.Some? && row.heartbeat.value >= at
    requires forall st :: st in stmts ==>
               && (st.Acquire? ==> st.at <= at + STALE_HEARTBEAT_THRESHOLD_MS)
               && (st.Heartbeat? ==> st.at >= at)
               && (st.Release? ==> st.who != who)
    ensures Owns(ExecuteAll(row, stmts), who)
    decreases |stmts|
  {
    if stmts != [] {
      assert stmts[0] in stmts && forall st :: st in stmts[1..] ==> st in stmts;
      OwnerStaysInPossession(Execute(row, stmts[0]), who, at, stmts[1..]);
    }
  }

  /** From the row as it is created, the first acquire wins: whoever else acquires, heartbeats or
      releases within the next 15 seconds, the first session owns the lock. */
  lemma FirstAcquireWins(who: Holder, at: int, stmts: seq<Statement>)
    requires forall st :: st in stmts ==>
               && (st.Acquire? ==> st.at <= at + STALE_HEARTBEAT_THRESHOLD_MS)
               && (st.Heartbeat? ==> st.at >= at)
               && (st.Release? ==> st.who != who)
    ensures Owns(ExecuteAll(FREE_ROW, [Acquire(who, at)] + stmts), who)
  {
    assert ([Acquire(who, at)] + stmts)[1..] == stmts;
    assert Execute(FREE_ROW, Acquire(who, at)) == LockedBy(who, at);
    OwnerStaysInPossession(LockedBy(who, at), who, at, stmts);
  }

  /** The infisical_migrations_startup_lock table. */
  class StartupLockTable {
    var rows: seq<LockRow>

    /** As created: one row, which nobody owns and anybody can acquire at any time. */
    constructor ()
      ensures rows == [FREE_ROW]
      ensures forall who: Holder :: !Owns(rows[0], who)
      ensures forall now: int :: Acquirable(rows[0], now)
    {
      rows := [FREE_ROW];
    }

    /** An UPDATE: changes the rows that match and answers how many these are. */
    method Update(stmt: Statement) returns (result: nat)
      modifies this
      ensures rows == UpdateRows(old(rows), stmt)
      ensures result > 0 <==> exists i :: 0 <= i < |old(rows)| && Matches(old(rows)[i], stmt)
    {
      result := 0;
      var i := 0;
      while i < |rows|
        invariant 0 <= i <= |rows| == |old(rows)|
        invariant forall j :: 0 <= j < i ==> rows[j] == Execute(old(rows)[j], stmt)
        invariant forall j :: i <= j < |rows| ==> rows[j] == old(rows)[j]
        invariant result > 0 <==> exists j :: 0 <= j < i && Matches(old(rows)[j], stmt)
      {
        if Matches(rows[i], stmt) {
          result := result + 1;
        }
        rows := rows[i := Execute(rows[i], stmt)];
        i := i + 1;
      }
    }

    /** acquireLock. Free and stale rows come into the session's possession with a heartbeat of now,
        all others stay; the reply says whether there was one. */
    method AcquireLock(who: Holder, now: int) returns (acquired: bool)
      modifies this
      ensures rows == UpdateRows(old(rows), Acquire(who, now))
      ensures forall i :: 0 <= i < |rows| && Acquirable(old(rows)[i], now) ==>
                Owns(rows[i], who) && rows[i].heartbeat == Some(now) && !Stale(rows[i], now)
      ensures forall i :: 0 <= i < |rows| && !Acquirable(old(rows)[i], now) ==> rows[i] == old(rows)[i]
      ensures acquired <==> exists i :: 0 <= i < |old(rows)| && Acquirable(old(rows)[i], now)
    {
      var result := Update(Acquire(who, now));
      acquired := result > 0;
      assert forall i :: 0 <= i < |old(rows)| ==>
               (Matches(old(rows)[i], Acquire(who, now)) <==> Acquirable(old(rows)[i], now));
    }

    /** One tick of the heartbeat interval. Rows owned by the session and node stay owned and become
        fresh; no other row, and no other column, changes. */
    method UpdateHeartbeat(who: Holder, now: int)
      modifies this
      ensures rows == UpdateRows(old(rows), Heartbeat(who, now))
      ensures forall i :: 0 <= i < |rows| && Owns(old(rows)[i], who) ==>
                Owns(rows[i], who) && rows[i].heartbeat == Some(now) && !Acquirable(rows[i], now)
      ensures forall i :: 0 <= i < |rows| && !Owns(old(rows)[i], who) ==> rows[i] == old(rows)[i]
    {
      var result := Update(Heartbeat(who, now));
    }

    /** Rows owned by the session and node become free, no other row changes. */
    method ReleaseLock(who: Holder)
      modifies this
      ensures rows == UpdateRows(old(rows), Release(who))
      ensures forall i :: 0 <= i < |rows| && Owns(old(rows)[i], who) ==> forall now: int :: Acquirable(rows[i], now)
      ensures forall i :: 0 <= i < |rows| ==> !Owns(rows[i], who)
      ensures forall i :: 0 <= i < |rows| && !Owns(old(rows)[i], who) ==> rows[i] == old(rows)[i]
    {
      var result := Update(Release(who));
    }

    /** Statements of other sessions landing while this one sleeps. */
    method Interference(stmts: seq<Statement>)
      requires |rows| == 1
      modifies this
      ensures rows == [ExecuteAll(old(rows[0]), stmts)]
    {
      var i := 0;
      while i < |stmts|
        invariant 0 <= i <= |stmts|
        invariant |rows| == 1
        invariant ExecuteAll(rows[0], stmts[i..]) == ExecuteAll(old(rows[0]), stmts)
      {
        assert stmts[i..][1..] == stmts[i + 1..];
        var result := Update(stmts[i]);
        i := i + 1;
      }
      assert stmts[i..] == [];
    }
  }

  /** What one waiter's retry loop meets: the k-th sleep drawn from the jitter, the time the k-th
      acquire statement takes to answer, and the statements of others landing in the k-th sleep. */
  datatype Weather = Weather(sleeps: nat -> RetryDelay, replies: nat -> nat, others: nat -> seq<Statement>)

  datatype Attempted = Attempted(row: LockRow, acquiredAt: Option<int>, attempts: nat, finished: int)

  /** The retry loop from its k-th attempt, made at time `now`. */
  function Retry(row: LockRow, who: Holder, now: int, deadline: int, k: nat, w: Weather): Attempted
    decreases deadline - now
  {
    if now >= deadline then Attempted(row, None, k, now)
    else
      var answered := now + w.replies(k);
      if Acquirable(row, now) then Attempted(LockedBy(who, now), Some(now), k + 1, answered)
      else if deadline <= answered then Attempted(row, None, k + 1, answered)
      else Retry(ExecuteAll(row, w.others(k)), who, answered + Min(w.sleeps(k), deadline - answered), deadline,
          k + 1, w)
  }

  /** The acquisition part of withStartupLock: attempt, sleep a jittered two seconds clipped to
      the remaining time, until the five minutes are used up. */
  method AcquireWithRetries(table: StartupLockTable, who: Holder, start: int, w: Weather)
    returns (lockAcquired: bool, attemptCount: nat, now: int)
    requires |table.rows| == 1
    modifies table
    ensures var r := Retry(old(table.rows[0]), who, start, start + ACQUIRE_LOCK_TIMEOUT_MS, 0, w);
            && table.rows == [r.row]
            && lockAcquired == r.acquiredAt.Some?
            && attemptCount == r.attempts
            && now == r.finished
    ensures lockAcquired ==> Owns(table.rows[0], who)
  {
    lockAcquired, attemptCount, now := false, 0, start;
    while now - start < ACQUIRE_LOCK_TIMEOUT_MS
      invariant |table.rows| == 1 && !lockAcquired
      invariant Retry(table.rows[0], who, now, start + ACQUIRE_LOCK_TIMEOUT_MS, attemptCount, w)
             == Retry(old(table.rows[0]), who, start, start + ACQUIRE_LOCK_TIMEOUT_MS, 0, w)
      decreases start + ACQUIRE_LOCK_TIMEOUT_MS - now
    {
      attemptCount := attemptCount + 1;
      ghost var before := table.rows[0];
      lockAcquired := table.AcquireLock(who, now);
      assert lockAcquired <==> Acquirable(before, now);
      now := now + w.replies(attemptCount - 1);
      if lockAcquired {
        break;
      }
      var remainingTime := ACQUIRE_LOCK_TIMEOUT_MS - (now - start);
      if remainingTime <= 0 {
        break;
      }
      var retryDelay := Min(w.sleeps(attemptCount - 1), remainingTime);
      table.Interference(w.others(attemptCount - 1));
      now := now + retryDelay;
    }
  }

  /** Whatever the other sessions do and however slow the replies are, the loop makes at most 188
      attempts, and when it gives up it has used the whole timeout. */
  lemma {:induction false} RetryIsBounded(row: LockRow, who: Holder, now: int, deadline: int, k: nat, w: Weather)
    requires now - (deadline - ACQUIRE_LOCK_TIMEOUT_MS) >= k * MIN_RETRY_MS || now >= deadline
    requires deadline - ACQUIRE_LOCK_TIMEOUT_MS <= now
    requires k <= 188
    ensures var r := Retry(row, who, now, deadline, k, w);
            && r.attempts <= 188
            && (r.acquiredAt.None? ==> r.finished >= deadline)
            && (r.acquiredAt.Some? ==> now <= r.acquiredAt.value < deadline && Owns(r.row, who))
    decreases deadline - now
  {
    if now < deadline && !Acquirable(row, now) {
      assert k < 188;
      var answered := now + w.replies(k);
      if answered < deadline {
        RetryIsBounded(ExecuteAll(row, w.others(k)), who, answered + Min(w.sleeps(k), deadline - answered),
                       deadline, k + 1, w);
      }
    }
  }

  ghost predicate AnswersWithin(w: Weather, most: nat) {
    forall k: nat :: w.replies(k) <= most
  }

  /** The timeout is not exceeded by sleeping, and no attempt begins after it: with replies of at most
      `most` the loop is over by deadline + most, and if it is over only after the deadline, it was a reply
      that took so long, to an acquire sent before the deadline. */
  lemma {:induction false} RetryIsOverInTime(row: LockRow, who: Holder, now: int, deadline: int, k: nat, w: Weather,
                                             most: nat)
    requires AnswersWithin(w, most) && now <= deadline
    ensures var r := Retry(row, who, now, deadline, k, w);
            && now <= r.finished <= deadline + most
            && (r.finished > deadline ==> r.attempts >= 1 && r.finished - w.replies(r.attempts - 1) < deadline)
    decreases deadline - now
  {
    if now < deadline && !Acquirable(row, now) {
      var answered := now + w.replies(k);
      if answered < deadline {
        RetryIsOverInTime(ExecuteAll(row, w.others(k)), who, answered + Min(w.sleeps(k), deadline - answered),
                          deadline, k + 1, w, most);
      }
    }
  }

  ghost predicate Instant(w: Weather) {
    forall k: nat :: w.replies(k) == 0
  }

  ghost predicate Uncontended(w: Weather) {
    forall k: nat :: w.others(k) == []
  }

  /** With instant replies a waiter that gives up has made at least 125 attempts and stops exactly at
      the deadline. */
  lemma {:induction false} GivingUpTakesManyAttempts(row: LockRow, who: Holder, now: int, deadline: int, k: nat,
                                                     w: Weather)
    requires Instant(w)
    requires now <= deadline
    requires now - (deadline - ACQUIRE_LOCK_TIMEOUT_MS) <= k * MAX_RETRY_MS
    ensures var r := Retry(row, who, now, deadline, k, w);
            r.acquiredAt.None? ==> r.attempts >= 125 && r.finished == deadline
    decreases deadline - now
  {
    if now < deadline && !Acquirable(row, now) {
      GivingUpTakesManyAttempts(ExecuteAll(row, w.others(k)), who, now + Min(w.sleeps(k), deadline - now), deadline,
                                k + 1, w);
    }
  }

  /** Crash recovery. A lone waiter with instant statements faces the row of a crashed holder with
      last heartbeat `h`. It takes the lock at the first attempt after h + 15000, hence at once or
      before h + 15000 + 2400, provided an attempt is still made by then. */
  lemma {:induction false} CrashedHolderIsReplaced(row: LockRow, who: Holder, h: int, now: int, deadline: int, k: nat,
                                                   w: Weather)
    requires Instant(w) && Uncontended(w)
    requires row.isLocked == 1 && row.heartbeat == Some(h)
    requires now < deadline
    requires h + STALE_HEARTBEAT_THRESHOLD_MS + MAX_RETRY_MS < deadline
    ensures var r := Retry(row, who, now, deadline, k, w);
            && r.acquiredAt.Some?
            && h + STALE_HEARTBEAT_THRESHOLD_MS < r.acquiredAt.value
            && now <= r.acquiredAt.value <= Max(now, h + STALE_HEARTBEAT_THRESHOLD_MS + MAX_RETRY_MS)
            && r.row == LockedBy(who, r.acquiredAt.value)
    decreases deadline - now
  {
    if !Acquirable(row, now) {
      assert ExecuteAll(row, w.others(k)) == row;
      CrashedHolderIsReplaced(row, who, h, now + Min(w.sleeps(k), deadline - now), deadline, k + 1, w);
    }
  }

  const LONGEST_SLEEPS := Weather((k: nat) => MAX_RETRY_MS, (k: nat) => 0, (k: nat) => [])

  /** The clipped last sleep ends at the deadline and no attempt follows it: drawing the longest
      sleep every time, the 125th attempt is the last, made 2400 ms before the deadline. */
  lemma {:induction false} LongestSleepsMissLateExpiry(row: LockRow, who: Holder, h: int, now: int, deadline: int,
                                                       k: nat)
    requires row.isLocked == 1 && row.heartbeat == Some(h)
    requires k <= 125 && now == deadline - ACQUIRE_LOCK_TIMEOUT_MS + k * MAX_RETRY_MS
    requires h + STALE_HEARTBEAT_THRESHOLD_MS + MAX_RETRY_MS >= deadline
    ensures Retry(row, who, now, deadline, k, LONGEST_SLEEPS).acquiredAt == None
    decreases deadline - now
  {
    if now < deadline {
      assert k < 125;
      assert ExecuteAll(row, LONGEST_SLEEPS.others(k)) == row;
      assert LONGEST_SLEEPS.sleeps(k) == MAX_RETRY_MS && LONGEST_SLEEPS.replies(k) == 0;
      LongestSleepsMissLateExpiry(row, who, h, now + MAX_RETRY_MS, deadline, k + 1);
    }
  }

  /** The exact condition of crash recovery: whatever sleeps are drawn the lone waiter gets the
      lock, if and only if the lease runs out more than one longest sleep before the deadline. */
  lemma RecoveryIsGuaranteedExactlyWhen(row: LockRow, who: Holder, h: int, start: int)
    requires row.isLocked == 1 && row.heartbeat == Some(h)
    ensures (forall w: Weather :: Instant(w) && Uncontended(w) ==>
               Retry(row, who, start, start + ACQUIRE_LOCK_TIMEOUT_MS, 0, w).acquiredAt.Some?)
            <==> h + STALE_HEARTBEAT_THRESHOLD_MS + MAX_RETRY_MS < start + ACQUIRE_LOCK_TIMEOUT_MS
  {
    var deadline := start + ACQUIRE_LOCK_TIMEOUT_MS;
    if h + STALE_HEARTBEAT_THRESHOLD_MS + MAX_RETRY_MS < deadline {
      forall w: Weather | Instant(w) && Uncontended(w)
        ensures Retry(row, who, start, deadline, 0, w).acquiredAt.Some?
      {
        CrashedHolderIsReplaced(row, who, h, start, deadline, 0, w);
      }
    } else {
      LongestSleepsMissLateExpiry(row, who, h, start, deadline, 0);
      assert Instant(LONGEST_SLEEPS) && Uncontended(LONGEST_SLEEPS);
    }
  }
}
