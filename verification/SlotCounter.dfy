/** keystore.ts: the concurrency-slot counter kept in one Redis key by two Lua scripts, and what it
    says about the jobs that really hold a slot. Times are in milliseconds of the Redis clock. */
module SlotCounter {
  import opened Prelude

  /** A Redis key holding an integer, with the time it expires if it has one. */
  datatype Key = Key(value: int, expiresAt: Option<int>)

  function ValueOf(key: Option<Key>): int {
    if key.None? then 0 else key.value.value
  }

  // Redis commands on the key.

  function Incr(key: Option<Key>): Key {
    if key.None? then Key(1, None) else key.value.(value := key.value.value + 1)
  }

  function Decr(key: Key): Key {
    key.(value := key.value - 1)
  }

  /** EXPIRE with a non-positive number of seconds deletes the key at once. */
  function Expire(key: Key, seconds: int, now: int): Option<Key> {
    if seconds <= 0 then None else Some(key.(expiresAt := Some(now + seconds * 1000)))
  }

  // The two scripts, as functions from the key to the key afterwards and the reply.

  function Admit(key: Option<Key>, limit: int, seconds: int, now: int): (Option<Key>, int) {
    var up := Incr(key);
    if up.value > limit then (Some(Decr(up)), -1) else (Expire(up, seconds, now), up.value)
  }

  function Free(key: Option<Key>): (Option<Key>, int) {
    if key.None? || key.value.value <= 1 then (None, 0) else (Some(Decr(key.value)), key.value.value - 1)
  }

  /** What an admit comes to: below the limit it counts one more, answers the new count and starts the
      time to live anew; at the limit it answers -1 and the key is as before, its deadline included. */
  lemma AdmitOutcome(key: Option<Key>, limit: int, seconds: int, now: int)
    requires 1 <= limit && 1 <= seconds
    ensures Admit(key, limit, seconds, now)
         == if ValueOf(key) < limit then (Some(Key(ValueOf(key) + 1, Some(now + 1000 * seconds))), ValueOf(key) + 1)
            else (key, -1)
  {
  }

  /** The counter key as the scripts change it, command by command. */
  class RedisCounter {
    var key: Option<Key>

    constructor ()
      ensures key == None
    {
      key := None;
    }

    method IncrementAndRefreshExpiryIfUnderLimit(limit: int, expiryInSeconds: int, now: int) returns (reply: int)
      modifies this
      ensures (key, reply) == Admit(old(key), limit, expiryInSeconds, now)
      ensures 1 <= limit && (old(key).Some? ==> old(key).value.value >= 1) ==>
                (reply == -1 <==> ValueOf(old(key)) >= limit)
      ensures 1 <= limit && 1 <= expiryInSeconds ==> reply == -1 || reply == ValueOf(key) == ValueOf(old(key)) + 1
      ensures old(key).Some? && old(key).value.value >= limit ==> reply == -1 && key == old(key)
    {
      var count := Incr(key);
      key := Some(count);
      if count.value > limit {
        key := Some(Decr(key.value));
        return -1;
      }
      key := Expire(key.value, expiryInSeconds, now);
      return count.value;
    }

    method DecrementOrDelete() returns (reply: int)
      modifies this
      ensures (key, reply) == Free(old(key))
      ensures reply == Max(0, ValueOf(old(key)) - 1) == ValueOf(key)
      ensures key.Some? ==> old(key).Some? && key.value.expiresAt == old(key).value.expiresAt
    {
      var current := key;
      if current.None? || current.value.value <= 1 {
        key := None;
        return 0;
      }
      key := Some(Decr(current.value));
      return key.value.value;
    }
  }

  // ---------------------------------------------------------------- the counter and its holders

  /** `running` are the admitted jobs that may still release; `orphans` those that crashed and never
      will. `admitted` lists when each job was admitted, in order. `expiries` counts how often the key
      expired, `lastAdmit` is the time of the last successful admit. */
  datatype State = State(now: int, key: Option<Key>, running: set<nat>, orphans: set<nat>, admitted: seq<int>,
                         expiries: nat, lastAdmit: int)

  /** The cap and the time to live, as passed with every admit. */
  datatype Config = Config(limit: int, seconds: int)

  datatype Step =
    | TryAdmit              // admitted or rejected
    | Release(job: nat)
    | CrashJob(job: nat)
    | Advance(dt: nat)      // time passes, and Redis drops the key if it expires

  function Outstanding(s: State): set<nat> {
    s.running + s.orphans
  }

  predicate Enabled(s: State, step: Step) {
    match step
    case TryAdmit => true
    case Release(job) => job in s.running
    case CrashJob(job) => job in s.running
    case Advance(_) => true
  }

  predicate Expired(key: Option<Key>, now: int) {
    key.Some? && key.value.expiresAt.Some? && key.value.expiresAt.value <= now
  }

  function Apply(c: Config, s: State, step: Step): State
    requires Enabled(s, step)
  {
    match step
    case TryAdmit =>
      var (key, reply) := Admit(s.key, c.limit, c.seconds, s.now);
      if reply == -1 then s.(key := key)
      else s.(key := key, running := s.running + {|s.admitted|}, admitted := s.admitted + [s.now], lastAdmit := s.now)
    case Release(job) => s.(key := Free(s.key).0, running := s.running - {job})
    case CrashJob(job) => s.(running := s.running - {job}, orphans := s.orphans + {job})
    case Advance(dt) =>
      var now := s.now + dt;
      if Expired(s.key, now) then s.(now := now, key := None, expiries := s.expiries + 1) else s.(now := now)
  }

  const FRESH := State(0, None, {}, {}, [], 0, 0)

  /** The state after the steps, each of which must be possible. */
  ghost predicate Runs(c: Config, s: State, steps: seq<Step>, t: State)
    decreases |steps|
  {
    if steps == [] then s == t else Enabled(s, steps[0]) && Runs(c, Apply(c, s, steps[0]), steps[1..], t)
  }

  predicate Sound(c: Config) {
    c.limit >= 1 && c.seconds >= 1
  }

  /** `n` full rounds of `limit` jobs. */
  function Rounds(limit: int, n: nat): int {
    if n == 0 then 0 else limit + Rounds(limit, n - 1)
  }

  lemma {:induction false} RoundsIsProduct(limit: int, n: nat)
    ensures Rounds(limit, n) == limit * n
  {
    if n > 0 {
      RoundsIsProduct(limit, n - 1);
      assert limit * n == limit * (n - 1) + limit;
    }
  }

  predicate Rejected(c: Config, s: State) {
    Admit(s.key, c.limit, c.seconds, s.now).1 == -1
  }

  predicate KeyOk(c: Config, s: State) {
    && (s.key.Some? ==>
          && 1 <= s.key.value.value
          && s.key.value.expiresAt == Some(s.lastAdmit + c.seconds * 1000)
          && s.now < s.lastAdmit + c.seconds * 1000)
    && 0 <= ValueOf(s.key) <= c.limit
  }

  predicate JobsOk(s: State) {
    && s.running !! s.orphans
    && forall job :: job in Outstanding(s) ==> job < |s.admitted|
  }

  predicate CountOk(c: Config, s: State) {
    ValueOf(s.key) <= |Outstanding(s)| <= ValueOf(s.key) + Rounds(c.limit, s.expiries)
  }

  predicate Inv(c: Config, s: State) {
    KeyOk(c, s) && JobsOk(s) && CountOk(c, s)
  }

  lemma StepKeepsKey(c: Config, s: State, step: Step)
    requires Sound(c) && KeyOk(c, s) && Enabled(s, step)
    ensures KeyOk(c, Apply(c, s, step))
  {
  }

  lemma RoundsGrow(limit: int, n: nat)
    requires limit >= 0
    ensures Rounds(limit, n) >= 0
  {
  }

  lemma OneMoreOrLess(jobs: set<nat>, job: nat)
    ensures job !in jobs ==> |jobs + {job}| == |jobs| + 1
    ensures job in jobs ==> |jobs - {job}| == |jobs| - 1
  {
  }

  /** The outstanding jobs after a step: one more, one less, or the same. */
  lemma StepMovesJobs(c: Config, s: State, step: Step)
    requires JobsOk(s) && Enabled(s, step)
    ensures JobsOk(Apply(c, s, step))
    ensures Outstanding(Apply(c, s, step)) ==
      if step.TryAdmit? && !Rejected(c, s) then Outstanding(s) + {|s.admitted|}
      else if step.Release? then Outstanding(s) - {step.job}
      else Outstanding(s)
  {
    var t := Apply(c, s, step);
    if step.CrashJob? {
      assert Outstanding(t) == Outstanding(s);
    } else if step.Release? {
      assert Outstanding(t) == Outstanding(s) - {step.job};
    } else if step.TryAdmit? && !Rejected(c, s) {
      assert Outstanding(t) == Outstanding(s) + {|s.admitted|};
    } else {
      assert Outstanding(t) == Outstanding(s);
    }
  }

  /** So their number changes by exactly the admitted or released one. */
  lemma StepCountsJobs(c: Config, s: State, step: Step)
    requires JobsOk(s) && Enabled(s, step)
    ensures |Outstanding(Apply(c, s, step))| == |Outstanding(s)|
              + (if step.TryAdmit? && !Rejected(c, s) then 1 else 0) - (if step.Release? then 1 else 0)
  {
    StepMovesJobs(c, s, step);
    if step.TryAdmit? && !Rejected(c, s) {
      assert |s.admitted| !in Outstanding(s);
      OneMoreOrLess(Outstanding(s), |s.admitted|);
    } else if step.Release? {
      assert step.job in Outstanding(s);
      OneMoreOrLess(Outstanding(s), step.job);
    }
  }

  lemma StepKeepsInv(c: Config, s: State, step: Step)
    requires Sound(c) && Inv(c, s) && Enabled(s, step)
    ensures Inv(c, Apply(c, s, step))
  {
    StepKeepsKey(c, s, step);
    StepMovesJobs(c, s, step);
    StepCountsJobs(c, s, step);
    RoundsGrow(c.limit, s.expiries);
  }

  lemma {:induction false} RunKeepsInv(c: Config, s: State, steps: seq<Step>, t: State)
    requires Sound(c) && Inv(c, s) && Runs(c, s, steps, t)
    ensures Inv(c, t)
    decreases |steps|
  {
    if steps != [] {
      StepKeepsInv(c, s, steps[0]);
      RunKeepsInv(c, Apply(c, s, steps[0]), steps[1..], t);
    }
  }

  /** The counter against the jobs it counts, after any run from an empty key. It stays between 0
      and the limit and never exceeds the outstanding jobs, and every expiry can over-admit by at most
      one limit. When the cap is kept is said below. */
  lemma CounterAgainstHolders(c: Config, steps: seq<Step>, t: State)
    requires Sound(c) && Runs(c, FRESH, steps, t)
    ensures 0 <= ValueOf(t.key) <= c.limit
    ensures ValueOf(t.key) <= |Outstanding(t)| <= c.limit * (t.expiries + 1)
    ensures t.expiries == 0 ==> |Outstanding(t)| == ValueOf(t.key) <= c.limit
  {
    assert Outstanding(FRESH) == {};
    RunKeepsInv(c, FRESH, steps, t);
    RoundsIsProduct(c.limit, t.expiries + 1);
  }

  /** Below the cap any number of probes up to it are admitted. */
  lemma {:induction false} AdmitMany(c: Config, s: State, n: nat) returns (t: State)
    requires Sound(c) && Inv(c, s) && ValueOf(s.key) + n <= c.limit && n >= 1
    ensures Runs(c, s, seq(n, _ => TryAdmit), t)
    ensures t.orphans == s.orphans
    ensures Inv(c, t)
    ensures ValueOf(t.key) == ValueOf(s.key) + n && t.key.Some?
    ensures |Outstanding(t)| == |Outstanding(s)| + n
    ensures t.expiries == s.expiries && t.now == s.now && t.lastAdmit == s.now
    decreases n
  {
    StepKeepsInv(c, s, TryAdmit);
    var u := Apply(c, s, TryAdmit);
    assert Outstanding(u) == Outstanding(s) + {|s.admitted|};
    var steps := seq(n, _ => TryAdmit);
    assert steps[1..] == seq(n - 1, _ => TryAdmit);
    if n == 1 {
      t := u;
      assert Runs(c, u, [], u);
    } else {
      t := AdmitMany(c, u, n - 1);
    }
  }

  lemma {:induction false} RunsCompose(c: Config, s: State, a: seq<Step>, t: State, b: seq<Step>, u: State)
    requires Runs(c, s, a, t) && Runs(c, t, b, u)
    ensures Runs(c, s, a + b, u)
    decreases |a|
  {
    if a == [] {
      assert a + b == b;
    } else {
      assert (a + b)[1..] == a[1..] + b;
      RunsCompose(c, Apply(c, s, a[0]), a[1..], t, b, u);
    }
  }

  /** The bound for expiries is attained: a full round of jobs outlives one expiry and a second full
      round is admitted. */
  lemma OneExpiryCanDoubleTheHolders(c: Config) returns (steps: seq<Step>, t: State)
    requires Sound(c)
    ensures Runs(c, FRESH, steps, t)
    ensures t.expiries == 1 && |Outstanding(t)| == 2 * c.limit
  {
    assert Outstanding(FRESH) == {};
    var full := AdmitMany(c, FRESH, c.limit);
    var wait := Advance(c.seconds * 1000);
    StepKeepsInv(c, full, wait);
    var expired := Apply(c, full, wait);
    assert Runs(c, full, [wait], expired) by {
      assert Runs(c, expired, [wait][1..], expired);
    }
    t := AdmitMany(c, expired, c.limit);
    var round := seq(c.limit, _ => TryAdmit);
    RunsCompose(c, FRESH, round, full, [wait], expired);
    RunsCompose(c, FRESH, round + [wait], expired, round, t);
    steps := round + [wait] + round;
  }

  // ---------------------------------------------------------------- the cap and the lifetime of jobs

  /** No job among `jobs` has been there for `life` milliseconds. */
  predicate Young(jobs: set<nat>, admitted: seq<int>, now: int, life: int) {
    forall job :: job in jobs ==> job < |admitted| && now < admitted[job] + life
  }

  /** In no state of the run a running job reaches the age of `life`. */
  ghost predicate ShortJobs(c: Config, life: int, s: State, steps: seq<Step>)
    decreases |steps|
  {
    && Young(s.running, s.admitted, s.now, life)
    && (steps == [] || (Enabled(s, steps[0]) && ShortJobs(c, life, Apply(c, s, steps[0]), steps[1..])))
  }

  /** In no state of the run an outstanding job, running or crashed, reaches that age. */
  ghost predicate ShortHolders(c: Config, life: int, s: State, steps: seq<Step>)
    decreases |steps|
  {
    && Young(Outstanding(s), s.admitted, s.now, life)
    && (steps == [] || (Enabled(s, steps[0]) && ShortHolders(c, life, Apply(c, s, steps[0]), steps[1..])))
  }

  /** Every job was admitted no later than the last one. */
  predicate AdmittedInOrder(s: State) {
    s.lastAdmit <= s.now && forall job :: 0 <= job < |s.admitted| ==> s.admitted[job] <= s.lastAdmit
  }

  lemma StepKeepsOrder(c: Config, s: State, step: Step)
    requires AdmittedInOrder(s) && Enabled(s, step)
    ensures AdmittedInOrder(Apply(c, s, step))
  {
  }

  /** When the key expires, jobs shorter than the time to live have all ended. */
  lemma ExpiryFindsNoYoungJob(c: Config, s: State, dt: nat, jobs: set<nat>)
    requires KeyOk(c, s) && AdmittedInOrder(s) && Expired(s.key, s.now + dt)
    requires Young(jobs, s.admitted, s.now + dt, c.seconds * 1000)
    ensures jobs == {}
  {
  }

  lemma YoungForLonger(jobs: set<nat>, admitted: seq<int>, now: int, life: int, longer: int)
    requires Young(jobs, admitted, now, life) && life <= longer
    ensures Young(jobs, admitted, now, longer)
  {
  }

  /** A step changes the number of running jobs by at most the admitted or released one. */
  lemma StepCountsRunning(c: Config, s: State, step: Step)
    requires JobsOk(s) && Enabled(s, step)
    ensures |Apply(c, s, step).running| ==
              |s.running| + (if step.TryAdmit? && !Rejected(c, s) then 1 else 0)
                - (if step.Release? || step.CrashJob? then 1 else 0)
  {
    if step.TryAdmit? && !Rejected(c, s) {
      assert |s.admitted| !in Outstanding(s);
      OneMoreOrLess(s.running, |s.admitted|);
    } else if step.Release? || step.CrashJob? {
      OneMoreOrLess(s.running, step.job);
    }
  }

  /** With jobs shorter than the time to live the counter covers all running jobs, after any step. */
  lemma StepCoversRunning(c: Config, s: State, step: Step)
    requires Sound(c) && Inv(c, s) && AdmittedInOrder(s) && Enabled(s, step)
    requires |s.running| <= ValueOf(s.key)
    requires var t := Apply(c, s, step); Young(t.running, t.admitted, t.now, c.seconds * 1000)
    ensures var t := Apply(c, s, step); |t.running| <= ValueOf(t.key)
  {
    StepCountsRunning(c, s, step);
    if step.Advance? && Expired(s.key, s.now + step.dt) {
      ExpiryFindsNoYoungJob(c, s, step.dt, s.running);
    }
  }

  /** The same for all outstanding jobs, which the counter then equals. */
  lemma StepCountsOutstanding(c: Config, s: State, step: Step)
    requires Sound(c) && Inv(c, s) && AdmittedInOrder(s) && Enabled(s, step)
    requires |Outstanding(s)| == ValueOf(s.key)
    requires var t := Apply(c, s, step); Young(Outstanding(t), t.admitted, t.now, c.seconds * 1000)
    ensures var t := Apply(c, s, step); |Outstanding(t)| == ValueOf(t.key)
  {
    StepCountsJobs(c, s, step);
  }

  lemma {:induction false} ShortJobsAreCovered(c: Config, life: int, s: State, steps: seq<Step>, t: State)
    requires Sound(c) && life <= c.seconds * 1000 && Inv(c, s) && AdmittedInOrder(s)
    requires |s.running| <= ValueOf(s.key)
    requires Runs(c, s, steps, t) && ShortJobs(c, life, s, steps)
    ensures |t.running| <= ValueOf(t.key) <= c.limit
    decreases |steps|
  {
    if steps != [] {
      var u := Apply(c, s, steps[0]);
      YoungForLonger(u.running, u.admitted, u.now, life, c.seconds * 1000);
      StepCoversRunning(c, s, steps[0]);
      StepKeepsInv(c, s, steps[0]);
      StepKeepsOrder(c, s, steps[0]);
      ShortJobsAreCovered(c, life, u, steps[1..], t);
    }
  }

  lemma {:induction false} ShortHoldersAreCounted(c: Config, life: int, s: State, steps: seq<Step>, t: State)
    requires Sound(c) && life <= c.seconds * 1000 && Inv(c, s) && AdmittedInOrder(s)
    requires |Outstanding(s)| == ValueOf(s.key)
    requires Runs(c, s, steps, t) && ShortHolders(c, life, s, steps)
    ensures |Outstanding(t)| == ValueOf(t.key) <= c.limit
    decreases |steps|
  {
    if steps != [] {
      var u := Apply(c, s, steps[0]);
      YoungForLonger(Outstanding(u), u.admitted, u.now, life, c.seconds * 1000);
      StepCountsOutstanding(c, s, steps[0]);
      StepKeepsInv(c, s, steps[0]);
      StepKeepsOrder(c, s, steps[0]);
      ShortHoldersAreCounted(c, life, u, steps[1..], t);
    }
  }

  /** Without crashes the two notions of a short run are the same. */
  lemma {:induction false} WithoutCrashes(c: Config, life: int, s: State, steps: seq<Step>)
    requires s.orphans == {} && forall step :: step in steps ==> !step.CrashJob?
    requires ShortJobs(c, life, s, steps)
    ensures ShortHolders(c, life, s, steps)
    decreases |steps|
  {
    assert Outstanding(s) == s.running;
    if steps != [] {
      assert steps[0] in steps && forall st :: st in steps[1..] ==> st in steps;
      WithoutCrashes(c, life, Apply(c, s, steps[0]), steps[1..]);
    }
  }

  lemma {:induction false} ShortRunsCompose(c: Config, life: int, s: State, a: seq<Step>, t: State, b: seq<Step>)
    requires Runs(c, s, a, t) && ShortJobs(c, life, s, a) && ShortJobs(c, life, t, b)
    ensures ShortJobs(c, life, s, a + b)
    decreases |a|
  {
    if a == [] {
      assert a + b == b;
    } else {
      assert (a + b)[1..] == a[1..] + b;
      ShortRunsCompose(c, life, Apply(c, s, a[0]), a[1..], t, b);
    }
  }

  lemma {:induction false} ProbesStayShort(c: Config, life: int, s: State, n: nat)
    requires life >= 1 && Young(s.running, s.admitted, s.now, life)
    ensures ShortJobs(c, life, s, seq(n, _ => TryAdmit))
    decreases n
  {
    var steps := seq(n, _ => TryAdmit);
    if n > 0 {
      assert steps[1..] == seq(n - 1, _ => TryAdmit);
      ProbesStayShort(c, life, Apply(c, s, TryAdmit), n - 1);
    }
  }

  lemma {:induction false} ShortAtTheEnd(c: Config, life: int, s: State, steps: seq<Step>, t: State)
    requires Runs(c, s, steps, t) && ShortJobs(c, life, s, steps)
    ensures Young(t.running, t.admitted, t.now, life)
    decreases |steps|
  {
    if steps != [] {
      ShortAtTheEnd(c, life, Apply(c, s, steps[0]), steps[1..], t);
    }
  }

  /** Time passes by less than `life` after a run in which every job was admitted just now. */
  lemma WaitIsShort(c: Config, life: int, s: State, dt: nat)
    requires Young(s.running, s.admitted, s.now, 1) && dt < life
    ensures ShortJobs(c, life, s, [Advance(dt)]) && Runs(c, s, [Advance(dt)], Apply(c, s, Advance(dt)))
    ensures var t := Apply(c, s, Advance(dt)); Young(t.running, t.admitted, t.now, life)
  {
    var t := Apply(c, s, Advance(dt));
    assert [Advance(dt)][1..] == [];
    assert Runs(c, t, [], t) && ShortJobs(c, life, t, []);
  }

  /** A run from an empty key without a running job of age `life`. */
  ghost predicate ShortRun(c: Config, life: int, steps: seq<Step>, t: State) {
    Runs(c, FRESH, steps, t) && ShortJobs(c, life, FRESH, steps)
  }

  /** The same without an outstanding job of that age. */
  ghost predicate ShortHoldersRun(c: Config, life: int, steps: seq<Step>, t: State) {
    Runs(c, FRESH, steps, t) && ShortHolders(c, life, FRESH, steps)
  }

  lemma ExtendShortRun(c: Config, life: int, a: seq<Step>, t: State, b: seq<Step>, u: State)
    requires ShortRun(c, life, a, t) && Runs(c, t, b, u) && ShortJobs(c, life, t, b)
    ensures ShortRun(c, life, a + b, u)
  {
    RunsCompose(c, FRESH, a, t, b, u);
    ShortRunsCompose(c, life, FRESH, a, t, b);
  }

  /** A full round of jobs is admitted at once, and then the key expires. */
  lemma FullRoundExpires(c: Config, life: int) returns (steps: seq<Step>, t: State)
    requires Sound(c) && life > c.seconds * 1000
    ensures ShortRun(c, life, steps, t) && forall step :: step in steps ==> !step.CrashJob?
    ensures Inv(c, t) && t.key.None? && t.orphans == {} && |Outstanding(t)| == c.limit
    ensures Young(t.running, t.admitted, t.now, life)
  {
    assert Outstanding(FRESH) == {};
    var round := seq(c.limit, _ => TryAdmit);
    var full := AdmitMany(c, FRESH, c.limit);
    ProbesStayShort(c, 1, FRESH, c.limit);
    ShortAtTheEnd(c, 1, FRESH, round, full);
    ProbesStayShort(c, life, FRESH, c.limit);
    var wait := Advance(c.seconds * 1000);
    StepKeepsInv(c, full, wait);
    StepMovesJobs(c, full, wait);
    WaitIsShort(c, life, full, c.seconds * 1000);
    t := Apply(c, full, wait);
    ExtendShortRun(c, life, round, full, [wait], t);
    steps := round + [wait];
  }

  /** Jobs that may be older than the time to live break the cap: a full round is admitted, the key
      expires, and one more job is admitted beside them. */
  lemma LongJobsExceedTheCap(c: Config, life: int) returns (steps: seq<Step>, t: State)
    requires Sound(c) && life > c.seconds * 1000
    ensures ShortRun(c, life, steps, t) && ShortHoldersRun(c, life, steps, t)
    ensures |t.running| == |Outstanding(t)| == c.limit + 1
  {
    var before, expired := FullRoundExpires(c, life);
    t := AdmitMany(c, expired, 1);
    var one := seq(1, _ => TryAdmit);
    ProbesStayShort(c, life, expired, 1);
    ExtendShortRun(c, life, before, expired, one, t);
    steps := before + one;
    WithoutCrashes(c, life, FRESH, steps);
    assert Outstanding(t) == t.running;
  }

  /** The exact condition for the cap on concurrency: at most `limit` jobs run at a time, in every run
      without a running job of age `life` and with any crashes, if and only if `life` is no longer than
      the time to live. */
  lemma CapIsKeptExactlyWhenJobsAreShort(c: Config, life: int)
    requires Sound(c)
    ensures (forall steps, t :: ShortRun(c, life, steps, t) ==> |t.running| <= c.limit)
            <==> life <= c.seconds * 1000
  {
    if life <= c.seconds * 1000 {
      forall steps, t | ShortRun(c, life, steps, t) ensures |t.running| <= c.limit {
        assert Outstanding(FRESH) == {};
        ShortJobsAreCovered(c, life, FRESH, steps, t);
      }
    } else {
      var steps, t := LongJobsExceedTheCap(c, life);
      assert ShortRun(c, life, steps, t) && |t.running| > c.limit;
    }
  }

  /** The same for all jobs that have not released, and then the counter is exactly their number. */
  lemma CounterIsExactExactlyWhenHoldersAreShort(c: Config, life: int)
    requires Sound(c)
    ensures (forall steps, t :: ShortHoldersRun(c, life, steps, t) ==> |Outstanding(t)| == ValueOf(t.key) <= c.limit)
            <==> life <= c.seconds * 1000
  {
    if life <= c.seconds * 1000 {
      forall steps, t | ShortHoldersRun(c, life, steps, t) ensures |Outstanding(t)| == ValueOf(t.key) <= c.limit {
        assert Outstanding(FRESH) == {};
        ShortHoldersAreCounted(c, life, FRESH, steps, t);
      }
    } else {
      var steps, t := LongJobsExceedTheCap(c, life);
      assert ShortHoldersRun(c, life, steps, t) && |Outstanding(t)| > c.limit;
    }
  }

  // ---------------------------------------------------------------- orphan recovery

  /** No step of the run is a successful admit. */
  ghost predicate NothingAdmitted(c: Config, s: State, steps: seq<Step>)
    decreases |steps|
  {
    steps == [] ||
    (Enabled(s, steps[0]) && (steps[0].TryAdmit? ==> Rejected(c, s))
     && NothingAdmitted(c, Apply(c, s, steps[0]), steps[1..]))
  }

  lemma {:induction false} DeadlineIsNotExtended(c: Config, s: State, steps: seq<Step>, t: State)
    requires Sound(c) && Inv(c, s) && Runs(c, s, steps, t) && NothingAdmitted(c, s, steps)
    ensures Inv(c, t) && t.lastAdmit == s.lastAdmit && t.admitted == s.admitted && s.now <= t.now
    decreases |steps|
  {
    if steps != [] {
      StepKeepsInv(c, s, steps[0]);
      DeadlineIsNotExtended(c, Apply(c, s, steps[0]), steps[1..], t);
    }
  }

  /** Any number of rejected probes, releases and crashes later, the key is gone once the time to
      live has passed since the last successful admit, and the next probe is admitted. */
  lemma OrphansAreRecovered(c: Config, s: State, steps: seq<Step>, t: State)
    requires Sound(c) && Inv(c, s) && Runs(c, s, steps, t) && NothingAdmitted(c, s, steps)
    requires t.now >= s.lastAdmit + c.seconds * 1000
    ensures t.key.None?
    ensures !Rejected(c, t)
  {
    DeadlineIsNotExtended(c, s, steps, t);
  }

  predicate NoRelease(steps: seq<Step>) {
    forall step :: step in steps ==> !step.Release?
  }

  lemma {:induction false} ClockIsMonotone(c: Config, s: State, steps: seq<Step>, t: State)
    requires Runs(c, s, steps, t)
    ensures s.now <= t.now
    decreases |steps|
  {
    if steps != [] {
      ClockIsMonotone(c, Apply(c, s, steps[0]), steps[1..], t);
    }
  }

  /** A saturated counter whose jobs do not release turns every single probe away until the deadline:
      over any run of probes, crashes and time that ends before it, no probe is admitted and the key
      stays exactly as it is. */
  lemma {:induction false} SaturatedRejectsEveryProbe(c: Config, s: State, steps: seq<Step>, t: State)
    requires Sound(c) && Inv(c, s) && ValueOf(s.key) == c.limit
    requires Runs(c, s, steps, t) && NoRelease(steps)
    requires t.now < s.lastAdmit + c.seconds * 1000
    ensures NothingAdmitted(c, s, steps)
    ensures t.key == s.key && Rejected(c, t)
    decreases |steps|
  {
    if steps != [] {
      var u := Apply(c, s, steps[0]);
      assert steps[0] in steps && forall st :: st in steps[1..] ==> st in steps;
      ClockIsMonotone(c, u, steps[1..], t);
      StepKeepsInv(c, s, steps[0]);
      assert u.key == s.key;
      SaturatedRejectsEveryProbe(c, u, steps[1..], t);
    }
  }

  /** The recovery time is exact: of a saturated counter whose jobs all crashed, the probes of a run
      and the one that follows it are all rejected if and only if the run ends before the deadline. */
  lemma SaturatedUntilTheDeadline(c: Config, s: State, steps: seq<Step>, t: State)
    requires Sound(c) && Inv(c, s) && ValueOf(s.key) == c.limit
    requires Runs(c, s, steps, t) && NoRelease(steps)
    ensures NothingAdmitted(c, s, steps) && Rejected(c, t) <==> t.now < s.lastAdmit + c.seconds * 1000
  {
    if t.now < s.lastAdmit + c.seconds * 1000 {
      SaturatedRejectsEveryProbe(c, s, steps, t);
    } else if NothingAdmitted(c, s, steps) {
      OrphansAreRecovered(c, s, steps, t);
    }
  }

  /** The scripts leave no key without a time to live, whatever key they find (a live one with a
      positive value, or none), if and only if the limit is at least 1. */
  lemma TtlExactlyWhenLimitPositive(limit: int, seconds: int)
    requires seconds >= 1
    ensures (forall key: Option<Key>, now: int ::
               (key.Some? ==> key.value.value >= 1 && key.value.expiresAt.Some?) ==>
                 var after := Admit(key, limit, seconds, now).0;
                 after.Some? ==> after.value.value >= 1 && after.value.expiresAt.Some?)
            <==> limit >= 1
  {
    if limit < 1 {
      assert Admit(None, limit, seconds, 0).0 == Some(Key(0, None));
    }
  }
}
