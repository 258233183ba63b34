/** auto-start-migrations.ts, runMigrations and withStartupLock: any number of server instances,
    each with its own bundle of migrations, booting against one database.

    The state machine works at the granularity of SQL statements and timer ticks. A statement that
    was sent may land at any later time, also after its sender crashed, gave up or finished. Only
    the statements of a live lock holder obey the two latency bounds of the configuration. */
module BootProtocol {
  import opened Prelude
  import opened BootDirection
  import opened StartupLock

  /** Bounds on the time from executing an acquire to its reply reaching the client, and from a
      heartbeat tick to its write executing. */
  datatype Config = Config(replyBound: nat, writeBound: nat)

  /** doMigrations returns or throws; either way the lock is released. */
  datatype Outcome = Normal | Thrown

  datatype Pc =
    | Idle                                          // before the unlocked boot-direction check
    | Waiting                                       // in the retry loop, no acquire outstanding
    | Requested                                     // an acquire has been sent
    | Granted(at: int)                              // the acquire took the row; no reply yet
    | Denied                                        // the acquire changed no row; no reply yet
    | Holding(nextTick: int)                        // inside doMigrations, before the locked check
    | Migrating(todo: seq<Name>, nextTick: int)     // inside doMigrations, applying
    | Releasing(outcome: Outcome)                   // heartbeat stopped, release sent
    | Returned
    | Failed
    | Crashed

  /** `beats` are the tick times of heartbeat writes sent and not yet executed. */
  datatype Instance = Instance(node: Node, bundle: seq<Name>, pc: Pc, beats: set<int>,
                               acquireInFlight: bool, releaseInFlight: bool)

  datatype State = State(now: int, row: LockRow, applied: seq<Name>, insts: seq<Instance>)

  datatype Step =
    | UnlockedCheck(i: nat)
    | SendAcquire(i: nat)
    | ExecAcquire(i: nat)
    | AcquireReply(i: nat)
    | GiveUp(i: nat)
    | Tick(i: nat)
    | ExecHeartbeat(i: nat, sentAt: int)
    | LockedCheck(i: nat)
    | ApplyNext(i: nat)
    | MigrationThrows(i: nat)
    | AllApplied(i: nat)
    | ExecRelease(i: nat)
    | ReleaseReply(i: nat)
    | Crash(i: nat)
    | Advance(dt: nat)

  function Who(s: State, i: nat): Holder
    requires i < |s.insts|
  {
    Holder(i, s.insts[i].node)
  }

  predicate Inside(inst: Instance) {
    inst.pc.Holding? || inst.pc.Migrating?
  }

  predicate Final(pc: Pc) {
    pc.Returned? || pc.Failed? || pc.Crashed?
  }

  /** The clock may move to `t`: no live holder has a tick, a heartbeat write or an acquire reply
      overdue at `t`. */
  predicate OnTime(cfg: Config, inst: Instance, t: int) {
    && (Inside(inst) ==> t <= inst.pc.nextTick && forall b :: b in inst.beats ==> t <= b + cfg.writeBound)
    && (inst.pc.Granted? ==> t <= inst.pc.at + cfg.replyBound)
  }

  predicate Enabled(cfg: Config, s: State, step: Step) {
    if step.Advance? then
      forall i :: 0 <= i < |s.insts| ==> OnTime(cfg, s.insts[i], s.now + step.dt)
    else
      && step.i < |s.insts|
      && var inst := s.insts[step.i];
         match step
         case UnlockedCheck(_) => inst.pc.Idle?
         case SendAcquire(_) => inst.pc.Waiting?
         case ExecAcquire(_) => inst.acquireInFlight
         case AcquireReply(_) => inst.pc.Granted? || inst.pc.Denied?
         case GiveUp(_) => inst.pc.Waiting?
         case Tick(_) => Inside(inst) && s.now == inst.pc.nextTick
         case ExecHeartbeat(_, sentAt) => sentAt in inst.beats
         case LockedCheck(_) => inst.pc.Holding?
         case ApplyNext(_) => inst.pc.Migrating? && inst.pc.todo != []
         case MigrationThrows(_) => inst.pc.Migrating? && inst.pc.todo != []
         case AllApplied(_) => inst.pc.Migrating? && inst.pc.todo == []
         case ExecRelease(_) => inst.releaseInFlight
         case ReleaseReply(_) => inst.pc.Releasing?
         case Crash(_) => !Final(inst.pc)
  }

  /** Stop the heartbeat and send the release. */
  function Leave(inst: Instance, outcome: Outcome): Instance {
    inst.(pc := Releasing(outcome), releaseInFlight := true)
  }

  /** runMigrations before the lock: ahead and current return, invalid exits with an error. */
  function AfterUnlockedCheck(direction: Direction): Pc {
    match direction
    case Ahead => Returned
    case Current => Returned
    case Invalid => Failed
    case Behind => Waiting
  }

  /** The callback of withStartupLock up to migrate.latest. */
  function AfterLockedCheck(inst: Instance, boot: BootState): Instance
    requires inst.pc.Holding?
  {
    match boot.direction
    case Ahead => Leave(inst, Normal)
    case Current => Leave(inst, Normal)
    case Invalid => Leave(inst, Thrown)
    case Behind => inst.(pc := Migrating(boot.pending, inst.pc.nextTick))
  }

  function AfterTick(inst: Instance): Instance
    requires Inside(inst)
  {
    var next := inst.pc.nextTick + HEARTBEAT_INTERVAL_MS;
    inst.(beats := inst.beats + {inst.pc.nextTick},
          pc := if inst.pc.Holding? then Holding(next) else Migrating(inst.pc.todo, next))
  }

  function AfterAcquire(inst: Instance, granted: bool, now: int): Instance {
    inst.(acquireInFlight := false,
          pc := if !inst.pc.Requested? then inst.pc else if granted then Granted(now) else Denied)
  }

  /** The instance that takes the step, after it. */
  function Moved(s: State, step: Step): Instance
    requires !step.Advance? && step.i < |s.insts|
    requires step.Tick? ==> Inside(s.insts[step.i])
    requires step.LockedCheck? ==> s.insts[step.i].pc.Holding?
    requires step.ApplyNext? ==> s.insts[step.i].pc.Migrating? && s.insts[step.i].pc.todo != []
  {
    var inst := s.insts[step.i];
    match step
    case UnlockedCheck(_) =>
      inst.(pc := AfterUnlockedCheck(GetMigrationBootDirection(s.applied, inst.bundle).direction))
    case SendAcquire(_) => inst.(pc := Requested, acquireInFlight := true)
    case ExecAcquire(i) => AfterAcquire(inst, Acquirable(s.row, s.now), s.now)
    case AcquireReply(_) => inst.(pc := if inst.pc.Granted? then Holding(s.now + HEARTBEAT_INTERVAL_MS) else Waiting)
    case GiveUp(_) => inst.(pc := Failed)
    case Tick(_) => AfterTick(inst)
    case ExecHeartbeat(_, sentAt) => inst.(beats := inst.beats - {sentAt})
    case LockedCheck(_) => AfterLockedCheck(inst, GetMigrationBootDirection(s.applied, inst.bundle))
    case ApplyNext(_) => inst.(pc := Migrating(inst.pc.todo[1..], inst.pc.nextTick))
    case MigrationThrows(_) => Leave(inst, Thrown)
    case AllApplied(_) => Leave(inst, Normal)
    case ExecRelease(_) => inst.(releaseInFlight := false)
    case ReleaseReply(_) => inst.(pc := if inst.pc == Releasing(Normal) then Returned else Failed)
    case Crash(_) => inst.(pc := Crashed)
    case Advance(_) => inst
  }

  /** The statement the step executes on the lock row, if any. */
  function RowAfter(s: State, step: Step): LockRow
    requires !step.Advance? && step.i < |s.insts|
  {
    match step
    case ExecAcquire(i) => Execute(s.row, Acquire(Who(s, i), s.now))
    case ExecHeartbeat(i, _) => Execute(s.row, Heartbeat(Who(s, i), s.now))
    case ExecRelease(i) => Execute(s.row, Release(Who(s, i)))
    case _ => s.row
  }

  function Apply(cfg: Config, s: State, step: Step): State
    requires Enabled(cfg, s, step)
  {
    if step.Advance? then s.(now := s.now + step.dt)
    else
      State(s.now,
            RowAfter(s, step),
            if step.ApplyNext? then s.applied + [s.insts[step.i].pc.todo[0]] else s.applied,
            s.insts[step.i := Moved(s, step)])
  }

  ghost predicate Next(cfg: Config, s: State, t: State) {
    exists step :: Enabled(cfg, s, step) && t == Apply(cfg, s, step)
  }

  /** Any clock, any history without repetitions, a free lock row, any instances that have not
      started, each with a duplicate-free bundle. */
  ghost predicate Init(s: State) {
    && s.row == FREE_ROW
    && NoDuplicates(s.applied)
    && forall i :: 0 <= i < |s.insts| ==>
         && s.insts[i].pc.Idle? && s.insts[i].beats == {}
         && !s.insts[i].acquireInFlight && !s.insts[i].releaseInFlight
         && NoDuplicates(s.insts[i].bundle)
  }

  ghost predicate IsRun(cfg: Config, run: seq<State>) {
    && run != []
    && Init(run[0])
    && forall k, l :: 0 <= k && l == k + 1 && l < |run| ==> Next(cfg, run[k], run[l])
  }

  ghost predicate Exclusive(s: State) {
    forall i, j :: 0 <= i < |s.insts| && 0 <= j < |s.insts| && Inside(s.insts[i]) && Inside(s.insts[j]) ==> i == j
  }

  // ---------------------------------------------------------------- the timed lease invariant

  /** A heartbeat that will keep the row (last beaten at `h`) fresh is due: either a write already
      sent or the next tick comes no later than one interval and one reply after `h`. */
  predicate Covered(cfg: Config, inst: Instance, h: int)
    requires Inside(inst)
  {
    var limit := h + HEARTBEAT_INTERVAL_MS + cfg.replyBound;
    inst.pc.nextTick <= limit || exists b :: b in inst.beats && b <= limit
  }

  predicate LeaseOk(cfg: Config, s: State, i: nat)
    requires i < |s.insts|
  {
    var inst := s.insts[i];
    && (inst.acquireInFlight ==> inst.pc.Requested? || inst.pc.Crashed?)
    && (inst.releaseInFlight ==> inst.pc.Releasing? || Final(inst.pc))
    && (inst.pc.Idle? || inst.pc.Waiting? || inst.pc.Requested? || inst.pc.Denied? || inst.pc.Granted? ==>
          inst.beats == {})
    && (inst.pc.Granted? ==>
          && Owns(s.row, Who(s, i)) && s.row.heartbeat == Some(inst.pc.at)
          && inst.pc.at <= s.now <= inst.pc.at + cfg.replyBound)
    && (Inside(inst) ==>
          && Owns(s.row, Who(s, i)) && s.row.heartbeat.Some?
          && s.row.heartbeat.value <= s.now <= inst.pc.nextTick <= s.now + HEARTBEAT_INTERVAL_MS
          && (forall b :: b in inst.beats ==> b <= s.now <= b + cfg.writeBound)
          && Covered(cfg, inst, s.row.heartbeat.value))
  }

  ghost predicate LeaseInv(cfg: Config, s: State) {
    forall i :: 0 <= i < |s.insts| ==> LeaseOk(cfg, s, i)
  }

  predicate Timely(cfg: Config) {
    cfg.replyBound + cfg.writeBound <= STALE_HEARTBEAT_THRESHOLD_MS - HEARTBEAT_INTERVAL_MS
  }

  /** The row of a live holder is never stale, so no acquire can take it. */
  lemma LiveRowIsFresh(cfg: Config, s: State, i: nat)
    requires Timely(cfg) && i < |s.insts| && LeaseOk(cfg, s, i)
    requires Inside(s.insts[i]) || s.insts[i].pc.Granted?
    ensures !Acquirable(s.row, s.now)
  {
    if Inside(s.insts[i]) {
      assert Covered(cfg, s.insts[i], s.row.heartbeat.value);
    }
  }

  /** A step of another instance does not disturb a live holder's lease. */
  lemma OthersKeepLease(cfg: Config, s: State, step: Step, j: nat)
    requires Timely(cfg) && Enabled(cfg, s, step) && LeaseInv(cfg, s)
    requires j < |s.insts| && (step.Advance? || step.i != j)
    ensures LeaseOk(cfg, Apply(cfg, s, step), j)
  {
    assert LeaseOk(cfg, s, j);
    var inst := s.insts[j];
    if !step.Advance? {
      assert Apply(cfg, s, step).insts[j] == inst;
      if Inside(inst) || inst.pc.Granted? {
        LiveRowIsFresh(cfg, s, j);
        assert RowAfter(s, step) == s.row;
      }
    } else {
      assert OnTime(cfg, inst, s.now + step.dt);
    }
  }

  /** A tick sends a write: whatever heartbeat covered the row before, one still does. */
  lemma TickKeepsLease(cfg: Config, s: State, step: Step)
    requires Timely(cfg) && Enabled(cfg, s, step) && LeaseInv(cfg, s)
    requires step.Tick?
    ensures LeaseOk(cfg, Apply(cfg, s, step), step.i)
  {
    assert LeaseOk(cfg, s, step.i);
    var inst, moved := s.insts[step.i], Moved(s, step);
    assert Apply(cfg, s, step).insts[step.i] == moved;
    var limit := s.row.heartbeat.value + HEARTBEAT_INTERVAL_MS + cfg.replyBound;
    if inst.pc.nextTick <= limit {
      assert inst.pc.nextTick in moved.beats;
    } else {
      var b :| b in inst.beats && b <= limit;
      assert b in moved.beats;
    }
  }

  /** An executed heartbeat starts the count anew. */
  lemma HeartbeatKeepsLease(cfg: Config, s: State, step: Step)
    requires Timely(cfg) && Enabled(cfg, s, step) && LeaseInv(cfg, s)
    requires step.ExecHeartbeat?
    ensures LeaseOk(cfg, Apply(cfg, s, step), step.i)
  {
    assert LeaseOk(cfg, s, step.i);
    assert Apply(cfg, s, step).insts[step.i] == Moved(s, step);
  }

  lemma AcquireKeepsLease(cfg: Config, s: State, step: Step)
    requires Timely(cfg) && Enabled(cfg, s, step) && LeaseInv(cfg, s)
    requires step.SendAcquire? || step.ExecAcquire? || step.AcquireReply?
    ensures LeaseOk(cfg, Apply(cfg, s, step), step.i)
  {
    assert LeaseOk(cfg, s, step.i);
    assert Apply(cfg, s, step).insts[step.i] == Moved(s, step);
  }

  lemma OwnStepKeepsLease(cfg: Config, s: State, step: Step)
    requires Timely(cfg) && Enabled(cfg, s, step) && LeaseInv(cfg, s)
    requires !step.Advance?
    ensures LeaseOk(cfg, Apply(cfg, s, step), step.i)
  {
    if step.Tick? {
      TickKeepsLease(cfg, s, step);
    } else if step.ExecHeartbeat? {
      HeartbeatKeepsLease(cfg, s, step);
    } else if step.SendAcquire? || step.ExecAcquire? || step.AcquireReply? {
      AcquireKeepsLease(cfg, s, step);
    } else {
      assert LeaseOk(cfg, s, step.i);
      assert Apply(cfg, s, step).insts[step.i] == Moved(s, step);
    }
  }

  lemma StepKeepsLease(cfg: Config, s: State, t: State)
    requires Timely(cfg) && LeaseInv(cfg, s) && Next(cfg, s, t)
    ensures LeaseInv(cfg, t)
  {
    var step :| Enabled(cfg, s, step) && t == Apply(cfg, s, step);
    forall j | 0 <= j < |t.insts| ensures LeaseOk(cfg, t, j) {
      if step.Advance? || step.i != j {
        OthersKeepLease(cfg, s, step, j);
      } else {
        OwnStepKeepsLease(cfg, s, step);
      }
    }
  }

  lemma LeaseInvIsExclusive(cfg: Config, s: State)
    requires LeaseInv(cfg, s)
    ensures Exclusive(s)
  {
    forall i, j | 0 <= i < |s.insts| && 0 <= j < |s.insts| && Inside(s.insts[i]) && Inside(s.insts[j])
      ensures i == j
    {
      assert LeaseOk(cfg, s, i) && LeaseOk(cfg, s, j);
    }
  }

  // ---------------------------------------------------------------- the migration history

  ghost predicate HistoryOk(s: State, i: nat)
    requires i < |s.insts|
  {
    var inst := s.insts[i];
    var bundle, applied := Elements(inst.bundle), Elements(s.applied);
    && NoDuplicates(inst.bundle)
    && (inst.pc.Migrating? ==> inst.pc.todo == Unknown(inst.bundle, applied) && applied <= bundle)
    && (inst.pc == Releasing(Normal) || inst.pc.Returned? ==> bundle <= applied)
  }

  /** Whatever was added in the run, the whole history fits the bundle of some image. */
  ghost predicate Provenance(s0: seq<Name>, s: State) {
    s.applied == s0 || exists k :: 0 <= k < |s.insts| && Elements(s.applied) <= Elements(s.insts[k].bundle)
  }

  ghost predicate HistoryInv(s0: seq<Name>, s: State) {
    && NoDuplicates(s.applied)
    && s0 <= s.applied
    && Provenance(s0, s)
    && forall i :: 0 <= i < |s.insts| ==> HistoryOk(s, i)
  }

  /** migrate.latest adds one name: it is in the applier's bundle, it is new, up to then the database
      held nothing the applier's image does not know, and it held everything that stands before the
      name in the applier's bundle. */
  ghost predicate SafeApply(s: State, t: State, i: nat) {
    && i < |s.insts|
    && Inside(s.insts[i])
    && Elements(s.applied) <= Elements(s.insts[i].bundle)
    && |t.applied| == |s.applied| + 1
    && t.applied[..|s.applied|] == s.applied
    && t.applied[|s.applied|] in s.insts[i].bundle
    && t.applied[|s.applied|] !in s.applied
    && InOrder(s.insts[i].bundle, s.applied, t.applied[|s.applied|])
  }

  /** Whatever stands before `name` in the bundle is applied. */
  ghost predicate InOrder(bundle: seq<Name>, applied: seq<Name>, name: Name) {
    forall p, q :: 0 <= p < q < |bundle| && bundle[q] == name ==> bundle[p] in applied
  }

  lemma ElementsOfAppend(a: seq<Name>, x: Name)
    ensures Elements(a + [x]) == Elements(a) + {x}
  {
    assert (a + [x])[|a|] == x;
    forall y | y in a ensures y in a + [x] {
      var k :| 0 <= k < |a| && a[k] == y;
      assert (a + [x])[k] == y;
    }
  }

  lemma ApplyNextIsSafe(cfg: Config, s0: seq<Name>, s: State, step: Step)
    requires Enabled(cfg, s, step) && step.ApplyNext? && HistoryInv(s0, s) && Exclusive(s)
    ensures SafeApply(s, Apply(cfg, s, step), step.i)
    ensures HistoryInv(s0, Apply(cfg, s, step))
  {
    var i := step.i;
    var t := Apply(cfg, s, step);
    var inst := s.insts[i];
    var todo := inst.pc.todo;
    assert HistoryOk(s, i);
    assert todo[0] in todo;
    ElementsOfAppend(s.applied, todo[0]);
    FirstUnknown(inst.bundle, Elements(s.applied));
    assert t.insts[i].bundle == inst.bundle;
    forall j | 0 <= j < |t.insts| ensures HistoryOk(t, j) {
      assert HistoryOk(s, j);
      if j != i {
        assert t.insts[j] == s.insts[j];
        assert !s.insts[j].pc.Migrating?;
      }
    }
  }

  lemma CheckedInstanceIsOk(s: State, step: Step, j: nat)
    requires j < |s.insts| && NoDuplicates(s.insts[j].bundle)
    requires step == UnlockedCheck(j) || (step == LockedCheck(j) && s.insts[j].pc.Holding?)
    ensures var inst := Moved(s, step);
            var bundle, applied := Elements(inst.bundle), Elements(s.applied);
            && inst.bundle == s.insts[j].bundle
            && (inst.pc.Migrating? ==> inst.pc.todo == Unknown(inst.bundle, applied) && applied <= bundle)
            && (inst.pc == Releasing(Normal) || inst.pc.Returned? ==> bundle <= applied)
  {
    DirectionIsSetComparison(s.applied, s.insts[j].bundle);
  }

  lemma OtherStepsKeepHistory(cfg: Config, s0: seq<Name>, s: State, step: Step)
    requires Enabled(cfg, s, step) && !step.ApplyNext? && HistoryInv(s0, s)
    ensures HistoryInv(s0, Apply(cfg, s, step))
    ensures Apply(cfg, s, step).applied == s.applied
  {
    var t := Apply(cfg, s, step);
    forall j | 0 <= j < |t.insts|
      ensures HistoryOk(t, j) && t.insts[j].bundle == s.insts[j].bundle
    {
      assert HistoryOk(s, j);
      if !step.Advance? && step.i == j && (step.UnlockedCheck? || step.LockedCheck?) {
        CheckedInstanceIsOk(s, step, j);
      } else if !step.Advance? && step.AllApplied? && step.i == j {
        var inst := s.insts[j];
        assert forall n :: n in inst.bundle ==> n in s.applied || n in inst.pc.todo;
      }
    }
    if s.applied != s0 {
      var k :| 0 <= k < |s.insts| && Elements(s.applied) <= Elements(s.insts[k].bundle);
      assert t.insts[k].bundle == s.insts[k].bundle;
    }
  }

  ghost predicate BundlesKept(s: State, t: State) {
    |t.insts| == |s.insts| && forall i :: 0 <= i < |s.insts| ==> t.insts[i].bundle == s.insts[i].bundle
  }

  lemma StepKeepsHistory(cfg: Config, s0: seq<Name>, s: State, t: State)
    requires Exclusive(s) && HistoryInv(s0, s) && Next(cfg, s, t)
    ensures HistoryInv(s0, t)
    ensures t.applied == s.applied || exists i :: SafeApply(s, t, i)
    ensures BundlesKept(s, t)
  {
    var step :| Enabled(cfg, s, step) && t == Apply(cfg, s, step);
    if step.ApplyNext? {
      ApplyNextIsSafe(cfg, s0, s, step);
    } else {
      OtherStepsKeepHistory(cfg, s0, s, step);
    }
  }

  // ---------------------------------------------------------------- whole runs

  lemma {:induction false} RunKeepsLease(cfg: Config, run: seq<State>, k: nat)
    requires Timely(cfg) && IsRun(cfg, run) && k < |run|
    ensures LeaseInv(cfg, run[k])
  {
    if k > 0 {
      RunKeepsLease(cfg, run, k - 1);
      assert Next(cfg, run[k - 1], run[k]);
      StepKeepsLease(cfg, run[k - 1], run[k]);
    }
  }

  ghost predicate ExclusiveRun(run: seq<State>) {
    forall k :: 0 <= k < |run| ==> Exclusive(run[k])
  }

  /** At most one session is inside doMigrations, in every state of every run. */
  lemma MutualExclusion(cfg: Config, run: seq<State>)
    requires Timely(cfg) && IsRun(cfg, run)
    ensures ExclusiveRun(run)
  {
    forall k | 0 <= k < |run| ensures Exclusive(run[k]) {
      RunKeepsLease(cfg, run, k);
      LeaseInvIsExclusive(cfg, run[k]);
    }
  }

  lemma StepOnlyAppends(cfg: Config, s: State, t: State)
    requires Next(cfg, s, t)
    ensures s.applied <= t.applied
  {
  }

  /** The history only ever grows, at its end, with no assumption on timing. */
  lemma {:induction false} HistoryOnlyGrows(cfg: Config, run: seq<State>, k: nat, l: nat)
    requires IsRun(cfg, run) && k <= l < |run|
    ensures run[k].applied <= run[l].applied
    decreases l
  {
    if k < l {
      HistoryOnlyGrows(cfg, run, k, l - 1);
      assert Next(cfg, run[l - 1], run[l]);
      StepOnlyAppends(cfg, run[l - 1], run[l]);
    }
  }

  /** The invariant of the history needs only that the run is exclusive, for whatever reason. */
  lemma {:induction false} RunKeepsHistory(cfg: Config, run: seq<State>, k: nat)
    requires IsRun(cfg, run) && ExclusiveRun(run) && k < |run|
    ensures HistoryInv(run[0].applied, run[k])
    ensures BundlesKept(run[0], run[k])
  {
    if k > 0 {
      RunKeepsHistory(cfg, run, k - 1);
      assert Next(cfg, run[k - 1], run[k]);
      StepKeepsHistory(cfg, run[0].applied, run[k - 1], run[k]);
    }
  }

  /** Every single change of the history over an exclusive run is a safe application by one image. */
  lemma EveryChangeIsSafe(cfg: Config, run: seq<State>, k: nat)
    requires IsRun(cfg, run) && ExclusiveRun(run) && k + 1 < |run|
    ensures run[k + 1].applied != run[k].applied ==>
              exists i {:trigger SafeApply(run[k], run[k + 1], i)} :: SafeApply(run[k], run[k + 1], i)
  {
    RunKeepsHistory(cfg, run, k);
    assert Next(cfg, run[k], run[k + 1]);
    StepKeepsHistory(cfg, run[0].applied, run[k], run[k + 1]);
  }

  /** An instance that booted normally finds its whole bundle applied, then and ever after. */
  lemma NormalReturnMeansUpToDate(cfg: Config, run: seq<State>, k: nat, l: nat, i: nat)
    requires IsRun(cfg, run) && ExclusiveRun(run) && k <= l < |run|
    requires i < |run[k].insts| && run[k].insts[i].pc.Returned?
    ensures i < |run[0].insts| && Elements(run[0].insts[i].bundle) <= Elements(run[l].applied)
  {
    RunKeepsHistory(cfg, run, k);
    assert HistoryOk(run[k], i);
    HistoryOnlyGrows(cfg, run, k, l);
    assert forall n :: n in run[k].applied ==> n in run[l].applied;
  }

  /** Two images whose bundles do not fit together cannot both boot normally, unless the database
      already held both bundles or some participating image bundles both. */
  lemma IncomparableBundlesDoNotBothBoot(cfg: Config, run: seq<State>, k: nat, i: nat, j: nat)
    requires IsRun(cfg, run) && ExclusiveRun(run) && k < |run|
    requires i < |run[k].insts| && run[k].insts[i].pc.Returned?
    requires j < |run[k].insts| && run[k].insts[j].pc.Returned?
    ensures i < |run[0].insts| && j < |run[0].insts|
    ensures var both := Elements(run[0].insts[i].bundle) + Elements(run[0].insts[j].bundle);
            || both <= Elements(run[0].applied)
            || exists m :: 0 <= m < |run[0].insts| && both <= Elements(run[0].insts[m].bundle)
  {
    RunKeepsHistory(cfg, run, k);
    NormalReturnMeansUpToDate(cfg, run, k, k, i);
    NormalReturnMeansUpToDate(cfg, run, k, k, j);
    if run[k].applied != run[0].applied {
      var m :| 0 <= m < |run[k].insts| && Elements(run[k].applied) <= Elements(run[k].insts[m].bundle);
      assert Elements(run[0].insts[m].bundle) == Elements(run[k].insts[m].bundle);
    }
  }

  /** With the latency bound every run is exclusive and so all of this holds in it: the history invariant
      in every state, and only safe changes. */
  lemma TimelyRunsAreSafe(cfg: Config, run: seq<State>)
    requires Timely(cfg) && IsRun(cfg, run)
    ensures ExclusiveRun(run)
    ensures forall k :: 0 <= k < |run| ==> HistoryInv(run[0].applied, run[k])
    ensures forall k, l :: 0 <= k && l == k + 1 && l < |run| && run[l].applied != run[k].applied ==>
              exists i {:trigger SafeApply(run[k], run[l], i)} :: SafeApply(run[k], run[l], i)
  {
    MutualExclusion(cfg, run);
    forall k | 0 <= k < |run| ensures HistoryInv(run[0].applied, run[k]) {
      RunKeepsHistory(cfg, run, k);
    }
    forall k, l | 0 <= k && l == k + 1 && l < |run| && run[l].applied != run[k].applied
      ensures exists i {:trigger SafeApply(run[k], run[l], i)} :: SafeApply(run[k], run[l], i)
    {
      EveryChangeIsSafe(cfg, run, k);
    }
  }

  // ---------------------------------------------------------------- the bound is sharp

  ghost predicate Reachable(cfg: Config, s: State) {
    exists run :: IsRun(cfg, run) && run[|run| - 1] == s
  }

  lemma Extend(cfg: Config, s: State, step: Step)
    requires Reachable(cfg, s) && Enabled(cfg, s, step)
    ensures Reachable(cfg, Apply(cfg, s, step))
  {
    var run :| IsRun(cfg, run) && run[|run| - 1] == s;
    var longer := run + [Apply(cfg, s, step)];
    forall k, l | 0 <= k && l == k + 1 && l < |longer| ensures Next(cfg, longer[k], longer[l]) {
      assert longer[k] == run[k];
      if l < |run| {
        assert longer[l] == run[l];
      }
    }
    assert IsRun(cfg, longer) && longer[|longer| - 1] == Apply(cfg, s, step);
  }

  /** An instance whose image bundles the one migration "m". */
  function Image(pc: Pc, beats: set<int>, inFlight: bool): Instance {
    Instance("n", ["m"], pc, beats, inFlight, false)
  }

  /** Two images, an empty history, and the row as left by the acquire of instance 0 at time 0. */
  function Scene(now: int, first: Instance, second: Instance): State {
    State(now, LockedBy(Holder(0, "n"), 0), [], [first, second])
  }

  /** Time passes while the second instance waits. */
  lemma Wait(cfg: Config, now: int, first: Instance, dt: nat)
    requires Reachable(cfg, Scene(now, first, Image(Waiting, {}, false)))
    requires OnTime(cfg, first, now + dt)
    ensures Reachable(cfg, Scene(now + dt, first, Image(Waiting, {}, false)))
  {
    var s := Scene(now, first, Image(Waiting, {}, false));
    assert Apply(cfg, s, Advance(dt)) == Scene(now + dt, first, Image(Waiting, {}, false));
    Extend(cfg, s, Advance(dt));
  }

  /** The first instance takes a step that leaves the row and the history alone. */
  lemma Act(cfg: Config, now: int, first: Instance, step: Step, next: Instance)
    requires Reachable(cfg, Scene(now, first, Image(Waiting, {}, false)))
    requires step == AcquireReply(0) || step == Tick(0)
    requires Enabled(cfg, Scene(now, first, Image(Waiting, {}, false)), step)
    requires Moved(Scene(now, first, Image(Waiting, {}, false)), step) == next
    ensures Reachable(cfg, Scene(now, next, Image(Waiting, {}, false)))
  {
    var s := Scene(now, first, Image(Waiting, {}, false));
    assert Apply(cfg, s, step) == Scene(now, next, Image(Waiting, {}, false));
    Extend(cfg, s, step);
  }

  lemma TwoWaiters(cfg: Config)
    ensures Reachable(cfg, State(0, FREE_ROW, [], [Image(Waiting, {}, false), Image(Waiting, {}, false)]))
  {
    var idle, waiting := Image(Idle, {}, false), Image(Waiting, {}, false);
    var s := State(0, FREE_ROW, [], [idle, idle]);
    assert IsRun(cfg, [s]);
    assert [s][|[s]| - 1] == s;
    DirectionIsSetComparison([], ["m"]);
    assert "m" in Elements(["m"]);
    var t := Apply(cfg, s, UnlockedCheck(0));
    assert t == State(0, FREE_ROW, [], [waiting, idle]);
    Extend(cfg, s, UnlockedCheck(0));
    Extend(cfg, t, UnlockedCheck(1));
    assert Apply(cfg, t, UnlockedCheck(1)) == State(0, FREE_ROW, [], [waiting, waiting]);
  }

  lemma FirstAcquires(cfg: Config)
    ensures Reachable(cfg, Scene(0, Image(Granted(0), {}, false), Image(Waiting, {}, false)))
  {
    TwoWaiters(cfg);
    var waiting := Image(Waiting, {}, false);
    var s := State(0, FREE_ROW, [], [waiting, waiting]);
    Extend(cfg, s, SendAcquire(0));
    var t := State(0, FREE_ROW, [], [Image(Requested, {}, true), waiting]);
    assert Apply(cfg, s, SendAcquire(0)) == t;
    Extend(cfg, t, ExecAcquire(0));
    assert Apply(cfg, t, ExecAcquire(0)) == Scene(0, Image(Granted(0), {}, false), waiting);
  }

  /** It hears of the lock at time `r`. */
  lemma FirstEnters(cfg: Config, r: nat)
    requires r <= cfg.replyBound
    ensures Reachable(cfg, Scene(r, Image(Holding(r + HEARTBEAT_INTERVAL_MS), {}, false), Image(Waiting, {}, false)))
  {
    FirstAcquires(cfg);
    Wait(cfg, 0, Image(Granted(0), {}, false), r);
    Act(cfg, r, Image(Granted(0), {}, false), AcquireReply(0), Image(Holding(r + HEARTBEAT_INTERVAL_MS), {}, false));
  }

  function Beats(r: int, k: nat): (b: set<int>)
    ensures forall x :: x in b ==> r + HEARTBEAT_INTERVAL_MS <= x <= r + k * HEARTBEAT_INTERVAL_MS
  {
    if k == 0 then {} else Beats(r, k - 1) + {r + k * HEARTBEAT_INTERVAL_MS}
  }

  function Beating(r: int, k: nat): Instance {
    Image(Holding(r + (k + 1) * HEARTBEAT_INTERVAL_MS), Beats(r, k), false)
  }

  lemma BeatingTicks(r: int, k: nat)
    requires k > 0
    ensures AfterTick(Beating(r, k - 1)) == Beating(r, k)
  {
    assert Beats(r, k) == Beats(r, k - 1) + {r + k * HEARTBEAT_INTERVAL_MS};
  }

  lemma TickOnce(cfg: Config, r: int, k: nat)
    requires k > 0
    requires Reachable(cfg, Scene(r + k * HEARTBEAT_INTERVAL_MS, Beating(r, k - 1), Image(Waiting, {}, false)))
    ensures Reachable(cfg, Scene(r + k * HEARTBEAT_INTERVAL_MS, Beating(r, k), Image(Waiting, {}, false)))
  {
    BeatingTicks(r, k);
    Act(cfg, r + k * HEARTBEAT_INTERVAL_MS, Beating(r, k - 1), Tick(0), Beating(r, k));
  }

  lemma BeatingIsOnTime(cfg: Config, r: int, k: nat, now: int)
    requires now <= r + (k + 1) * HEARTBEAT_INTERVAL_MS
    requires now <= r + HEARTBEAT_INTERVAL_MS + cfg.writeBound
    ensures OnTime(cfg, Beating(r, k), now)
  {
  }

  /** At `now` it has ticked `k` times and none of its writes has landed. */
  lemma {:induction false} FirstBeats(cfg: Config, r: nat, k: nat, now: nat)
    requires r <= cfg.replyBound
    requires r + k * HEARTBEAT_INTERVAL_MS <= now <= r + (k + 1) * HEARTBEAT_INTERVAL_MS
    requires now <= r + HEARTBEAT_INTERVAL_MS + cfg.writeBound
    ensures Reachable(cfg, Scene(now, Beating(r, k), Image(Waiting, {}, false)))
  {
    var tick := r + k * HEARTBEAT_INTERVAL_MS;
    if k == 0 {
      FirstEnters(cfg, r);
    } else {
      FirstBeats(cfg, r, k - 1, tick);
      TickOnce(cfg, r, k);
    }
    BeatingIsOnTime(cfg, r, k, now);
    Wait(cfg, tick, Beating(r, k), now - tick);
  }

  /** Once the row is stale the second instance takes over. */
  lemma SecondEnters(cfg: Config, late: nat, first: Instance)
    requires late > STALE_HEARTBEAT_THRESHOLD_MS
    requires Reachable(cfg, Scene(late, first, Image(Waiting, {}, false)))
    ensures exists s :: Reachable(cfg, s) && |s.insts| == 2 && s.insts[0] == first && Inside(s.insts[1])
  {
    var s := Scene(late, first, Image(Waiting, {}, false));
    Extend(cfg, s, SendAcquire(1));
    var t := Scene(late, first, Image(Requested, {}, true));
    assert Apply(cfg, s, SendAcquire(1)) == t;
    Extend(cfg, t, ExecAcquire(1));
    var u := State(late, LockedBy(Holder(1, "n"), late), [], [first, Image(Granted(late), {}, false)]);
    assert Apply(cfg, t, ExecAcquire(1)) == u;
    Extend(cfg, u, AcquireReply(1));
    var v := Apply(cfg, u, AcquireReply(1));
    assert Reachable(cfg, v) && v.insts[0] == first && Inside(v.insts[1]);
  }

  /** With latencies adding up to more than ten seconds the first heartbeat can be so late that a
      second instance takes over while the first is still inside. */
  lemma SlowWritesBreakExclusion(cfg: Config)
    requires !Timely(cfg)
    ensures exists s :: Reachable(cfg, s) && !Exclusive(s)
  {
    var late := STALE_HEARTBEAT_THRESHOLD_MS + 1;
    var r := Min(cfg.replyBound, late - HEARTBEAT_INTERVAL_MS);
    var k := (late - r) / HEARTBEAT_INTERVAL_MS;
    FirstBeats(cfg, r, k, late);
    SecondEnters(cfg, late, Beating(r, k));
    var s :| Reachable(cfg, s) && |s.insts| == 2 && s.insts[0] == Beating(r, k) && Inside(s.insts[1]);
    assert Inside(s.insts[0]);
  }

  /** The exact condition: the lease excludes in every run if and only if acquire-reply latency plus
      heartbeat-write latency never exceeds ten seconds. */
  lemma ExclusionExactlyWhenTimely(cfg: Config)
    ensures (forall s :: Reachable(cfg, s) ==> Exclusive(s)) <==> cfg.replyBound + cfg.writeBound <= 10_000
  {
    if Timely(cfg) {
      forall s | Reachable(cfg, s) ensures Exclusive(s) {
        var run :| IsRun(cfg, run) && run[|run| - 1] == s;
        MutualExclusion(cfg, run);
      }
    } else {
      SlowWritesBreakExclusion(cfg);
    }
  }
}
