/** auto-start-migrations.ts, runMigrations: how an instance's boot ends, and that it gets there. */
module BootOutcomes {
  import opened Prelude
  import opened BootDirection
  import opened StartupLock
  import opened BootProtocol

  // The three ways an instance's bundle compares with the history.

  ghost predicate UpToDate(s: State, i: nat)
    requires i < |s.insts|
  {
    Elements(s.insts[i].bundle) <= Elements(s.applied)
  }

  ghost predicate Outdated(s: State, i: nat)
    requires i < |s.insts|
  {
    Elements(s.applied) < Elements(s.insts[i].bundle)
  }

  ghost predicate Forked(s: State, i: nat)
    requires i < |s.insts|
  {
    !UpToDate(s, i) && !Outdated(s, i)
  }

  /** Both checks decide by the sets alone. Up to date boots, forked fails, and outdated goes for the
      lock or, holding it, applies what is missing. */
  lemma CheckDecides(cfg: Config, s: State, step: Step)
    requires step.UnlockedCheck? || step.LockedCheck?
    requires Enabled(cfg, s, step)
    ensures var before, after := s.insts[step.i].pc, Apply(cfg, s, step).insts[step.i].pc;
            if UpToDate(s, step.i) then after == (if step.UnlockedCheck? then Returned else Releasing(Normal))
            else if Forked(s, step.i) then after == (if step.UnlockedCheck? then Failed else Releasing(Thrown))
            else if step.UnlockedCheck? then after == Waiting
            else after == Migrating(Unknown(s.insts[step.i].bundle, Elements(s.applied)), before.nextTick)
  {
    DirectionIsSetComparison(s.applied, s.insts[step.i].bundle);
  }

  // ---------------------------------------------------------------- why a boot fails

  /** The instance has failed, or it holds the lock no more and will fail. */
  predicate Doomed(pc: Pc) {
    pc.Failed? || pc == Releasing(Thrown)
  }

  /** What may go wrong for instance `i`: a check finds a fork, it gives up waiting for the lock, or a
      migration throws. */
  ghost predicate GoesWrong(cfg: Config, s: State, step: Step, i: nat) {
    && Enabled(cfg, s, step)
    && !step.Advance? && step.i == i
    && match step
       case UnlockedCheck(_) => Forked(s, i)
       case LockedCheck(_) => Forked(s, i)
       case GiveUp(_) => true
       case MigrationThrows(_) => true
       case _ => false
  }

  ghost predicate WentWrong(cfg: Config, s: State, t: State, i: nat) {
    exists step :: GoesWrong(cfg, s, step, i) && t == Apply(cfg, s, step)
  }

  /** A step dooms an instance exactly if something goes wrong in it, and nothing but a crash takes a
      doomed instance elsewhere. */
  lemma StepDoomsExactlyWhen(cfg: Config, s: State, step: Step, i: nat)
    requires Enabled(cfg, s, step) && i < |s.insts| && !Apply(cfg, s, step).insts[i].pc.Crashed?
    ensures Doomed(Apply(cfg, s, step).insts[i].pc) <==> Doomed(s.insts[i].pc) || GoesWrong(cfg, s, step, i)
  {
    var t := Apply(cfg, s, step);
    if step.Advance? || step.i != i {
      assert t.insts[i] == s.insts[i];
    } else if step.UnlockedCheck? || step.LockedCheck? {
      CheckDecides(cfg, s, step);
    } else {
      assert t.insts[i] == Moved(s, step);
      assert step.ReleaseReply? ==> s.insts[i].pc.outcome == Normal || s.insts[i].pc.outcome == Thrown;
    }
  }

  /** Seen from the two states alone. */
  lemma TransitionDoomsExactlyWhen(cfg: Config, s: State, t: State, i: nat)
    requires Next(cfg, s, t) && i < |s.insts| && !t.insts[i].pc.Crashed?
    ensures |t.insts| == |s.insts| && !s.insts[i].pc.Crashed?
    ensures Doomed(t.insts[i].pc) <==> Doomed(s.insts[i].pc) || WentWrong(cfg, s, t, i)
  {
    var step :| Enabled(cfg, s, step) && t == Apply(cfg, s, step);
    StepDoomsExactlyWhen(cfg, s, step, i);
    if WentWrong(cfg, s, t, i) {
      var wrong :| GoesWrong(cfg, s, wrong, i) && t == Apply(cfg, s, wrong);
      StepDoomsExactlyWhen(cfg, s, wrong, i);
    }
  }

  /** An instance that has not crashed fails if and only if at some point of the run a check of its found
      a fork, it gave up waiting, or a migration of its threw. In particular an image that is ahead of or
      level with the history never fails for it. */
  lemma {:induction false} FailsExactlyWhenSomethingWentWrong(cfg: Config, run: seq<State>, k: nat, i: nat)
    requires IsRun(cfg, run) && k < |run| && i < |run[k].insts| && !run[k].insts[i].pc.Crashed?
    ensures i < |run[0].insts|
    ensures Doomed(run[k].insts[i].pc) <==> exists l :: 0 <= l < k && WentWrong(cfg, run[l], run[l + 1], i)
    ensures Final(run[k].insts[i].pc) ==>
              (run[k].insts[i].pc.Returned? <==> !exists l :: 0 <= l < k && WentWrong(cfg, run[l], run[l + 1], i))
  {
    if k > 0 {
      assert Next(cfg, run[k - 1], run[k]);
      TransitionDoomsExactlyWhen(cfg, run[k - 1], run[k], i);
      FailsExactlyWhenSomethingWentWrong(cfg, run, k - 1, i);
    }
  }

  // ---------------------------------------------------------------- the lock is given back

  /** Whoever owns the row knows or will hear of it, is about to free it, or crashed. A session that
      waits for a reply has an acquire in flight. */
  predicate AccountsForLock(s: State, i: nat)
    requires i < |s.insts|
  {
    var inst := s.insts[i];
    && (inst.pc.Requested? ==> inst.acquireInFlight)
    && (inst.acquireInFlight ==> inst.pc.Requested? || inst.pc.Crashed?)
    && (Owns(s.row, Who(s, i)) ==> inst.pc.Granted? || Inside(inst) || inst.releaseInFlight || inst.pc.Crashed?)
  }

  lemma StepAccountsForLock(cfg: Config, s: State, step: Step, i: nat)
    requires Enabled(cfg, s, step) && i < |s.insts| && AccountsForLock(s, i)
    ensures AccountsForLock(Apply(cfg, s, step), i)
  {
  }

  lemma {:induction false} RunAccountsForLock(cfg: Config, run: seq<State>, k: nat, i: nat)
    requires IsRun(cfg, run) && k < |run| && i < |run[k].insts|
    ensures AccountsForLock(run[k], i)
  {
    if k > 0 {
      assert Next(cfg, run[k - 1], run[k]);
      RunAccountsForLock(cfg, run, k - 1, i);
      var step :| Enabled(cfg, run[k - 1], step) && run[k] == Apply(cfg, run[k - 1], step);
      StepAccountsForLock(cfg, run[k - 1], step, i);
    }
  }

  /** Nobody but a crashed instance walks away with the lock, under any timing: an instance that has left
      doMigrations, booted or failed, and still owns the row has a release on the way, and once that lands
      anybody can acquire the row at any time. */
  lemma LockIsGivenBack(cfg: Config, run: seq<State>, k: nat, i: nat)
    requires IsRun(cfg, run) && k < |run| && i < |run[k].insts|
    requires Owns(run[k].row, Who(run[k], i))
    requires run[k].insts[i].pc.Releasing? || run[k].insts[i].pc.Returned? || run[k].insts[i].pc.Failed?
    ensures Enabled(cfg, run[k], ExecRelease(i))
    ensures forall now: int :: Acquirable(Apply(cfg, run[k], ExecRelease(i)).row, now)
  {
    RunAccountsForLock(cfg, run, k, i);
  }

  /** What was sent may still land at any later time: no other step, whoever takes it and even the
      sender's crash, takes a statement back. */
  lemma SentStatementsStayPending(cfg: Config, s: State, step: Step, late: Step)
    requires late.ExecAcquire? || late.ExecHeartbeat? || late.ExecRelease?
    requires Enabled(cfg, s, late) && Enabled(cfg, s, step) && step != late
    ensures Enabled(cfg, Apply(cfg, s, step), late)
  {
  }

  // ---------------------------------------------------------------- progress

  /** A bound on the steps an instance still takes, not counting its waiting for the lock and its
      heartbeats. */
  function Rank(inst: Instance): nat {
    match inst.pc
    case Idle => |inst.bundle| + 5
    case Waiting => |inst.bundle| + 4
    case Requested => |inst.bundle| + 4
    case Granted(_) => |inst.bundle| + 4
    case Denied => |inst.bundle| + 4
    case Holding(_) => |inst.bundle| + 3
    case Migrating(todo, _) => |todo| + 2
    case Releasing(_) => 1
    case _ => 0
  }

  /** Steps other than those of waiting for the lock, the heartbeats and late statements. */
  predicate Advances(s: State, step: Step, i: nat)
    requires i < |s.insts|
  {
    && !step.Advance? && step.i == i
    && match step
       case SendAcquire(_) => false
       case ExecAcquire(_) => false
       case AcquireReply(_) => s.insts[i].pc.Granted?
       case Tick(_) => false
       case ExecHeartbeat(_, _) => false
       case ExecRelease(_) => false
       case _ => true
  }

  /** No step takes an instance back, and its own steps other than waiting and heartbeats take it
      forward. */
  lemma StepAdvances(cfg: Config, s: State, step: Step, i: nat)
    requires Enabled(cfg, s, step) && i < |s.insts|
    ensures Rank(Apply(cfg, s, step).insts[i]) <= Rank(s.insts[i])
    ensures Advances(s, step, i) ==> Rank(Apply(cfg, s, step).insts[i]) < Rank(s.insts[i])
  {
  }

  ghost predicate Advanced(cfg: Config, s: State, t: State, i: nat) {
    i < |s.insts| && exists step :: Enabled(cfg, s, step) && t == Apply(cfg, s, step) && Advances(s, step, i)
  }

  /** How many of the first `k` transitions advanced instance `i`. */
  ghost function Advancements(cfg: Config, run: seq<State>, k: nat, i: nat): nat
    requires k < |run|
  {
    if k == 0 then 0
    else Advancements(cfg, run, k - 1, i) + if Advanced(cfg, run[k - 1], run[k], i) then 1 else 0
  }

  /** Besides waiting for the lock and its heartbeats an instance takes at most |bundle| + 5 steps,
      however long the run and whatever the others do. */
  lemma {:induction false} BootIsShort(cfg: Config, run: seq<State>, k: nat, i: nat)
    requires IsRun(cfg, run) && k < |run| && i < |run[k].insts|
    ensures i < |run[0].insts|
    ensures Advancements(cfg, run, k, i) + Rank(run[k].insts[i]) <= |run[0].insts[i].bundle| + 5
  {
    if k > 0 {
      assert Next(cfg, run[k - 1], run[k]);
      BootIsShort(cfg, run, k - 1, i);
      TransitionAdvances(cfg, run[k - 1], run[k], i);
    }
  }

  lemma TransitionAdvances(cfg: Config, s: State, t: State, i: nat)
    requires Next(cfg, s, t) && i < |s.insts|
    ensures |t.insts| == |s.insts|
    ensures Rank(t.insts[i]) <= Rank(s.insts[i]) - if Advanced(cfg, s, t, i) then 1 else 0
  {
    var step :| Enabled(cfg, s, step) && t == Apply(cfg, s, step);
    StepAdvances(cfg, s, step, i);
    if Advanced(cfg, s, t, i) {
      var own :| Enabled(cfg, s, own) && t == Apply(cfg, s, own) && Advances(s, own, i);
      StepAdvances(cfg, s, own, i);
    }
  }

  /** The step an unfinished instance can take next by itself. */
  function OwnStep(s: State, i: nat): Step
    requires i < |s.insts| && !Final(s.insts[i].pc)
  {
    match s.insts[i].pc
    case Idle => UnlockedCheck(i)
    case Waiting => SendAcquire(i)
    case Requested => ExecAcquire(i)
    case Granted(_) => AcquireReply(i)
    case Denied => AcquireReply(i)
    case Holding(_) => LockedCheck(i)
    case Migrating(todo, _) => if todo == [] then AllApplied(i) else ApplyNext(i)
    case Releasing(_) => ReleaseReply(i)
  }

  /** What an acquire that lands now answers. */
  function Answer(s: State): Pc {
    if Acquirable(s.row, s.now) then Granted(s.now) else Denied
  }

  /** Nobody is ever stuck: that step is enabled in every state of every run, and all of them advance the
      instance but the attempts to get the lock, which end in its possession or, at the latest after the
      timeout, with giving up. */
  lemma NobodyIsStuck(cfg: Config, run: seq<State>, k: nat, i: nat)
    requires IsRun(cfg, run) && k < |run| && i < |run[k].insts| && !Final(run[k].insts[i].pc)
    ensures Enabled(cfg, run[k], OwnStep(run[k], i))
    ensures !Advances(run[k], OwnStep(run[k], i), i) ==>
              var pc := run[k].insts[i].pc; pc.Waiting? || pc.Requested? || pc.Denied?
    ensures run[k].insts[i].pc.Waiting? ==>
              Enabled(cfg, run[k], GiveUp(i)) && Advances(run[k], GiveUp(i), i)
    ensures var pc := run[k].insts[i].pc;
            pc.Requested? ==> Apply(cfg, run[k], ExecAcquire(i)).insts[i].pc == Answer(run[k])
  {
    RunAccountsForLock(cfg, run, k, i);
  }
}
