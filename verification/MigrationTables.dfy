/** auto-start-migrations.ts, ensureMigrationTables: double-checked creation of the lock tables by
    any number of instances, at the granularity of single statements.

    A transaction reads what is committed plus its own uncommitted writes. Its writes become
    visible, and its advisory lock is released, when it commits; a crash discards both. */
module MigrationTables {
  import opened Prelude

  /** A table is missing, or it exists with some number of rows. `creations` counts the committed
      CREATE TABLE statements for the startup lock table. */
  datatype Tables = Tables(lock: Option<nat>, startup: Option<nat>, creations: nat)

  /** The uncommitted writes of a transaction. */
  datatype Draft = Draft(lockCreated: bool, lockRows: nat, startupCreated: bool, startupRows: nat)

  const NO_WRITES := Draft(false, 0, false, 0)

  /** Program counters of ensureMigrationTables. The reads of isMigrationInitialized run first on
      the plain connection and again, once the advisory lock is held, inside the transaction. */
  datatype Pc =
    | ReadLockTable(tx: bool)
    | ReadStartupTable(tx: bool, lockExists: bool)
    | CountLock(tx: bool)
    | CountStartup(tx: bool, lockRows: nat)
    | AwaitAdvisory                           // transaction open, pg_advisory_xact_lock pending
    | CurrentVersion                          // knex creates its own tables and lock row
    | EnsureTable(tx: bool)                   // ensureStartupLockTable: hasTable
    | CreateTable(tx: bool)
    | SelectRows(tx: bool)                    // insertStartupLockRowIfNeeded
    | InsertRow(tx: bool)
    | Commit
    | Done
    | Errored                                 // CREATE TABLE on an existing table
    | Crashed

  datatype Instance = Instance(pc: Pc, draft: Draft)

  datatype State = State(db: Tables, advisory: Option<nat>, insts: seq<Instance>)

  datatype Step = Run(i: nat) | Crash(i: nat)

  function Plus(t: Option<nat>, created: bool, rows: nat): Option<nat> {
    if created then Some(rows) else if t.Some? then Some(t.value + rows) else None
  }

  /** What a connection with these uncommitted writes sees. */
  function View(db: Tables, d: Draft): Tables {
    Tables(Plus(db.lock, d.lockCreated, d.lockRows),
           Plus(db.startup, d.startupCreated, d.startupRows),
           db.creations + if d.startupCreated then 1 else 0)
  }

  predicate InTransaction(pc: Pc) {
    match pc
    case ReadLockTable(tx) => tx
    case ReadStartupTable(tx, _) => tx
    case CountLock(tx) => tx
    case CountStartup(tx, _) => tx
    case CurrentVersion => true
    case EnsureTable(tx) => tx
    case CreateTable(tx) => tx
    case SelectRows(tx) => tx
    case InsertRow(tx) => tx
    case Commit => true
    case _ => false
  }

  predicate Final(pc: Pc) {
    pc.Done? || pc.Errored? || pc.Crashed?
  }

  /** isMigrationInitialized came out false. */
  function NotInitialized(tx: bool): Pc {
    if tx then CurrentVersion else AwaitAdvisory
  }

  /** isMigrationInitialized came out true: inside the transaction there is nothing left to do. */
  function Initialized(tx: bool): Pc {
    if tx then Commit else EnsureTable(false)
  }

  /** The next program counter, given what the connection sees. */
  function NextPc(pc: Pc, seen: Tables): Pc {
    match pc
    case ReadLockTable(tx) => ReadStartupTable(tx, seen.lock.Some?)
    case ReadStartupTable(tx, lockExists) =>
      if lockExists && seen.startup.Some? then CountLock(tx) else NotInitialized(tx)
    case CountLock(tx) => CountStartup(tx, if seen.lock.Some? then seen.lock.value else 0)
    case CountStartup(tx, lockRows) =>
      if lockRows > 0 && seen.startup.Some? && seen.startup.value > 0 then Initialized(tx) else NotInitialized(tx)
    case AwaitAdvisory => ReadLockTable(true)
    case CurrentVersion => EnsureTable(true)
    case EnsureTable(tx) => if seen.startup.Some? then SelectRows(tx) else CreateTable(tx)
    case CreateTable(tx) => if seen.startup.Some? then Errored else SelectRows(tx)
    case SelectRows(tx) =>
      if seen.startup.Some? && seen.startup.value > 0 then (if tx then Commit else Done) else InsertRow(tx)
    case InsertRow(tx) => if tx then Commit else Done
    case Commit => Done
    case Done => Done
    case Errored => Errored
    case Crashed => Crashed
  }

  /** The write of a statement, added to the uncommitted writes `d` of its connection. */
  function Write(pc: Pc, seen: Tables, d: Draft): Draft {
    match pc
    case CurrentVersion =>
      if seen.lock.None? then d.(lockCreated := true, lockRows := 1)
      else if seen.lock.value == 0 then d.(lockRows := d.lockRows + 1)
      else d
    case CreateTable(_) => if seen.startup.Some? then d else d.(startupCreated := true)
    case InsertRow(_) => d.(startupRows := d.startupRows + 1)
    case _ => d
  }

  predicate Enabled(s: State, step: Step) {
    && step.i < |s.insts|
    && !Final(s.insts[step.i].pc)
    && (step.Run? && s.insts[step.i].pc.AwaitAdvisory? ==> s.advisory.None?)
  }

  function Apply(s: State, step: Step): State
    requires Enabled(s, step)
  {
    var i := step.i;
    var inst := s.insts[i];
    var released := if s.advisory == Some(i) then None else s.advisory;
    if step.Crash? then State(s.db, released, s.insts[i := Instance(Crashed, NO_WRITES)])
    else
      var seen := View(s.db, inst.draft);
      var pc, draft := NextPc(inst.pc, seen), Write(inst.pc, seen, inst.draft);
      if inst.pc.AwaitAdvisory? then State(s.db, Some(i), s.insts[i := Instance(pc, draft)])
      else if InTransaction(inst.pc) && pc != Done then
        State(s.db, if pc.Errored? then released else s.advisory,
              s.insts[i := Instance(pc, if pc.Errored? then NO_WRITES else draft)])
      else
        // COMMIT, or a statement of a plain connection, which commits by itself
        State(View(s.db, draft), released, s.insts[i := Instance(pc, NO_WRITES)])
  }

  ghost predicate Next(s: State, t: State) {
    exists step :: Enabled(s, step) && t == Apply(s, step)
  }

  /** Any knex tables; the startup lock table missing, or left empty or complete by an earlier
      version. */
  ghost predicate Init(s: State) {
    && (s.db.startup.Some? ==> s.db.startup.value <= 1)
    && s.db.creations == 0
    && s.advisory.None?
    && forall i :: 0 <= i < |s.insts| ==> s.insts[i] == Instance(ReadLockTable(false), NO_WRITES)
  }

  ghost predicate IsRun(run: seq<State>) {
    && run != []
    && Init(run[0])
    && forall k, l :: 0 <= k && l == k + 1 && l < |run| ==> Next(run[k], run[l])
  }

  predicate Complete(db: Tables) {
    db.lock.Some? && db.lock.value > 0 && db.startup == Some(1)
  }

  predicate DbOk(db: Tables) {
    && (db.startup.Some? ==> db.startup.value <= 1)
    && db.creations <= 1
    && (db.startup.None? ==> db.creations == 0)
  }

  /** What an instance may rely on at each point. */
  predicate Local(db: Tables, inst: Instance) {
    var seen := View(db, inst.draft);
    match inst.pc
    case ReadLockTable(_) => inst.draft == NO_WRITES
    case ReadStartupTable(_, lockExists) => inst.draft == NO_WRITES && (lockExists ==> db.lock.Some?)
    case CountLock(_) => inst.draft == NO_WRITES && db.lock.Some? && db.startup.Some?
    case CountStartup(_, lockRows) =>
      inst.draft == NO_WRITES && db.lock.Some? && lockRows <= db.lock.value && db.startup.Some?
    case CurrentVersion => inst.draft == NO_WRITES
    case EnsureTable(tx) =>
      if tx then KnexReady(seen) && !inst.draft.startupCreated && inst.draft.startupRows == 0 else Complete(db)
    case CreateTable(tx) => tx && KnexReady(seen) && seen.startup.None? && inst.draft.startupRows == 0
    case SelectRows(tx) =>
      if tx then KnexReady(seen) && seen.startup.Some? && inst.draft.startupRows == 0 else Complete(db)
    case InsertRow(tx) => tx && KnexReady(seen) && seen.startup == Some(0)
    case Commit => Complete(seen)
    case Done => Complete(db)
    case Errored => false
    case AwaitAdvisory => true
    case Crashed => true
  }

  predicate KnexReady(db: Tables) {
    db.lock.Some? && db.lock.value > 0
  }

  /** `mine` says that the instance holds the advisory lock. */
  predicate Sound(db: Tables, mine: bool, inst: Instance) {
    && (InTransaction(inst.pc) <==> mine)
    && (!mine ==> inst.draft == NO_WRITES)
    && DbOk(View(db, inst.draft))
    && (inst.draft.startupCreated ==> db.startup.None?)
    && (inst.draft.lockCreated ==> db.lock.None?)
    && Local(db, inst)
  }

  predicate InstanceOk(s: State, i: nat)
    requires i < |s.insts|
  {
    Sound(s.db, s.advisory == Some(i), s.insts[i])
  }

  /** Committed tables never disappear or lose rows. */
  predicate Extends(a: Tables, b: Tables) {
    && (a.lock.Some? ==> b.lock.Some? && a.lock.value <= b.lock.value)
    && (a.startup.Some? ==> b.startup.Some? && a.startup.value <= b.startup.value)
    && a.creations <= b.creations
  }

  ghost predicate Inv(s: State) {
    && DbOk(s.db)
    && (s.advisory.Some? ==> s.advisory.value < |s.insts|)
    && forall i :: 0 <= i < |s.insts| ==> InstanceOk(s, i)
  }

  /** The reads alone decide, on either connection: two if a table is missing, otherwise four. Outside the
      transaction they lead to it unless both tables have rows; inside they end it if both do. */
  lemma ReadsDecide(tx: bool, seen: Tables)
    ensures var two := NextPc(NextPc(ReadLockTable(tx), seen), seen);
            var four := NextPc(NextPc(two, seen), seen);
            if seen.lock.None? || seen.startup.None? then two == if tx then CurrentVersion else AwaitAdvisory
            else if seen.lock.value == 0 || seen.startup.value == 0 then
              four == if tx then CurrentVersion else AwaitAdvisory
            else four == if tx then Commit else EnsureTable(false)
  {
  }

  predicate Reading(pc: Pc) {
    pc.ReadLockTable? || pc.ReadStartupTable? || pc.CountLock? || pc.CountStartup?
  }

  /** The reads of isMigrationInitialized, inside the transaction. */
  lemma ReadInTransaction(db: Tables, inst: Instance)
    requires DbOk(db) && Sound(db, true, inst) && Reading(inst.pc)
    ensures var seen := View(db, inst.draft);
            var next := Instance(NextPc(inst.pc, seen), Write(inst.pc, seen, inst.draft));
            Sound(db, true, next)
  {
  }

  /** The statements that create and fill tables. */
  lemma WriteInTransaction(db: Tables, inst: Instance)
    requires DbOk(db) && Sound(db, true, inst) && !Reading(inst.pc) && !inst.pc.Commit?
    ensures var seen := View(db, inst.draft);
            var next := Instance(NextPc(inst.pc, seen), Write(inst.pc, seen, inst.draft));
            Sound(db, true, next)
  {
  }

  /** A statement of an instance that stays in its transaction. */
  lemma StatementInTransaction(db: Tables, inst: Instance)
    requires DbOk(db) && Sound(db, true, inst) && !inst.pc.Commit?
    ensures var seen := View(db, inst.draft);
            var next := Instance(NextPc(inst.pc, seen), Write(inst.pc, seen, inst.draft));
            Sound(db, true, next)
  {
    if Reading(inst.pc) {
      ReadInTransaction(db, inst);
    } else {
      WriteInTransaction(db, inst);
    }
  }

  /** COMMIT publishes tables that extend the old ones and are complete. */
  lemma CommitIsSound(db: Tables, inst: Instance)
    requires DbOk(db) && Sound(db, true, inst) && inst.pc.Commit?
    ensures var after := View(db, inst.draft);
            DbOk(after) && Complete(after) && Extends(db, after)
  {
  }

  /** A statement on the plain connection writes nothing. */
  lemma PlainStatement(db: Tables, inst: Instance)
    requires DbOk(db) && Sound(db, false, inst) && !Final(inst.pc) && !inst.pc.AwaitAdvisory?
    ensures var seen := View(db, inst.draft);
            && seen == db
            && View(db, Write(inst.pc, seen, inst.draft)) == db
            && Sound(db, false, Instance(NextPc(inst.pc, seen), NO_WRITES))
  {
  }

  /** Growing tables keep what an instance outside the transaction relies on. */
  lemma ExtensionKeepsOthers(db: Tables, after: Tables, inst: Instance)
    requires Sound(db, false, inst) && DbOk(after) && Extends(db, after)
    ensures Sound(after, false, inst)
  {
  }

  /** The moving instance keeps its own invariant; the tables stay sound, and change only when the
      advisory lock's holder commits. */
  lemma OwnStep(s: State, step: Step)
    requires Inv(s) && Enabled(s, step)
    ensures var t := Apply(s, step);
            && DbOk(t.db) && Extends(s.db, t.db) && InstanceOk(t, step.i)
            && (t.db != s.db ==> s.advisory == Some(step.i))
  {
    assert InstanceOk(s, step.i);
    var inst := s.insts[step.i];
    if step.Crash? || inst.pc.AwaitAdvisory? {
      assert Apply(s, step).insts[step.i].draft == NO_WRITES;
    } else if !InTransaction(inst.pc) {
      PlainStatement(s.db, inst);
    } else if inst.pc.Commit? {
      CommitStep(s, step);
    } else {
      TransactionStep(s, step);
    }
  }

  lemma CommitStep(s: State, step: Step)
    requires Inv(s) && Enabled(s, step) && step.Run? && s.insts[step.i].pc.Commit?
    ensures var t := Apply(s, step);
            DbOk(t.db) && Extends(s.db, t.db) && InstanceOk(t, step.i) && s.advisory == Some(step.i)
  {
    assert InstanceOk(s, step.i);
    CommitIsSound(s.db, s.insts[step.i]);
  }

  lemma TransactionStep(s: State, step: Step)
    requires Inv(s) && Enabled(s, step) && step.Run?
    requires InTransaction(s.insts[step.i].pc) && !s.insts[step.i].pc.Commit?
    ensures Apply(s, step).db == s.db && InstanceOk(Apply(s, step), step.i)
  {
    assert InstanceOk(s, step.i);
    StatementInTransaction(s.db, s.insts[step.i]);
  }

  lemma OtherStep(s: State, step: Step, j: nat)
    requires Inv(s) && Enabled(s, step) && j < |s.insts| && j != step.i
    ensures InstanceOk(Apply(s, step), j)
  {
    assert InstanceOk(s, step.i) && InstanceOk(s, j);
    OwnStep(s, step);
    var t := Apply(s, step);
    assert t.insts[j] == s.insts[j];
    if s.advisory == Some(j) {
      assert t.db == s.db && t.advisory == s.advisory;
    } else {
      ExtensionKeepsOthers(s.db, t.db, s.insts[j]);
    }
  }

  lemma StepKeepsInv(s: State, t: State)
    requires Inv(s) && Next(s, t)
    ensures Inv(t) && Extends(s.db, t.db) && |t.insts| == |s.insts|
  {
    var step :| Enabled(s, step) && t == Apply(s, step);
    OwnStep(s, step);
    forall j | 0 <= j < |t.insts| ensures InstanceOk(t, j) {
      if j != step.i {
        OtherStep(s, step, j);
      }
    }
  }

  lemma {:induction false} RunInvariant(run: seq<State>, k: nat)
    requires IsRun(run) && k < |run|
    ensures Inv(run[k])
  {
    if k > 0 {
      RunInvariant(run, k - 1);
      assert Next(run[k - 1], run[k]);
      StepKeepsInv(run[k - 1], run[k]);
    }
  }

  lemma ExistingTableIsNotCreated(db: Tables, mine: bool, inst: Instance)
    requires Sound(db, mine, inst) && db.startup.Some?
    ensures View(db, inst.draft).startup.Some? && View(db, inst.draft).creations == db.creations
  {
  }

  /** No step creates a startup lock table that exists. */
  lemma StepDoesNotRecreate(s: State, step: Step)
    requires Inv(s) && Enabled(s, step) && s.db.startup.Some?
    ensures var t := Apply(s, step); t.db.startup.Some? && t.db.creations == s.db.creations
  {
    var inst := s.insts[step.i];
    assert InstanceOk(s, step.i);
    if step.Crash? || inst.pc.AwaitAdvisory? {
      assert Apply(s, step).db == s.db;
    } else if !InTransaction(inst.pc) {
      PlainStatement(s.db, inst);
    } else if inst.pc.Commit? {
      ExistingTableIsNotCreated(s.db, true, inst);
    } else {
      TransactionStep(s, step);
    }
  }

  lemma {:induction false} NoSecondCreation(run: seq<State>, k: nat)
    requires IsRun(run) && k < |run| && run[0].db.startup.Some?
    ensures run[k].db.startup.Some? && run[k].db.creations == 0
  {
    if k > 0 {
      NoSecondCreation(run, k - 1);
      RunInvariant(run, k - 1);
      assert Next(run[k - 1], run[k]);
      var step :| Enabled(run[k - 1], step) && run[k] == Apply(run[k - 1], step);
      StepDoesNotRecreate(run[k - 1], step);
    }
  }

  /** In every state of every run: the startup lock table has been created at most once and holds
      at most one row, no CREATE TABLE ever hits an existing table, and an instance that finished
      finds the table with exactly one row. */
  lemma CreatedOnceWithOneRow(run: seq<State>, k: nat)
    requires IsRun(run) && k < |run|
    ensures run[k].db.creations <= 1
    ensures run[k].db.startup.Some? ==> run[k].db.startup.value <= 1
    ensures forall i :: 0 <= i < |run[k].insts| ==> !run[k].insts[i].pc.Errored?
    ensures forall i :: 0 <= i < |run[k].insts| && run[k].insts[i].pc.Done? ==>
              run[k].db.startup == Some(1) && run[k].db.lock.Some? && run[k].db.lock.value > 0
    ensures run[0].db.startup.Some? ==> run[k].db.creations == 0
  {
    RunInvariant(run, k);
    forall i | 0 <= i < |run[k].insts|
      ensures !run[k].insts[i].pc.Errored? && (run[k].insts[i].pc.Done? ==> Complete(run[k].db))
    {
      assert InstanceOk(run[k], i);
    }
    if run[0].db.startup.Some? {
      NoSecondCreation(run, k);
    }
  }

  lemma RowStays(s: State, t: State)
    requires Inv(s) && Next(s, t) && s.db.startup == Some(1)
    ensures t.db.startup == Some(1)
  {
    StepKeepsInv(s, t);
  }

  /** The row, once committed, is there for good. */
  lemma {:induction false} RowIsPermanent(run: seq<State>, k: nat, l: nat)
    requires IsRun(run) && k <= l < |run| && run[k].db.startup == Some(1)
    ensures run[l].db.startup == Some(1)
    decreases l
  {
    if k < l {
      RowIsPermanent(run, k, l - 1);
      RunInvariant(run, l - 1);
      assert Next(run[l - 1], run[l]);
      RowStays(run[l - 1], run[l]);
    }
  }

  /** No deadlock: as long as an instance is unfinished some instance can move. */
  lemma SomeoneCanMove(run: seq<State>, k: nat, i: nat)
    requires IsRun(run) && k < |run| && i < |run[k].insts| && !Final(run[k].insts[i].pc)
    ensures exists j :: Enabled(run[k], Run(j))
  {
    var s := run[k];
    RunInvariant(run, k);
    if Enabled(s, Run(i)) {
    } else {
      var j := s.advisory.value;
      assert InstanceOk(s, j);
      assert Enabled(s, Run(j));
    }
  }

  /** Where an instance can be that found everything in place. */
  predicate OnlyReads(inst: Instance) {
    && inst.draft == NO_WRITES
    && match inst.pc
       case ReadLockTable(tx) => !tx
       case ReadStartupTable(tx, lockExists) => !tx && lockExists
       case CountLock(tx) => !tx
       case CountStartup(tx, lockRows) => !tx && lockRows > 0
       case EnsureTable(tx) => !tx
       case SelectRows(tx) => !tx
       case Done => true
       case Crashed => true
       case _ => false
  }

  lemma OnlyReadsStays(s: State, t: State)
    requires Next(s, t) && Complete(s.db) && s.advisory.None?
    requires forall i :: 0 <= i < |s.insts| ==> OnlyReads(s.insts[i])
    ensures t.db == s.db && t.advisory.None?
    ensures forall i :: 0 <= i < |t.insts| ==> OnlyReads(t.insts[i])
  {
    var step :| Enabled(s, step) && t == Apply(s, step);
    assert OnlyReads(s.insts[step.i]);
    assert View(s.db, NO_WRITES) == s.db;
  }

  /** Every boot after the first only reads: on complete tables no instance opens the transaction, takes
      the advisory lock or writes. */
  lemma {:induction false} CompleteTablesAreOnlyRead(run: seq<State>, k: nat)
    requires IsRun(run) && k < |run| && Complete(run[0].db)
    ensures run[k].db == run[0].db && run[k].advisory.None?
    ensures forall i :: 0 <= i < |run[k].insts| ==>
              OnlyReads(run[k].insts[i]) && !InTransaction(run[k].insts[i].pc) && !run[k].insts[i].pc.AwaitAdvisory?
  {
    if k > 0 {
      CompleteTablesAreOnlyRead(run, k - 1);
      assert Next(run[k - 1], run[k]);
      OnlyReadsStays(run[k - 1], run[k]);
    }
  }

  // ---------------------------------------------------------------- everybody finishes

  /** How many statements an instance has ahead of it at most. */
  function Rank(pc: Pc): nat {
    match pc
    case ReadLockTable(tx) => if tx then 10 else 20
    case ReadStartupTable(tx, _) => if tx then 9 else 19
    case CountLock(tx) => if tx then 8 else 18
    case CountStartup(tx, _) => if tx then 7 else 17
    case EnsureTable(tx) => if tx then 5 else 16
    case CreateTable(tx) => if tx then 4 else 15
    case SelectRows(tx) => if tx then 3 else 14
    case InsertRow(tx) => if tx then 2 else 13
    case AwaitAdvisory => 11
    case CurrentVersion => 6
    case Commit => 1
    case _ => 0
  }

  /** Every step of an instance, a crash included, takes it forward, and nobody else's step moves it. */
  lemma StepAdvances(s: State, step: Step, i: nat)
    requires Enabled(s, step) && i < |s.insts|
    ensures |Apply(s, step).insts| == |s.insts|
    ensures step.i == i ==> Rank(Apply(s, step).insts[i].pc) < Rank(s.insts[i].pc)
    ensures step.i != i ==> Apply(s, step).insts[i] == s.insts[i]
  {
  }

  ghost predicate Moved(s: State, t: State, i: nat) {
    exists step :: Enabled(s, step) && t == Apply(s, step) && step.i == i
  }

  /** How many of the first `k` transitions were made by instance `i`. */
  ghost function Moves(run: seq<State>, k: nat, i: nat): nat
    requires k < |run|
  {
    if k == 0 then 0 else Moves(run, k - 1, i) + if Moved(run[k - 1], run[k], i) then 1 else 0
  }

  lemma TransitionAdvances(s: State, t: State, i: nat)
    requires Next(s, t) && i < |s.insts|
    ensures |t.insts| == |s.insts|
    ensures Rank(t.insts[i].pc) <= Rank(s.insts[i].pc) - if Moved(s, t, i) then 1 else 0
  {
    var step :| Enabled(s, step) && t == Apply(s, step);
    StepAdvances(s, step, i);
    if Moved(s, t, i) {
      var own :| Enabled(s, own) && t == Apply(s, own) && own.i == i;
      StepAdvances(s, own, i);
    }
  }

  /** Nobody loops: an instance moves at most 20 times, however long the run. */
  lemma {:induction false} TwentyMovesAtMost(run: seq<State>, k: nat, i: nat)
    requires IsRun(run) && k < |run| && i < |run[k].insts|
    ensures Moves(run, k, i) + Rank(run[k].insts[i].pc) <= 20
    ensures |run[k].insts| == |run[0].insts|
  {
    if k > 0 {
      assert Next(run[k - 1], run[k]);
      SameInstances(run[k - 1], run[k]);
      TwentyMovesAtMost(run, k - 1, i);
      TransitionAdvances(run[k - 1], run[k], i);
    }
  }

  lemma SameInstances(s: State, t: State)
    requires Next(s, t)
    ensures |t.insts| == |s.insts|
  {
  }

  /** The ranks of all instances together. */
  function TotalRank(insts: seq<Instance>): nat {
    if insts == [] then 0 else Rank(insts[0].pc) + TotalRank(insts[1..])
  }

  lemma {:induction false} TotalRankFalls(insts: seq<Instance>, i: nat, inst: Instance)
    requires i < |insts| && Rank(inst.pc) < Rank(insts[i].pc)
    ensures TotalRank(insts[i := inst]) < TotalRank(insts)
    decreases |insts|
  {
    if i == 0 {
      assert insts[0 := inst][1..] == insts[1..];
    } else {
      assert insts[i := inst][1..] == insts[1..][i - 1 := inst];
      TotalRankFalls(insts[1..], i - 1, inst);
    }
  }

  lemma TransitionLowersTotal(s: State, t: State)
    requires Next(s, t)
    ensures TotalRank(t.insts) < TotalRank(s.insts)
  {
    var step :| Enabled(s, step) && t == Apply(s, step);
    StepAdvances(s, step, step.i);
    assert t.insts == s.insts[step.i := t.insts[step.i]];
    TotalRankFalls(s.insts, step.i, t.insts[step.i]);
  }

  lemma {:induction false} TotalRankAtStart(insts: seq<Instance>)
    requires forall i :: 0 <= i < |insts| ==> insts[i] == Instance(ReadLockTable(false), NO_WRITES)
    ensures TotalRank(insts) == 20 * |insts|
    decreases |insts|
  {
    if insts != [] {
      TotalRankAtStart(insts[1..]);
    }
  }

  lemma {:induction false} TotalRankBoundsTheRun(run: seq<State>, k: nat)
    requires IsRun(run) && k < |run|
    ensures k + TotalRank(run[k].insts) <= 20 * |run[0].insts|
  {
    if k == 0 {
      TotalRankAtStart(run[0].insts);
    } else {
      TotalRankBoundsTheRun(run, k - 1);
      assert Next(run[k - 1], run[k]);
      TransitionLowersTotal(run[k - 1], run[k]);
    }
  }

  /** Every run ends, after at most 20 steps per instance, and it only ends when everybody is done or
      crashed: nobody loops and nobody is left waiting for the advisory lock. */
  lemma EverybodyFinishes(run: seq<State>)
    requires IsRun(run)
    ensures |run| <= 20 * |run[0].insts| + 1
    ensures var last := run[|run| - 1];
            (exists t :: Next(last, t))
            || forall i :: 0 <= i < |last.insts| ==> last.insts[i].pc.Done? || last.insts[i].pc.Crashed?
  {
    var k := |run| - 1;
    TotalRankBoundsTheRun(run, k);
    if i :| 0 <= i < |run[k].insts| && !Final(run[k].insts[i].pc) {
      SomeoneCanMove(run, k, i);
      var j :| Enabled(run[k], Run(j));
      assert Next(run[k], Apply(run[k], Run(j)));
    } else {
      CreatedOnceWithOneRow(run, k);
    }
  }
}
