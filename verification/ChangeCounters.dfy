/**
 sqlite3_changes(), sqlite3_total_changes() and sqlite3_last_insert_rowid() after whole statements and
 whole runs of statements, including statements that stop in the middle of a trigger.
 */
module ChangeCounters {
  import opened Options
  import opened TriggerTrace

  /** How far a statement has come: its own work so far, and the trigger that is open, if any. */
  datatype Cut =
    | Here(work: Work)
    | Within(work: Work, steps: Steps, inner: Cut)

  function TraceCut(cut: Cut): seq<Op> {
    match cut
    case Here(w) => Trace(w)
    case Within(w, steps, inner) => Trace(w) + ([Program] + TraceSteps(steps)) + TraceCut(inner)
  }

  function AfterCut(vm: Vm, cut: Cut): Vm
    decreases cut
  {
    match cut
    case Here(w) => AfterWork(vm, w)
    case Within(w, steps, inner) => AfterCut(Opened(AfterWork(vm, w), steps), inner)
  }

  lemma {:induction false} CutRuns(vm: Vm, cut: Cut)
    ensures Run(vm, TraceCut(cut)) == AfterCut(vm, cut)
    decreases cut
  {
    WorkRuns(vm, cut.work);
    match cut
    case Here(w) =>
    case Within(w, steps, inner) =>
      var open := [Program] + TraceSteps(steps);
      RunConcat(vm, Trace(w) + open, TraceCut(inner));
      RunConcat(vm, Trace(w), open);
      OpenRuns(AfterWork(vm, w), steps);
      CutRuns(Opened(AfterWork(vm, w), steps), inner);
  }

  /** The rows of the statements that are complete, at every level. */
  function Completed(cut: Cut): nat {
    match cut
    case Here(w) => Nested(w)
    case Within(w, steps, inner) => Nested(w) + AllSteps(steps) + Completed(inner)
  }

  /** The rows that unfinished statements of open triggers have changed themselves. */
  function Unfinished(cut: Cut): nat {
    match cut
    case Here(_) => 0
    case Within(_, _, inner) => Direct(inner.work) + Unfinished(inner)
  }

  /** The last rowid in the innermost context. */
  function RowidCut(cut: Cut, before: int): int
    decreases cut
  {
    match cut
    case Here(w) => Rowid(w, before)
    case Within(w, steps, inner) => RowidCut(inner, RowidSteps(steps, Rowid(w, before)))
  }

  lemma {:induction false} CutCounts(vm: Vm, cut: Cut)
    ensures AfterCut(vm, cut).total == vm.total + Completed(cut)
    ensures AfterCut(vm, cut).lastRowid == RowidCut(cut, vm.lastRowid)
    decreases cut
  {
    if cut.Within? {
      CutCounts(Opened(AfterWork(vm, cut.work), cut.steps), cut.inner);
    }
  }

  /** Below the frames of the open triggers the saved frames are as they were, and above them is the statement's own. */
  predicate Saves(f: seq<VdbeFrame>, frames: seq<VdbeFrame>, own: nat) {
    |f| > |frames| && f[|f| - |frames|..] == frames && f[|f| - |frames| - 1].nChange == own
  }

  lemma SavesLess(f: seq<VdbeFrame>, frames: seq<VdbeFrame>, first: VdbeFrame)
    requires f == [first] + frames || (exists own: nat :: Saves(f, [first] + frames, own))
    ensures Saves(f, frames, first.nChange)
  {
    var k := |f| - |frames|;
    if f != [first] + frames {
      assert f[k - 1..] == [first] + frames;
      assert f[k..] == f[k - 1..][1..] && f[k - 1] == f[k - 1..][0];
    }
  }

  lemma {:induction false} CutFrames(vm: Vm, cut: Cut)
    ensures cut.Here? ==> AfterCut(vm, cut).frames == vm.frames
    ensures cut.Within? ==> Saves(AfterCut(vm, cut).frames, vm.frames, vm.nChange + Direct(cut.work))
    decreases cut
  {
    if cut.Within? {
      var w := AfterWork(vm, cut.work);
      var in0 := Opened(w, cut.steps);
      CutFrames(in0, cut.inner);
      SavesLess(AfterCut(in0, cut.inner).frames, vm.frames, VdbeFrame(w.lastRowid, w.nChange));
    }
  }

  // ----- the end of a statement -----

  /** Why a statement stopped. Special: out of memory, I/O error, disk full or interrupt. */
  datatype Ending =
    | Finished
    | Abort
    | Fail
    | Rollback
    | Special(undoStatement: bool)  // SQLITE_NOMEM or SQLITE_FULL with a statement journal

  /** closeAllCursors(): the outermost frame gives the count of the statement itself. */
  function OwnCount(vm: Vm): nat {
    if vm.frames == [] then vm.nChange else vm.frames[|vm.frames| - 1].nChange
  }

  /**
   What else decides how a statement ends: whether the connection is in autocommit mode, whether it has no
   other write statement active, whether the statement has opened a savepoint of its own (only one that is
   expected to change several rows and then to abort does), whether the commit or the closing of the savepoint
   fails, and whether another statement has meanwhile rolled back the transaction, or an older savepoint, under
   this one.
   */
  datatype Setting = Setting(
    autoCommit: bool, onlyWriter: bool, hasSavepoint: bool, closingFails: bool, rolledBack: bool)
  {
    /** The end of the statement is the end of the transaction. */
    predicate EndsTransaction() { autoCommit && onlyWriter }

    /** The commit or the closing of the savepoint, whichever there is to be done, fails. */
    predicate LastStepFails() { closingFails && (EndsTransaction() || hasSavepoint) }
  }

  /**
   eStatementOp == SAVEPOINT_ROLLBACK: the statement counts nothing. It is rolled back only if it has a
   savepoint.
   */
  predicate UndoesStatement(e: Ending, at: Setting) {
    match e
    case Special(undo) => undo || !at.onlyWriter
    case Abort => !at.EndsTransaction()
    case _ => false
  }

  /** The end of the statement rolls back the whole transaction. */
  predicate UndoesTransaction(e: Ending, at: Setting) {
    match e
    case Special(undo) => !undo || at.EndsTransaction() || at.LastStepFails()
    case Abort => at.EndsTransaction() || at.LastStepFails()
    case Rollback => true
    case _ => at.LastStepFails()
  }

  /** sqlite3VdbeHalt() for a statement that counts changes. */
  function Halt(vm: Vm, e: Ending, at: Setting): Vm {
    SetChanges(vm, if UndoesStatement(e, at) then 0 else OwnCount(vm)).(nChange := 0, frames := [])
  }

  datatype Statement = Statement(cut: Cut, ending: Ending, setting: Setting) {
    /** None of the rows it has changed is still changed. */
    predicate Undone() {
      || setting.rolledBack || UndoesTransaction(ending, setting)
      || (UndoesStatement(ending, setting) && setting.hasSavepoint)
    }

    /** It counts nothing, whether or not there was a savepoint to roll it back. */
    predicate Uncounted() { UndoesStatement(ending, setting) }
  }

  predicate WellFormed(s: Statement) {
    s.ending == Finished ==> s.cut.Here?
  }

  function Perform(vm: Vm, s: Statement): Vm {
    Halt(Run(vm, TraceCut(s.cut)), s.ending, s.setting)
  }

  predicate Between(vm: Vm) { vm.nChange == 0 && vm.frames == [] }

  function Counted(s: Statement): nat {
    if UndoesStatement(s.ending, s.setting) then 0 else Direct(s.cut.work)
  }

  /** All three values after any statement, wherever it stopped. */
  lemma StatementEnds(vm: Vm, s: Statement)
    requires Between(vm)
    ensures Between(Perform(vm, s))
    ensures Perform(vm, s).changes == Counted(s)
    ensures Perform(vm, s).total == vm.total + Completed(s.cut) + Counted(s)
    ensures Perform(vm, s).lastRowid == RowidCut(s.cut, vm.lastRowid)
  {
    CutRuns(vm, s.cut);
    CutCounts(vm, s.cut);
    CutFrames(vm, s.cut);
  }

  /** A statement that finishes: triggers at any depth count in the total only, and leave the rowid. */
  lemma FinishedStatement(vm: Vm, s: Statement)
    requires Between(vm) && WellFormed(s) && s.ending == Finished
    ensures Perform(vm, s) == Vm(Rowid(s.cut.work, vm.lastRowid), 0, [], Direct(s.cut.work), vm.total + All(s.cut.work))
  {
    StatementEnds(vm, s);
  }

  /** The direct row changes that are still there after the statement. */
  function Kept(s: Statement): nat {
    if s.Undone() then 0 else Direct(s.cut.work)
  }

  /**
   The count is right exactly if the statement has changed nothing itself, or it counts nothing and is undone,
   or it counts and is not undone. Not subtracted are rows that go with the whole transaction; not counted are
   the rows of an aborted statement that has no savepoint.
   */
  lemma ChangesRightIff(vm: Vm, s: Statement)
    requires Between(vm)
    ensures Perform(vm, s).changes == Kept(s) <==> (s.Undone() != s.Uncounted() ==> Direct(s.cut.work) == 0)
  {
    StatementEnds(vm, s);
  }

  /** An UPDATE in a transaction whose second row fails in an expression: the first row stays and is not counted. */
  lemma AbortWithoutSavepoint(vm: Vm)
    requires Between(vm)
    ensures var s := Statement(Here(Row(true, None, Done)), Abort, Setting(false, true, false, false, false));
            Kept(s) == 1 && Perform(vm, s).changes == 0 && Perform(vm, s).total == vm.total
  {
    StatementEnds(vm, Statement(Here(Row(true, None, Done)), Abort, Setting(false, true, false, false, false)));
  }

  /** The last rowid that a statement has inserted itself or taken over from a call, if any. */
  function Inserted(w: Work): Option<int> {
    match w
    case Done => None
    case Row(_, rowid, rest) => if Inserted(rest).Some? then Inserted(rest) else rowid
    case Fire(_, _, rest) => Inserted(rest)
    case Call(effect, rest) => if Inserted(rest).Some? then Inserted(rest) else effect.Adopted()
  }

  function InsertedBySteps(steps: Steps): Option<int> {
    match steps
    case NoSteps => None
    case Step(work, rest) => if InsertedBySteps(rest).Some? then InsertedBySteps(rest) else Inserted(work)
  }

  /** The last rowid that the triggers still open have inserted themselves, if any. */
  function InsertedInOpen(cut: Cut): Option<int> {
    match cut
    case Here(_) => None
    case Within(_, steps, inner) =>
      if InsertedInOpen(inner).Some? then InsertedInOpen(inner)
      else if Inserted(inner.work).Some? then Inserted(inner.work)
      else InsertedBySteps(steps)
  }

  function Or(o: Option<int>, otherwise: int): int {
    if o.Some? then o.value else otherwise
  }

  lemma {:induction false} RowidIsInserted(w: Work, before: int)
    ensures Rowid(w, before) == Or(Inserted(w), before)
  {
    match w
    case Done =>
    case Row(_, rowid, rest) => RowidIsInserted(rest, Or(rowid, before));
    case Fire(_, _, rest) => RowidIsInserted(rest, before);
    case Call(effect, rest) => RowidIsInserted(rest, Or(effect.Adopted(), before));
  }

  lemma {:induction false} RowidStepsIsInserted(steps: Steps, before: int)
    ensures RowidSteps(steps, before) == Or(InsertedBySteps(steps), before)
  {
    if steps.Step? {
      RowidIsInserted(steps.work, before);
      RowidStepsIsInserted(steps.rest, Rowid(steps.work, before));
    }
  }

  lemma {:induction false} RowidCutIsInserted(cut: Cut, before: int)
    ensures RowidCut(cut, before) == Or(InsertedInOpen(cut), Rowid(cut.work, before))
    decreases cut
  {
    if cut.Within? {
      var own := Rowid(cut.work, before);
      RowidStepsIsInserted(cut.steps, own);
      RowidIsInserted(cut.inner.work, RowidSteps(cut.steps, own));
      RowidCutIsInserted(cut.inner, RowidSteps(cut.steps, own));
    }
  }

  /**
   The rowid reverts to that of the top level unless the statement stops inside triggers that have
   inserted a row, the last one with another rowid.
   */
  lemma RowidRevertsIff(vm: Vm, s: Statement)
    requires Between(vm)
    ensures Perform(vm, s).lastRowid == Rowid(s.cut.work, vm.lastRowid)
       <==> InsertedInOpen(s.cut) == None || InsertedInOpen(s.cut).value == Rowid(s.cut.work, vm.lastRowid)
  {
    StatementEnds(vm, s);
    RowidCutIsInserted(s.cut, vm.lastRowid);
  }

  /** The rows changed in any context that are still there after the statement. */
  function AllKept(s: Statement): nat {
    if s.Undone() then 0 else AllRows(s.cut)
  }

  /**
   The total grows by the rows that are kept, in all contexts, exactly in two cases: the statement is undone
   before it, a trigger program or a called statement has counted anything, or it is not undone, does not stop
   inside a trigger that has changed rows, and counts what it has changed itself.
   */
  lemma TotalRightIff(vm: Vm, s: Statement)
    requires Between(vm)
    ensures Perform(vm, s).total == vm.total + AllKept(s)
       <==> if s.Undone() then Completed(s.cut) == 0 && Counted(s) == 0
            else Unfinished(s.cut) == 0 && (s.Uncounted() ==> Direct(s.cut.work) == 0)
  {
    StatementEnds(vm, s);
    RowsSplit(s.cut);
  }

  /** After OR FAIL the rows of unfinished statements in open triggers are never counted. */
  lemma FailMissesUnfinished(vm: Vm, s: Statement)
    requires Between(vm) && s.ending == Fail
    ensures Perform(vm, s).total + Unfinished(s.cut) == vm.total + AllRows(s.cut)
  {
    StatementEnds(vm, s);
    RowsSplit(s.cut);
  }

  /** What a statement leaves: the count, the growth of the total, and the rows that it keeps. */
  ghost predicate Leaves(vm: Vm, s: Statement, count: nat, undone: bool) {
    && Perform(vm, s).changes == count
    && Perform(vm, s).total == vm.total + Completed(s.cut) + count
    && AllKept(s) == (if undone then 0 else AllRows(s.cut))
    && Kept(s) == (if undone then 0 else Direct(s.cut.work))
  }

  /**
   How each ending goes, inside a transaction that goes on and at the end of one: which statements count their
   rows, and which keep them.
   */
  lemma EndingTable(vm: Vm, s: Statement)
    requires Between(vm)
    ensures var d, at := Direct(s.cut.work), s.setting;
            var last, gone := at.autoCommit && at.onlyWriter, at.rolledBack;
            match s.ending
            case Finished => Leaves(vm, s, d, gone || (at.closingFails && (last || at.hasSavepoint)))
            case Fail => Leaves(vm, s, d, gone || (at.closingFails && (last || at.hasSavepoint)))
            case Rollback => Leaves(vm, s, d, true)
            case Abort => if last then Leaves(vm, s, d, true) else Leaves(vm, s, 0, gone || at.hasSavepoint)
            case Special(true) => Leaves(vm, s, 0, gone || last || at.hasSavepoint)
            case Special(false) => Leaves(vm, s, if at.onlyWriter then d else 0, true)
  {
    StatementEnds(vm, s);
  }

  /** An INSERT interrupted while another write statement is active is undone with the transaction, and counts 0. */
  lemma InterruptedAmongWriters(vm: Vm, at: Setting)
    requires Between(vm)
    ensures var s := Statement(Here(Row(true, None, Done)), Special(false), at);
            s.Undone() && Perform(vm, s).changes == if at.onlyWriter then 1 else 0
  {
    StatementEnds(vm, Statement(Here(Row(true, None, Done)), Special(false), at));
  }

  function AllRows(cut: Cut): nat {
    match cut
    case Here(w) => All(w)
    case Within(w, steps, inner) => All(w) + AllSteps(steps) + AllRows(inner)
  }

  lemma {:induction false} RowsSplit(cut: Cut)
    ensures AllRows(cut) == Direct(cut.work) + Completed(cut) + Unfinished(cut)
  {
    if cut.Within? {
      RowsSplit(cut.inner);
    }
  }

  /** An INSERT that aborts inside a trigger that has inserted a row: the trigger's rowid stays. */
  lemma RowidOfAbortedTriggerStays(vm: Vm, at: Setting)
    requires Between(vm) && vm.lastRowid == 1
    ensures var s := Statement(Within(Done, NoSteps, Here(Row(true, Some(7), Done))), Abort, at);
            Perform(vm, s).lastRowid == 7
  {
    StatementEnds(vm, Statement(Within(Done, NoSteps, Here(Row(true, Some(7), Done))), Abort, at));
  }

  // ----- statements called by application code -----

  /** What a statement does to the connection when it is called. */
  function EffectOf(s: Statement, inFunction: bool): Effect {
    Effect(Counted(s), Completed(s.cut) + Counted(s),
           if InsertedInOpen(s.cut).Some? then InsertedInOpen(s.cut) else Inserted(s.cut.work), inFunction)
  }

  /**
   A call is the whole run of the other statement on a machine of its own, with the counters of the connection
   as they stand. Its last rowid reaches the caller if a scalar function has called it.
   */
  lemma CallIsStatement(vm: Vm, s: Statement, inFunction: bool)
    ensures var called := Perform(Vm(vm.lastRowid, 0, [], vm.changes, vm.total), s);
            Execute(vm, Invoke(EffectOf(s, inFunction)))
              == vm.(changes := called.changes, total := called.total,
                     lastRowid := if inFunction then called.lastRowid else vm.lastRowid)
  {
    StatementEnds(Vm(vm.lastRowid, 0, [], vm.changes, vm.total), s);
    RowidCutIsInserted(s.cut, vm.lastRowid);
    RowidIsInserted(s.cut.work, vm.lastRowid);
  }

  /** The rowid of the last row that the statement or any called one has inserted. */
  function LatestRowid(w: Work, before: int): int {
    match w
    case Done => before
    case Row(_, rowid, rest) => LatestRowid(rest, Or(rowid, before))
    case Fire(_, _, rest) => LatestRowid(rest, before)
    case Call(effect, rest) => LatestRowid(rest, Or(effect.rowid, before))
  }

  /** The rowid left by a call outside of functions, if no row has been inserted or taken over since. */
  function Forgotten(w: Work, found: Option<int>): Option<int> {
    match w
    case Done => found
    case Row(_, rowid, rest) => Forgotten(rest, if rowid.Some? then None else found)
    case Fire(_, _, rest) => Forgotten(rest, found)
    case Call(effect, rest) =>
      Forgotten(rest, if effect.rowid == None then found else if effect.inFunction then None else effect.rowid)
  }

  lemma {:induction false} RowidFrom(w: Work, before: int, found: Option<int>)
    ensures LatestRowid(w, Or(found, before)) == Or(Forgotten(w, found), Rowid(w, before))
  {
    match w
    case Done =>
    case Row(_, rowid, rest) => RowidFrom(rest, Or(rowid, before), if rowid.Some? then None else found);
    case Fire(_, _, rest) => RowidFrom(rest, before, found);
    case Call(e, rest) =>
      RowidFrom(rest, Or(e.Adopted(), before),
                if e.rowid == None then found else if e.inFunction then None else e.rowid);
  }

  /**
   After a statement that finishes, the last rowid is that of the row inserted last, by the statement or by one
   it calls, exactly if no aggregate, collation or hook has inserted the last one, or it got the same rowid.
   */
  lemma LatestRowidIff(vm: Vm, s: Statement)
    requires Between(vm) && s.cut.Here?
    ensures Perform(vm, s).lastRowid == LatestRowid(s.cut.work, vm.lastRowid)
       <==> Forgotten(s.cut.work, None) == None || Forgotten(s.cut.work, None).value == Rowid(s.cut.work, vm.lastRowid)
  {
    StatementEnds(vm, s);
    RowidFrom(s.cut.work, vm.lastRowid, None);
  }

  // ----- within a statement -----

  /** What sqlite3_changes() returns at some point of a statement. */
  function SeenAt(cut: Cut, before: nat): nat
    decreases cut
  {
    match cut
    case Here(w) => Seen(w, before)
    case Within(w, steps, inner) => SeenAt(inner, SeenSteps(steps, Seen(w, before)))
  }

  lemma {:induction false} SeenIsChanges(vm: Vm, cut: Cut)
    ensures Run(vm, TraceCut(cut)).changes == SeenAt(cut, vm.changes)
    decreases cut
  {
    CutRuns(vm, cut);
    match cut
    case Here(w) =>
    case Within(w, steps, inner) =>
      var in0 := Opened(AfterWork(vm, w), steps);
      SeenIsChanges(in0, inner);
      CutRuns(in0, inner);
  }

  /** The count of the statement called last, or else what is known before. */
  function LastCalled(w: Work, before: Option<nat>): Option<nat> {
    match w
    case Done => before
    case Row(_, _, rest) => LastCalled(rest, before)
    case Fire(_, _, rest) => LastCalled(rest, before)
    case Call(effect, rest) => LastCalled(rest, Some(effect.count))
  }

  /** The count of the statement completed last in the context of that point, if there is one. */
  function Promised(cut: Cut, before: Option<nat>): Option<nat>
    decreases cut
  {
    match cut
    case Here(w) => LastCalled(w, before)
    case Within(_, steps, inner) => Promised(inner, if steps == NoSteps then None else Some(SeenSteps(steps, 0)))
  }

  /** The last trigger that has ended during the statement that is running at that point, since its last call. */
  function LastTrigger(cut: Cut): Option<Work> {
    match cut
    case Here(w) => LastFired(w, None)
    case Within(_, _, inner) => LastTrigger(inner)
  }

  function LastFired(w: Work, found: Option<Work>): Option<Work> {
    match w
    case Done => found
    case Row(_, _, rest) => LastFired(rest, found)
    case Fire(_, tail, rest) => LastFired(rest, Some(tail))
    case Call(_, rest) => LastFired(rest, None)
  }

  lemma {:induction false} SeenFrom(w: Work, before: nat, found: Option<Work>)
    ensures LastCalled(w, Some(before)).Some?
    ensures var last := LastFired(w, found);
            Seen(w, if found.Some? then Direct(found.value) else before)
              == if last.Some? then Direct(last.value) else LastCalled(w, Some(before)).value
  {
    match w
    case Done =>
    case Row(_, _, rest) => SeenFrom(rest, before, found);
    case Fire(_, tail, rest) => SeenFrom(rest, before, Some(tail));
    case Call(effect, rest) => SeenFrom(rest, effect.count, None);
  }

  lemma {:induction false} CalledFrom(w: Work, before: nat)
    ensures LastCalled(w, None).Some? ==> LastCalled(w, None) == LastCalled(w, Some(before))
  {
    match w
    case Done =>
    case Row(_, _, rest) => CalledFrom(rest, before);
    case Fire(_, _, rest) => CalledFrom(rest, before);
    case Call(_, _) =>
  }

  lemma {:induction false} SeenStepsAny(steps: Steps, a: nat, b: nat)
    requires steps != NoSteps
    ensures SeenSteps(steps, a) == SeenSteps(steps, b)
  {
    if steps.rest != NoSteps {
      SeenStepsAny(steps.rest, Direct(steps.work), Direct(steps.work));
    }
  }

  /** Between statements the count is right; within one, unless a trigger of it has ended since its last call. */
  lemma {:induction false} SeenRightIff(cut: Cut, before: nat, known: Option<nat>)
    requires known.Some? ==> known.value == before
    requires Promised(cut, known).Some?
    ensures var last := LastTrigger(cut); var promised := Promised(cut, known).value;
            SeenAt(cut, before) == promised <==> (last.Some? ==> Direct(last.value) == promised)
    decreases cut
  {
    match cut
    case Here(w) =>
      SeenFrom(w, before, None);
      CalledFrom(w, before);
    case Within(w, steps, inner) =>
      if steps != NoSteps {
        SeenStepsAny(steps, Seen(w, before), 0);
      }
      SeenRightIff(inner, SeenSteps(steps, Seen(w, before)),
                   if steps == NoSteps then None else Some(SeenSteps(steps, 0)));
  }

  /** A trigger completes a statement of one row; its next statement fires a trigger, and then sees 0. */
  lemma SeenIsLost(before: nat)
    ensures var one := Row(true, Some(5), Done);
            var cut := Within(Done, Step(one, NoSteps), Here(Fire(Step(one, NoSteps), Done, Done)));
            Promised(cut, Some(before)) == Some(1) && SeenAt(cut, before) == 0
  {
  }

  // ----- runs of statements -----

  function PerformAll(vm: Vm, run: seq<Statement>): Vm
    decreases |run|
  {
    if run == [] then vm else PerformAll(Perform(vm, run[0]), run[1..])
  }

  function TotalOf(run: seq<Statement>): nat
    decreases |run|
  {
    if run == [] then 0 else Completed(run[0].cut) + Counted(run[0]) + TotalOf(run[1..])
  }

  function RowidOf(run: seq<Statement>, before: int): int
    decreases |run|
  {
    if run == [] then before else RowidOf(run[1..], RowidCut(run[0].cut, before))
  }

  /** Over every run: the total is the sum over all statements and contexts, the count is the last one's. */
  lemma {:induction false} RunCounters(vm: Vm, run: seq<Statement>)
    requires Between(vm)
    ensures Between(PerformAll(vm, run))
    ensures PerformAll(vm, run).total == vm.total + TotalOf(run)
    ensures PerformAll(vm, run).changes == if run == [] then vm.changes else Counted(run[|run| - 1])
    ensures PerformAll(vm, run).lastRowid == RowidOf(run, vm.lastRowid)
    decreases |run|
  {
    if run != [] {
      StatementEnds(vm, run[0]);
      RunCounters(Perform(vm, run[0]), run[1..]);
    }
  }

  /** The direct inserts of all statements, in order, as one piece of work. */
  function DirectOf(run: seq<Statement>, before: int): int
    decreases |run|
  {
    if run == [] then before else DirectOf(run[1..], Rowid(run[0].cut.work, before))
  }

  function AllOf(run: seq<Statement>): nat
    decreases |run|
  {
    if run == [] then 0 else All(run[0].cut.work) + AllOf(run[1..])
  }

  /** If every statement finishes, every counted row of every context is in the total, exactly once. */
  lemma {:induction false} FinishedRun(vm: Vm, run: seq<Statement>)
    requires Between(vm) && forall s :: s in run ==> s.ending == Finished && s.cut.Here?
    ensures PerformAll(vm, run).total == vm.total + AllOf(run)
    ensures PerformAll(vm, run).lastRowid == DirectOf(run, vm.lastRowid)
    decreases |run|
  {
    if run != [] {
      StatementEnds(vm, run[0]);
      FinishedRun(Perform(vm, run[0]), run[1..]);
    }
  }
}
