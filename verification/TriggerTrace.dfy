/**
 Row changes and triggers: what one SQL statement does as a tree, and the counter part of the virtual
 machine that executes it as a flat sequence of instructions (vdbe.c).
 */
module TriggerTrace {
  import opened Options

  /**
   The work of one statement, in order. A row change is counted if its instruction carries
   OPFLAG_NCHANGE; an INSERT also gives the rowid for last_insert_rowid().
   A trigger runs some statements to their end; `tail` is the work of a last statement that
   RAISE(IGNORE) cut short, and Done if the trigger ran to its end.
   A call is a whole other statement that application code steps while this one is running.
   */
  datatype Work =
    | Done
    | Row(counted: bool, rowid: Option<int>, rest: Work)
    | Fire(steps: Steps, tail: Work, rest: Work)
    | Call(effect: Effect, rest: Work)

  /**
   What a called statement does to the connection: the count it leaves, what it adds to the total, and the
   last rowid it leaves if that is another one. `inFunction` says that a scalar SQL function calls it; other
   application code is an aggregate, a collation or a hook.
   */
  datatype Effect = Effect(count: nat, added: nat, rowid: Option<int>, inFunction: bool) {
    /** OP_Function takes over the last rowid that it finds afterwards. */
    function Adopted(): Option<int> { if inFunction then rowid else None }
  }

  datatype Steps = NoSteps | Step(work: Work, rest: Steps)

  // ----- what the counters should say -----

  /** The rows a statement changes itself. */
  function Direct(w: Work): nat {
    match w
    case Done => 0
    case Row(counted, _, rest) => (if counted then 1 else 0) + Direct(rest)
    case Fire(_, _, rest) => Direct(rest)
    case Call(_, rest) => Direct(rest)
  }

  /** The rows changed by its triggers, at any depth, and the rows that called statements count. */
  function Nested(w: Work): nat
    decreases w, 0
  {
    match w
    case Done => 0
    case Row(_, _, rest) => Nested(rest)
    case Fire(steps, tail, rest) => AllSteps(steps) + All(tail) + Nested(rest)
    case Call(effect, rest) => effect.added + Nested(rest)
  }

  function All(w: Work): nat
    decreases w, 1
  {
    Direct(w) + Nested(w)
  }

  function AllSteps(steps: Steps): nat {
    match steps
    case NoSteps => 0
    case Step(work, rest) => All(work) + AllSteps(rest)
  }

  /** The rowid of the last row that it inserts itself or takes over from a call. */
  function Rowid(w: Work, before: int): int {
    match w
    case Done => before
    case Row(_, rowid, rest) => Rowid(rest, if rowid.Some? then rowid.value else before)
    case Fire(_, _, rest) => Rowid(rest, before)
    case Call(effect, rest) => Rowid(rest, if effect.Adopted().Some? then effect.Adopted().value else before)
  }

  function RowidSteps(steps: Steps, before: int): int {
    match steps
    case NoSteps => before
    case Step(work, rest) => RowidSteps(rest, Rowid(work, before))
  }

  // ----- the same, from a list of the rows -----

  /** What may change the counters or the last rowid: a row, or a call of another statement. */
  datatype Item =
    | RowItem(counted: bool, rowid: Option<int>)
    | CallItem(effect: Effect)

  /** The rows and calls of the statement itself, in order. */
  function OwnItems(w: Work): seq<Item> {
    match w
    case Done => []
    case Row(counted, rowid, rest) => [RowItem(counted, rowid)] + OwnItems(rest)
    case Fire(_, _, rest) => OwnItems(rest)
    case Call(effect, rest) => [CallItem(effect)] + OwnItems(rest)
  }

  /** Those of the statement and of all its triggers, in order. */
  function AllItems(w: Work): seq<Item> {
    match w
    case Done => []
    case Row(counted, rowid, rest) => [RowItem(counted, rowid)] + AllItems(rest)
    case Fire(steps, tail, rest) => StepItems(steps) + AllItems(tail) + AllItems(rest)
    case Call(effect, rest) => [CallItem(effect)] + AllItems(rest)
  }

  function StepItems(steps: Steps): seq<Item> {
    match steps
    case NoSteps => []
    case Step(work, rest) => AllItems(work) + StepItems(rest)
  }

  /** The rows that are counted. */
  function CountedRows(items: seq<Item>): nat {
    if items == [] then 0
    else (if items[0].RowItem? && items[0].counted then 1 else 0) + CountedRows(items[1..])
  }

  /** What called statements add. */
  function AddedByCalls(items: seq<Item>): nat {
    if items == [] then 0 else (if items[0].CallItem? then items[0].effect.added else 0) + AddedByCalls(items[1..])
  }

  /** The last rowid in the list, of a row or of a call by a function. */
  function LastRowid(items: seq<Item>, before: int): int {
    if items == [] then before
    else
      match items[0]
      case RowItem(_, rowid) => LastRowid(items[1..], if rowid.Some? then rowid.value else before)
      case CallItem(e) => LastRowid(items[1..], if e.inFunction && e.rowid.Some? then e.rowid.value else before)
  }

  lemma {:induction false} CountedConcat(a: seq<Item>, b: seq<Item>)
    ensures CountedRows(a + b) == CountedRows(a) + CountedRows(b)
    ensures AddedByCalls(a + b) == AddedByCalls(a) + AddedByCalls(b)
  {
    if a == [] {
      assert a + b == b;
    } else {
      assert (a + b)[1..] == a[1..] + b;
      CountedConcat(a[1..], b);
    }
  }

  /** The statement's count is that of its own counted rows, and its rowid the last one in its own list. */
  lemma {:induction false} DirectIsOwnRows(w: Work, before: int)
    ensures Direct(w) == CountedRows(OwnItems(w)) && Rowid(w, before) == LastRowid(OwnItems(w), before)
  {
    match w
    case Done =>
    case Row(counted, rowid, rest) =>
      DirectIsOwnRows(rest, if rowid.Some? then rowid.value else before);
    case Fire(_, _, rest) => DirectIsOwnRows(rest, before);
    case Call(e, rest) =>
      DirectIsOwnRows(rest, if e.inFunction && e.rowid.Some? then e.rowid.value else before);
  }

  /** With its triggers at any depth it changes all counted rows there are, beside what calls add. */
  lemma {:induction false} AllIsAllRows(w: Work)
    ensures All(w) == CountedRows(AllItems(w)) + AddedByCalls(AllItems(w))
    decreases w
  {
    match w
    case Done =>
    case Row(counted, rowid, rest) =>
      AllIsAllRows(rest);
    case Fire(steps, tail, rest) =>
      StepsAreAllRows(steps);
      AllIsAllRows(tail);
      AllIsAllRows(rest);
      CountedConcat(StepItems(steps) + AllItems(tail), AllItems(rest));
      CountedConcat(StepItems(steps), AllItems(tail));
    case Call(e, rest) =>
      AllIsAllRows(rest);
  }

  lemma {:induction false} StepsAreAllRows(steps: Steps)
    ensures AllSteps(steps) == CountedRows(StepItems(steps)) + AddedByCalls(StepItems(steps))
    decreases steps
  {
    if steps.Step? {
      AllIsAllRows(steps.work);
      StepsAreAllRows(steps.rest);
      CountedConcat(AllItems(steps.work), StepItems(steps.rest));
    }
  }

  // ----- the instructions -----

  datatype Op =
    | Change(counted: bool, rowid: Option<int>)  // OP_Insert, OP_Delete, OP_VUpdate
    | ResetCount
    | Program
    | HaltFrame                                  // OP_Halt of a sub-program
    | Invoke(effect: Effect)                     // OP_Function, OP_AggStep and others that run application code

  /** The code generated for a statement, as it is executed. */
  function Trace(w: Work): seq<Op> {
    match w
    case Done => []
    case Row(counted, rowid, rest) => [Change(counted, rowid)] + Trace(rest)
    case Fire(steps, tail, rest) => [Program] + TraceSteps(steps) + Trace(tail) + [HaltFrame] + Trace(rest)
    case Call(effect, rest) => [Invoke(effect)] + Trace(rest)
  }

  /** codeTriggerProgram(): a ResetCount after every statement of a trigger that is not a SELECT. */
  function TraceSteps(steps: Steps): seq<Op> {
    match steps
    case NoSteps => []
    case Step(work, rest) => Trace(work) + [ResetCount] + TraceSteps(rest)
  }

  /** struct VdbeFrame: what OP_Program saves. */
  datatype VdbeFrame = VdbeFrame(lastRowid: int, nChange: nat)

  /**
   The counters while a statement runs: the local variable lastRowid of sqlite3VdbeExec(), the
   statement's own count, the saved frames with the innermost first, and the connection's two counters.
   */
  datatype Vm = Vm(lastRowid: int, nChange: nat, frames: seq<VdbeFrame>, changes: nat, total: nat)

  /** sqlite3VdbeSetChanges(). */
  function SetChanges(vm: Vm, n: nat): Vm {
    vm.(changes := n, total := vm.total + n)
  }

  function Execute(vm: Vm, op: Op): Vm {
    match op
    case Change(counted, rowid) =>
      vm.(nChange := if counted then vm.nChange + 1 else vm.nChange,
          lastRowid := if rowid.Some? then rowid.value else vm.lastRowid)
    case ResetCount => SetChanges(vm, vm.nChange).(nChange := 0)
    case Program => vm.(frames := [VdbeFrame(vm.lastRowid, vm.nChange)] + vm.frames, nChange := 0)
    case HaltFrame =>
      if vm.frames == [] then vm
      else SetChanges(vm, vm.nChange).(lastRowid := vm.frames[0].lastRowid, nChange := vm.frames[0].nChange,
                                       frames := vm.frames[1..])
    case Invoke(e) =>
      vm.(changes := e.count, total := vm.total + e.added,
          lastRowid := if e.Adopted().Some? then e.Adopted().value else vm.lastRowid)
  }

  function Run(vm: Vm, ops: seq<Op>): Vm
    decreases |ops|
  {
    if ops == [] then vm else Run(Execute(vm, ops[0]), ops[1..])
  }

  lemma {:induction false} RunConcat(vm: Vm, a: seq<Op>, b: seq<Op>)
    ensures Run(vm, a + b) == Run(Run(vm, a), b)
    decreases |a|
  {
    if a == [] {
      assert a + b == b;
    } else {
      assert (a + b)[1..] == a[1..] + b;
      RunConcat(Execute(vm, a[0]), a[1..], b);
    }
  }

  // ----- the machine computes what the tree says -----

  /** The connection's change count after some work: the end of a trigger and a call overwrite it. */
  function Seen(w: Work, before: nat): nat {
    match w
    case Done => before
    case Row(_, _, rest) => Seen(rest, before)
    case Fire(_, tail, rest) => Seen(rest, Direct(tail))
    case Call(effect, rest) => Seen(rest, effect.count)
  }

  /** After a completed statement of a trigger it is the count of that statement. */
  function SeenSteps(steps: Steps, before: nat): nat {
    match steps
    case NoSteps => before
    case Step(work, rest) => SeenSteps(rest, Direct(work))
  }

  function AfterWork(vm: Vm, w: Work): Vm {
    Vm(Rowid(w, vm.lastRowid), vm.nChange + Direct(w), vm.frames, Seen(w, vm.changes), vm.total + Nested(w))
  }

  lemma {:induction false} WorkRuns(vm: Vm, w: Work)
    ensures Run(vm, Trace(w)) == AfterWork(vm, w)
    decreases w, 1
  {
    match w
    case Done =>
    case Row(counted, rowid, rest) =>
      var op := Change(counted, rowid);
      RunConcat(vm, [op], Trace(rest));
      WorkRuns(Execute(vm, op), rest);
    case Fire(steps, tail, rest) =>
      TriggerRuns(vm, w);
      var body := [Program] + TraceSteps(steps) + Trace(tail) + [HaltFrame];
      RunConcat(vm, body, Trace(rest));
      WorkRuns(Run(vm, body), rest);
    case Call(effect, rest) =>
      var op := Invoke(effect);
      RunConcat(vm, [op], Trace(rest));
      WorkRuns(Execute(vm, op), rest);
  }

  /** A trigger leaves the count and the rowid of its statement alone. */
  lemma {:induction false} TriggerRuns(vm: Vm, w: Work)
    requires w.Fire?
    ensures Run(vm, [Program] + TraceSteps(w.steps) + Trace(w.tail) + [HaltFrame])
         == vm.(changes := Direct(w.tail), total := vm.total + AllSteps(w.steps) + All(w.tail))
    decreases w, 0
  {
    var steps, tail := w.steps, w.tail;
    var in0 := Execute(vm, Program);
    OpenRuns(vm, steps);
    var in1 := Run(vm, [Program] + TraceSteps(steps));
    RunConcat(vm, [Program] + TraceSteps(steps), Trace(tail));
    WorkRuns(in1, tail);
    var in2 := AfterWork(in1, tail);
    RunConcat(vm, [Program] + TraceSteps(steps) + Trace(tail), [HaltFrame]);
    assert in2.frames[1..] == vm.frames;
  }

  /** The state inside a trigger after some completed statements. */
  function Opened(vm: Vm, steps: Steps): Vm {
    Vm(RowidSteps(steps, vm.lastRowid), 0, [VdbeFrame(vm.lastRowid, vm.nChange)] + vm.frames,
       SeenSteps(steps, vm.changes), vm.total + AllSteps(steps))
  }

  lemma {:induction false} OpenRuns(vm: Vm, steps: Steps)
    ensures Run(vm, [Program] + TraceSteps(steps)) == Opened(vm, steps)
    decreases steps, 1
  {
    RunConcat(vm, [Program], TraceSteps(steps));
    StepsRun(Execute(vm, Program), steps);
  }

  lemma {:induction false} StepsRun(vm: Vm, steps: Steps)
    requires vm.nChange == 0
    ensures Run(vm, TraceSteps(steps))
         == Vm(RowidSteps(steps, vm.lastRowid), 0, vm.frames, SeenSteps(steps, vm.changes), vm.total + AllSteps(steps))
    decreases steps, 0
  {
    match steps
    case NoSteps =>
    case Step(work, rest) =>
      var t, u := Trace(work), TraceSteps(rest);
      RunConcat(vm, t + [ResetCount], u);
      RunConcat(vm, t, [ResetCount]);
      WorkRuns(vm, work);
      StepsRun(Execute(AfterWork(vm, work), ResetCount), rest);
  }
}
