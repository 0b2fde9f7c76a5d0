/**
 The counters of the virtual machine and of its connection as the objects of vdbe.c and vdbeaux.c
 update them.
 */
module Vdbe {
  import opened TriggerTrace
  import opened ChangeCounters

  /** The fields of struct sqlite3 that count. */
  class Sqlite3 {
    var nChange: nat
    var nTotalChange: nat
    var lastRowid: int

    constructor ()
      ensures nChange == 0 && nTotalChange == 0 && lastRowid == 0
    {
      nChange, nTotalChange, lastRowid := 0, 0, 0;
    }
  }

  class Machine {
    const db: Sqlite3
    var nChange: nat
    var pFrame: seq<VdbeFrame>  // the innermost frame first

    constructor (db: Sqlite3)
      ensures this.db == db && nChange == 0 && pFrame == []
    {
      this.db := db;
      nChange, pFrame := 0, [];
    }

    /** The machine with the local lastRowid of sqlite3VdbeExec(). */
    ghost function State(lastRowid: int): Vm
      reads this, db
    {
      Vm(lastRowid, nChange, pFrame, db.nChange, db.nTotalChange)
    }

    method SetChanges(n: nat)
      modifies db`nChange, db`nTotalChange
      ensures db.nChange == n && db.nTotalChange == old(db.nTotalChange) + n
    {
      db.nChange := n;
      db.nTotalChange := db.nTotalChange + n;
    }

    /** sqlite3VdbeFrameRestore(). */
    method FrameRestore(frame: VdbeFrame)
      modifies this`nChange, db`lastRowid
      ensures nChange == frame.nChange && db.lastRowid == frame.lastRowid
    {
      db.lastRowid := frame.lastRowid;
      nChange := frame.nChange;
    }

    /** closeAllCursors(): walks to the outermost frame and restores that one. */
    method CloseAllCursors()
      modifies this`nChange, this`pFrame, db`lastRowid
      ensures pFrame == []
      ensures nChange == if old(pFrame) == [] then old(nChange) else old(pFrame)[|old(pFrame)| - 1].nChange
    {
      if pFrame != [] {
        var frame := 0;
        while frame + 1 < |pFrame|
          invariant frame < |pFrame|
        {
          frame := frame + 1;
        }
        FrameRestore(pFrame[frame]);
      }
      pFrame := [];
    }

    /**
     sqlite3VdbeHalt(), the part that concerns the counters; it also tells whether it rolls back the whole
     transaction, and whether it rolls back the statement alone.
     */
    method VdbeHalt(ending: Ending, at: Setting, ghost lastRowid: int) returns (rollbackAll: bool, rollbackOwn: bool)
      modifies this, db
      ensures State(lastRowid) == Halt(old(State(lastRowid)), ending, at)
      ensures rollbackAll <==> UndoesTransaction(ending, at)
      ensures rollbackAll || rollbackOwn
         <==> UndoesTransaction(ending, at) || (UndoesStatement(ending, at) && at.hasSavepoint)
    {
      CloseAllCursors();
      var autoCommit, rollbackStatement, releaseStatement := at.autoCommit, false, false;
      var nStatement := at.hasSavepoint;
      rollbackAll := false;
      if ending.Special? {
        if ending.undoStatement {
          rollbackStatement := true;
        } else {
          rollbackAll := true;
          nStatement := false;
          autoCommit := true;
        }
      }
      if autoCommit && at.onlyWriter {
        rollbackAll := (ending != Finished && ending != Fail) || at.closingFails;
        nStatement := false;
      } else if !rollbackStatement {
        if ending == Finished || ending == Fail {
          releaseStatement := true;
        } else if ending != Rollback {
          // a special error leaves the default, OE_Abort, in place
          rollbackStatement := true;
        } else {
          rollbackAll := true;
        }
      }
      rollbackOwn := false;
      if (rollbackStatement || releaseStatement) && nStatement {
        rollbackOwn := rollbackStatement;
        rollbackAll := rollbackAll || at.closingFails;
      }
      if !rollbackStatement {
        SetChanges(nChange);
      } else {
        SetChanges(0);
      }
      nChange := 0;
    }

    /** One instruction of sqlite3VdbeExec(). */
    method ExecuteOp(op: Op, last: int) returns (lastRowid: int)
      modifies this, db
      ensures State(lastRowid) == Execute(old(State(last)), op)
    {
      lastRowid := last;
      match op
      case Change(counted, rowid) =>
        if counted {
          nChange := nChange + 1;
        }
        if rowid.Some? {
          db.lastRowid := rowid.value;
          lastRowid := rowid.value;
        }
      case ResetCount =>
        SetChanges(nChange);
        nChange := 0;
      case Program =>
        pFrame := [VdbeFrame(lastRowid, nChange)] + pFrame;
        nChange := 0;
      case HaltFrame =>
        if pFrame != [] {
          var frame := pFrame[0];
          pFrame := pFrame[1..];
          SetChanges(nChange);
          FrameRestore(frame);
          lastRowid := db.lastRowid;
        }
      case Invoke(e) =>
        if e.inFunction {
          db.lastRowid := lastRowid;
        }
        db.nChange := e.count;
        db.nTotalChange := db.nTotalChange + e.added;
        if e.rowid.Some? {
          db.lastRowid := e.rowid.value;
        }
        if e.inFunction {
          lastRowid := db.lastRowid;
        }
    }

    /** sqlite3VdbeExec() and the halt at its end, for the instructions that the statement executes. */
    method Exec(ops: seq<Op>, ending: Ending, at: Setting) returns (rollbackAll: bool, rollbackOwn: bool)
      modifies this, db
      ensures State(db.lastRowid) == Halt(Run(old(State(db.lastRowid)), ops), ending, at)
      ensures rollbackAll <==> UndoesTransaction(ending, at)
      ensures rollbackAll || rollbackOwn
         <==> UndoesTransaction(ending, at) || (UndoesStatement(ending, at) && at.hasSavepoint)
    {
      ghost var start := State(db.lastRowid);
      var lastRowid := db.lastRowid;
      var pc := 0;
      while pc < |ops|
        invariant pc <= |ops|
        invariant State(lastRowid) == Run(start, ops[..pc])
      {
        assert ops[..pc + 1] == ops[..pc] + [ops[pc]];
        RunConcat(start, ops[..pc], [ops[pc]]);
        lastRowid := ExecuteOp(ops[pc], lastRowid);
        pc := pc + 1;
      }
      assert ops[..pc] == ops;
      rollbackAll, rollbackOwn := VdbeHalt(ending, at, lastRowid);
      db.lastRowid := lastRowid;
    }

    /** A statement, from its first instruction to the values that the three interfaces return after it. */
    method Step(s: Statement) returns (undone: bool)
      requires nChange == 0 && pFrame == []
      modifies this, db
      ensures nChange == 0 && pFrame == []
      ensures db.nChange == Counted(s)
      ensures db.nTotalChange == old(db.nTotalChange) + Completed(s.cut) + Counted(s)
      ensures db.lastRowid == RowidCut(s.cut, old(db.lastRowid))
      ensures undone <==> s.Undone()
    {
      StatementEnds(State(db.lastRowid), s);
      var rollbackAll, rollbackOwn := Exec(TraceCut(s.cut), s.ending, s.setting);
      undone := rollbackAll || rollbackOwn || s.setting.rolledBack;
    }
  }
}
