/**
 The interrupt flag of a connection (main.c, vdbe.c, vdbeapi.c). Starting a statement takes two steps,
 and sqlite3_interrupt() may come from another thread between them; everything else that touches the
 connection is kept apart by its mutex.
 */
module Interrupt {

  datatype Event =
    | Interrupt  // sqlite3_interrupt()
    | Prepare    // sqlite3RunParser(): clears the flag if no statement is running
    | Reset      // sqlite3Step(), first step: clears the flag if no statement is running
    | Enter      // sqlite3Step(), second step: the statement is running
    | Leave      // sqlite3VdbeHalt(): a statement has stopped running
    | Check      // CHECK_FOR_INTERRUPT in a running statement
    | ParseCheck // the parser looks at the flag between two tokens

  datatype Db = Db(isInterrupted: bool, activeVdbeCnt: int, starting: bool)

  predicate Possible(db: Db, e: Event) {
    match e
    case Interrupt => true
    case Prepare => !db.starting
    case Reset => !db.starting
    case Enter => db.starting
    case Leave => !db.starting && db.activeVdbeCnt > 0
    case Check => !db.starting && db.activeVdbeCnt > 0
    case ParseCheck => !db.starting
  }

  function Step(db: Db, e: Event): Db {
    match e
    case Interrupt => db.(isInterrupted := true)
    case Prepare => db.(isInterrupted := db.isInterrupted && db.activeVdbeCnt > 0)
    case Reset => db.(isInterrupted := db.isInterrupted && db.activeVdbeCnt > 0, starting := true)
    case Enter => db.(activeVdbeCnt := db.activeVdbeCnt + 1, starting := false)
    case Leave => db.(activeVdbeCnt := db.activeVdbeCnt - 1)
    case Check => db
    case ParseCheck => db
  }

  /** The connection after the first n events. */
  function At(run: seq<Event>, n: nat): Db
    requires n <= |run|
  {
    if n == 0 then Db(false, 0, false) else Step(At(run, n - 1), run[n - 1])
  }

  predicate IsRun(run: seq<Event>) {
    forall n: nat {:trigger Possible(At(run, n), run[n])} :: n < |run| ==> Possible(At(run, n), run[n])
  }

  /** Some statement is running from the i-th event to the n-th. */
  ghost predicate Busy(run: seq<Event>, i: nat, n: nat)
    requires i <= n <= |run|
  {
    forall j: nat {:trigger At(run, j)} :: i <= j <= n ==> At(run, j).activeVdbeCnt > 0
  }

  /** The documented scope: a call made while statements were running, and some have been ever since. */
  ghost predicate InScope(run: seq<Event>, i: nat, n: nat)
    requires i < n <= |run|
  {
    run[i] == Interrupt && Busy(run, i, n)
  }

  ghost predicate InEffect(run: seq<Event>, n: nat)
    requires n <= |run|
  {
    exists i: nat :: i < n && InScope(run, i, n)
  }

  /** A call made when nothing was running, between the two steps with which the present period began. */
  ghost predicate Slips(run: seq<Event>, i: nat, n: nat)
    requires i + 2 <= n <= |run|
  {
    && run[i] == Interrupt && At(run, i).starting && At(run, i).activeVdbeCnt == 0
    && run[i + 1] == Enter && Busy(run, i + 2, n)
  }

  ghost predicate Slipped(run: seq<Event>, n: nat)
    requires n <= |run|
  {
    exists i: nat :: i + 2 <= n && Slips(run, i, n)
  }

  /** What the flag says, at every point of every run at which a statement is running or about to. */
  ghost predicate FlagIsRight(run: seq<Event>, n: nat)
    requires n <= |run|
  {
    var db := At(run, n);
    && db.activeVdbeCnt >= 0
    && (db.activeVdbeCnt > 0 ==> (db.isInterrupted <==> InEffect(run, n) || Slipped(run, n)))
    && (db.activeVdbeCnt == 0 && db.starting ==> (db.isInterrupted <==> n > 0 && run[n - 1] == Interrupt))
  }

  /** While statements keep running, a call in effect stays in effect, and no other event puts one in effect. */
  lemma EffectStays(run: seq<Event>, n: nat)
    requires n < |run| && At(run, n).activeVdbeCnt > 0 && At(run, n + 1).activeVdbeCnt > 0
    ensures InEffect(run, n + 1) <==> InEffect(run, n) || run[n] == Interrupt
    ensures Slipped(run, n + 1) <==> Slipped(run, n)
  {
    if InEffect(run, n) {
      var i: nat :| i < n && InScope(run, i, n);
      assert InScope(run, i, n + 1);
    }
    if run[n] == Interrupt {
      assert InScope(run, n, n + 1);
    }
    if InEffect(run, n + 1) && run[n] != Interrupt {
      var i: nat :| i < n + 1 && InScope(run, i, n + 1);
      assert InScope(run, i, n);
    }
    if Slipped(run, n) {
      var i: nat :| i + 2 <= n && Slips(run, i, n);
      assert Slips(run, i, n + 1);
    }
    if Slipped(run, n + 1) {
      var i: nat :| i + 2 <= n + 1 && Slips(run, i, n + 1);
      assert i + 2 <= n && Slips(run, i, n);
    }
  }

  /** When the first statement starts, only a call that slipped in can be in effect. */
  lemma PeriodBegins(run: seq<Event>, n: nat)
    requires n < |run| && IsRun(run) && At(run, n).activeVdbeCnt == 0 && run[n] == Enter
    ensures !InEffect(run, n + 1)
    ensures Slipped(run, n + 1) <==> n > 0 && run[n - 1] == Interrupt
  {
    var m := n + 1;
    forall i: nat {:trigger InScope(run, i, m)} | i < m
      ensures !InScope(run, i, m)
    {
    }
    forall i: nat {:trigger Slips(run, i, m)} | i + 2 <= n
      ensures !Slips(run, i, m)
    {
    }
    if n > 0 && run[n - 1] == Interrupt {
      SlipsIn(run, n);
    }
  }

  lemma SlipsIn(run: seq<Event>, n: nat)
    requires 0 < n < |run| && IsRun(run) && At(run, n).activeVdbeCnt == 0 && run[n] == Enter && run[n - 1] == Interrupt
    ensures Slips(run, n - 1, n + 1)
  {
    assert Possible(At(run, n), run[n]);
    assert At(run, n) == Step(At(run, n - 1), run[n - 1]);
    assert At(run, n + 1) == Step(At(run, n), run[n]);
  }

  lemma BusyStep(run: seq<Event>, n: nat)
    requires n < |run| && FlagIsRight(run, n) && Possible(At(run, n), run[n])
    requires At(run, n).activeVdbeCnt > 0
    ensures FlagIsRight(run, n + 1)
  {
    if At(run, n + 1).activeVdbeCnt > 0 {
      EffectStays(run, n);
    }
  }

  lemma IdleStep(run: seq<Event>, n: nat)
    requires n < |run| && IsRun(run) && FlagIsRight(run, n) && Possible(At(run, n), run[n])
    requires At(run, n).activeVdbeCnt == 0
    ensures FlagIsRight(run, n + 1)
  {
    if run[n] == Enter {
      PeriodBegins(run, n);
    }
  }

  lemma {:induction false} FlagStaysRight(run: seq<Event>, n: nat)
    requires IsRun(run) && n <= |run|
    ensures FlagIsRight(run, n)
  {
    if n > 0 {
      FlagStaysRight(run, n - 1);
      assert Possible(At(run, n - 1), run[n - 1]);
      if At(run, n - 1).activeVdbeCnt > 0 {
        BusyStep(run, n - 1);
      } else {
        IdleStep(run, n - 1);
      }
    }
  }

  /** A check aborts its statement exactly if a call is in effect as documented, or one slipped in. */
  lemma InterruptedIff(run: seq<Event>, n: nat)
    requires IsRun(run) && n < |run| && run[n] == Check
    ensures At(run, n).isInterrupted <==> InEffect(run, n) || Slipped(run, n)
  {
    FlagStaysRight(run, n);
    assert Possible(At(run, n), run[n]);
  }

  /** Without a call between the two steps of a start, the scope is exactly the documented one. */
  lemma DocumentedScopeIff(run: seq<Event>, n: nat)
    requires IsRun(run) && n < |run| && run[n] == Check
    requires forall i: nat {:trigger At(run, i)} ::
               i < n && At(run, i).starting && At(run, i).activeVdbeCnt == 0 ==> run[i] != Interrupt
    ensures At(run, n).isInterrupted <==> InEffect(run, n)
  {
    InterruptedIff(run, n);
  }

  /** A call that slips in stops a statement although nothing was running when it was made. */
  lemma SlippedCallStops()
    ensures var run := [Reset, Interrupt, Enter, Check];
            IsRun(run) && At(run, 1).activeVdbeCnt == 0 && At(run, 3).isInterrupted && !InEffect(run, 3)
  {
    var run := [Reset, Interrupt, Enter, Check];
    assert At(run, 0) == Db(false, 0, false);
    assert At(run, 1) == Db(false, 0, true);
    assert At(run, 2) == Db(true, 0, true);
    assert At(run, 3) == Db(true, 1, false);
    forall i: nat | i < 3
      ensures !InScope(run, i, 3)
    {
      assert run[i] == Interrupt ==> i == 1;
    }
  }

  // ----- while nothing is running -----

  /** The start of a prepare or of a first statement wipes out earlier calls. */
  predicate Wipes(run: seq<Event>, j: nat)
    requires j < |run|
  {
    (run[j] == Prepare || run[j] == Reset) && At(run, j).activeVdbeCnt <= 0
  }

  ghost predicate Stands(run: seq<Event>, i: nat, n: nat)
    requires i < n <= |run|
  {
    run[i] == Interrupt && forall j: nat {:trigger Wipes(run, j)} :: i < j < n ==> !Wipes(run, j)
  }

  /** At every point of every run the flag is set exactly if there was a call that nothing has wiped out since. */
  lemma {:induction false} FlagIff(run: seq<Event>, n: nat)
    requires n <= |run|
    ensures At(run, n).isInterrupted <==> exists i: nat :: i < n && Stands(run, i, n)
  {
    if n > 0 {
      var m := n - 1;
      FlagIff(run, m);
      if i: nat :| i < m && Stands(run, i, m) && !Wipes(run, m) {
        assert Stands(run, i, n);
      }
      if i: nat :| i < n && Stands(run, i, n) {
        assert i < m ==> Stands(run, i, m) && !Wipes(run, m);
      }
      if run[m] == Interrupt {
        assert Stands(run, m, n);
      }
    }
  }

  /** What was called before a prepare, while nothing was running, stops neither the parser nor anything after it. */
  lemma EarlierCallsAreWiped(run: seq<Event>, k: nat, n: nat)
    requires k < n <= |run| && run[k] == Prepare && At(run, k).activeVdbeCnt <= 0
    requires forall j :: k < j < n ==> run[j] != Interrupt
    ensures !At(run, n).isInterrupted
  {
    FlagIff(run, n);
    assert Wipes(run, k);
  }
}
