/**
 The results an application sees: how many steps a backup takes, what the progress counters mean, and
 what sqlite3_backup_finish() returns after any run.
 */
module BackupResults {
  import opened BackupCopy
  import opened BackupRuns

  // ----- progress -----

  function Max(a: int, b: int): int { if a < b then b else a }
  function Min(a: int, b: int): int { if a < b then a else b }

  /** Where a step that goes on at page `from` ends, if it succeeds. */
  function End(from: Pgno, n: int, nSrcPage: nat): int {
    if n < 0 then Max(from, nSrcPage + 1) else Min(from + n, Max(from, nSrcPage + 1))
  }

  /** How far a successful copy loop gets. */
  lemma {:induction false} CopyPagesAdvances(b: Backup, pages: seq<Page>, left: int,
                                             pending: PendingPage, copy: nat -> int)
    ensures var (c, code) := CopyPages(b, pages, left, SQLITE_OK, pending, copy);
            code == SQLITE_OK ==> c.iNext == End(b.iNext, left, |pages|)
    decreases |pages| - b.iNext
  {
    if left == 0 || b.iNext > |pages| {
      CopyPagesEnds(b, pages, left, SQLITE_OK, pending, copy);
    } else {
      var code := if b.iNext == pending then SQLITE_OK else copy(b.iNext);
      var next := CopyOne(b, pages[b.iNext - 1], pending, code);
      CopyPagesOnce(b, pages, left, pending, copy, code);
      if code == SQLITE_OK {
        CopyPagesAdvances(next, pages, left - 1, pending, copy);
      } else {
        CopyPagesEnds(next, pages, left - 1, code, pending, copy);
      }
    }
  }

  /** The page with which a step that gets its locks goes on: a foreign change is noticed and starts the copy over. */
  function Resume(b: Backup, src: Source): Pgno {
    if src.stale && src.lock == Unlocked && b.isAttached then 1 else b.iNext
  }

  /** What a step leaves in the object once it has its locks, if it succeeds. */
  lemma LockedStepAdvances(b: Backup, pages: seq<Page>, n: int, pending: PendingPage, a: Answers)
    requires Possible(a)
    ensures var (c, rc3) := CopyPages(b, pages, n, SQLITE_OK, pending, a.copy);
            var (d, rc4) := Tally(c, |pages|, rc3);
            var (e, rc) := Complete(d, |pages|, rc4, a);
            var end := End(b.iNext, n, |pages|);
            && (rc == SQLITE_OK || rc == SQLITE_DONE ==>
                  && e.iNext == end && (rc == SQLITE_DONE <==> end > |pages|)
                  && e.nPagecount == |pages| % TWO_32 && e.nRemaining == (|pages| + 1 - end) % TWO_32)
            && (Plausible(a) ==> !IsTransient(rc))
  {
    CopyPagesAdvances(b, pages, n, pending, a.copy);
    CopyPagesCode(b, pages, n, SQLITE_OK, pending, a.copy);
  }

  /** What a successful step leaves in the object, in terms of where it resumed; a refused one leaves all as it was. */
  lemma StepAdvances(b: Backup, src: Source, n: int, pending: PendingPage, a: Answers)
    requires !IsFatalError(b.rc) && Possible(a)
    ensures var (c, src', rc) := Step(b, src, n, pending, a);
            var end := End(Resume(b, src), n, |src.pages|);
            && src'.pages == src.pages && c.rc == rc
            && (rc == SQLITE_OK || rc == SQLITE_DONE ==>
                  && c.iNext == end && (rc == SQLITE_DONE <==> end > |src.pages|)
                  && c.nPagecount == |src.pages| % TWO_32 && c.nRemaining == (|src.pages| + 1 - end) % TWO_32
                  && (src'.stale ==> src.lock != Unlocked))
            && (Plausible(a) && IsTransient(rc) ==> c.iNext == b.iNext && src' == src)
            && (src'.stale ==> src.stale)
  {
    var (b1, rc1) := LockDest(b, if src.lock == Writing then SQLITE_BUSY else SQLITE_OK, a);
    var (b2, src2, rc2) := LockSource(b1, src, rc1, a);
    if rc2 == SQLITE_OK {
      LockedStepAdvances(b2, src.pages, n, pending, a);
    } else {
      RefusedStep(b2, src2, n, rc2, pending, a, {});
    }
  }

  /** Runs in which nobody changes the source: steps of size n, and transactions that write nothing. */
  ghost predicate Quiet(run: seq<Op>, n: int) {
    forall i :: 0 <= i < |run| ==>
      match run[i]
      case BackupStep(m, a) => m == n && Plausible(a)
      case BeginRead => true
      case BeginWrite => true
      case EndTransaction => true
      case _ => false
  }

  /** The number of steps in a run that returned SQLITE_OK. */
  function Successes(s: State, run: seq<Op>, pending: PendingPage): nat
    decreases |run|
  {
    if run == [] then 0
    else
      var (t, rc) := Apply(s, run[0], pending);
      (if run[0].BackupStep? && rc == SQLITE_OK then 1 else 0) + Successes(t, run[1..], pending)
  }

  lemma {:induction false} FatalStays(s: State, run: seq<Op>, pending: PendingPage)
    requires IsFatalError(s.b.rc)
    ensures After(s, run, pending).b == s.b || After(s, run, pending).b == s.b.(iNext := 1)
    decreases |run|
  {
    if run != [] {
      FatalStays(Apply(s, run[0], pending).0, run[1..], pending);
    }
  }

  /** A foreign change not yet noticed cannot throw the backup back. */
  predicate NothingToRedo(s: State) {
    s.src.stale ==> s.b.iNext == 1 && s.src.lock == Unlocked
  }

  /** One operation of a quiet run moves the backup by n pages if it is a successful step, and not at all otherwise. */
  lemma QuietOp(s: State, op: Op, n: nat, pending: PendingPage)
    requires Quiet([op], n) && Enabled(s, op, pending) && NothingToRedo(s)
    requires !IsFatalError(s.b.rc) && !IsFatalError(Apply(s, op, pending).0.b.rc)
    requires s.b.iNext <= |s.src.pages| + 1
    ensures var (t, rc) := Apply(s, op, pending);
            && t.src.pages == s.src.pages && NothingToRedo(t)
            && if op.BackupStep? && rc == SQLITE_OK then t.b.iNext == s.b.iNext + n && t.b.iNext <= |s.src.pages|
               else t.b.iNext == s.b.iNext
  {
    assert [op][0] == op;
    if op.BackupStep? {
      StepAdvances(s.b, s.src, n, pending, op.answers);
    }
  }

  lemma QuietFirst(run: seq<Op>, n: int)
    requires Quiet(run, n) && run != []
    ensures Quiet([run[0]], n) && Quiet(run[1..], n)
  {
    assert forall i :: 0 <= i < |run| - 1 ==> run[1..][i] == run[i + 1];
  }

  /** A run that ends without a failure has none before. */
  lemma NotFailedBefore(s: State, run: seq<Op>, pending: PendingPage)
    requires run != [] && !IsFatalError(After(s, run, pending).b.rc)
    ensures !IsFatalError(s.b.rc) && !IsFatalError(Apply(s, run[0], pending).0.b.rc)
  {
    if IsFatalError(s.b.rc) {
      FatalStays(s, run, pending);
    }
    var t := Apply(s, run[0], pending).0;
    if IsFatalError(t.b.rc) {
      FatalStays(t, run[1..], pending);
    }
  }

  /** Along a quiet run, refused steps change nothing and k successful ones copy k * n pages. */
  lemma {:induction false} QuietProgress(s: State, run: seq<Op>, n: nat, pending: PendingPage)
    requires Quiet(run, n) && IsRun(s, run, pending) && NothingToRedo(s)
    requires !IsFatalError(After(s, run, pending).b.rc) && s.b.iNext <= |s.src.pages| + 1
    ensures After(s, run, pending).src.pages == s.src.pages && NothingToRedo(After(s, run, pending))
    ensures After(s, run, pending).b.iNext == s.b.iNext + Successes(s, run, pending) * n
    ensures Successes(s, run, pending) > 0 ==> After(s, run, pending).b.iNext <= |s.src.pages|
    decreases |run|
  {
    if run != [] {
      var t := Apply(s, run[0], pending).0;
      QuietFirst(run, n);
      NotFailedBefore(s, run, pending);
      QuietOp(s, run[0], n, pending);
      QuietProgress(t, run[1..], n, pending);
      OneMore(Successes(t, run[1..], pending), n);
    }
  }

  lemma OneMore(k: nat, n: nat)
    ensures (1 + k) * n == n + k * n
  {
  }

  lemma Multiples(a: nat, b: nat, n: nat)
    requires a <= b
    ensures a * n <= b * n
  {
    assert (b - a) * n >= 0;
    assert b * n == a * n + (b - a) * n;
  }

  lemma Quotient(x: nat, n: nat, q: nat)
    requires n > 0 && q * n <= x < q * n + n
    ensures x / n == q
  {
    var d := x / n;
    assert x == d * n + x % n;
    if d < q {
      Multiples(d + 1, q, n);
      OneMore(d, n);
    } else if d > q {
      Multiples(q + 1, d, n);
      OneMore(q, n);
    }
  }

  /** How many steps of n pages a backup takes: at least one. */
  function StepsNeeded(total: nat, n: nat): nat
    requires n > 0
  {
    Max(1, (total + n - 1) / n)
  }

  /** How many times n pages make up the total, at least once. */
  lemma Ceiling(k: nat, n: nat, total: nat)
    requires n > 0 && (k == 0 || k * n < total)
    ensures total <= k * n + n <==> k + 1 == StepsNeeded(total, n)
  {
    var q := (total + n - 1) / n;
    assert total + n - 1 == q * n + (total + n - 1) % n;
    if total <= k * n + n {
      if k > 0 || total > 0 {
        OneMore(k, n);
        Quotient(total + n - 1, n, k + 1);
      } else {
        Quotient(n - 1, n, 0);
      }
    } else if k + 1 == q {
      OneMore(k, n);
    }
  }

  /**
   With no change of the source, a backup with positive step size n is done by its
   ceil(pages / n)-th successful step, and by its first one if there are no pages, however many
   steps are refused in between.
   */
  lemma QuietSteps(s: State, run: seq<Op>, n: nat, a: Answers, start: seq<Page>, pending: PendingPage)
    requires IsStart(s, start) && n > 0 && Possible(a)
    requires Quiet(run, n) && IsRun(s, run, pending) && !IsFatalError(After(s, run, pending).b.rc)
    ensures var t := After(s, run, pending);
            var rc := Step(t.b, t.src, n, pending, a).2;
            rc == SQLITE_OK || rc == SQLITE_DONE ==>
              (rc == SQLITE_DONE <==> Successes(s, run, pending) + 1 == StepsNeeded(|s.src.pages|, n))
  {
    var t := After(s, run, pending);
    QuietProgress(s, run, n, pending);
    NextStepIsDone(t.b, t.src, n, pending, a);
    Ceiling(Successes(s, run, pending), n, |s.src.pages|);
  }

  lemma NextStepIsDone(b: Backup, src: Source, n: nat, pending: PendingPage, a: Answers)
    requires !IsFatalError(b.rc) && Possible(a) && n > 0 && Resume(b, src) <= |src.pages| + 1
    ensures var rc := Step(b, src, n, pending, a).2;
            rc == SQLITE_OK || rc == SQLITE_DONE ==> (rc == SQLITE_DONE <==> |src.pages| <= Resume(b, src) - 1 + n)
  {
    StepAdvances(b, src, n, pending, a);
  }

  /** A negative step size copies everything in one successful step. */
  lemma NegativeStepIsDone(b: Backup, src: Source, n: int, pending: PendingPage, a: Answers)
    requires n < 0 && !IsFatalError(b.rc) && Possible(a)
    ensures var (c, src', rc) := Step(b, src, n, pending, a);
            && rc != SQLITE_OK
            && (rc == SQLITE_DONE ==>
                  c.iNext > |src'.pages| && c.nRemaining == (|src'.pages| + 1 - c.iNext) % TWO_32)
  {
    StepAdvances(b, src, n, pending, a);
  }

  // ----- the progress counters -----

  /** Databases have fewer than 2^31 pages. */
  const MAX_PAGES := 0x7FFF_FFFF

  /** The source never has more pages than a database can have. */
  ghost predicate Bounded(s: State, run: seq<Op>, pending: PendingPage)
    decreases |run|
  {
    |s.src.pages| <= MAX_PAGES && (run != [] ==> Bounded(Apply(s, run[0], pending).0, run[1..], pending))
  }

  lemma {:induction false} CopyPagesStopsAtEnd(b: Backup, pages: seq<Page>, left: int, rc: int,
                                               pending: PendingPage, copy: nat -> int)
    ensures CopyPages(b, pages, left, rc, pending, copy).0.iNext <= Max(b.iNext, |pages| + 1)
    decreases |pages| - b.iNext
  {
    if left != 0 && b.iNext <= |pages| && rc == SQLITE_OK {
      var code := if b.iNext == pending then SQLITE_OK else copy(b.iNext);
      CopyPagesStopsAtEnd(CopyOne(b, pages[b.iNext - 1], pending, code), pages, left - 1, code, pending, copy);
    }
  }

  lemma OpKeepsNextBounded(s: State, op: Op, pending: PendingPage)
    requires s.b.iNext <= MAX_PAGES + 1 && |s.src.pages| <= MAX_PAGES
    ensures Apply(s, op, pending).0.b.iNext <= MAX_PAGES + 1
  {
    if op.BackupStep? && !IsFatalError(s.b.rc) {
      var a := op.answers;
      var (b1, rc1) := LockDest(s.b, if s.src.lock == Writing then SQLITE_BUSY else SQLITE_OK, a);
      var (b2, src2, rc2) := LockSource(b1, s.src, rc1, a);
      CopyPagesStopsAtEnd(b2, src2.pages, op.n, rc2, pending, a.copy);
    }
  }

  /** However the source grows and shrinks, the backup never asks for a page beyond the largest number plus one. */
  lemma {:induction false} NextStaysBounded(s: State, run: seq<Op>, pending: PendingPage)
    requires s.b.iNext <= MAX_PAGES + 1 && Bounded(s, run, pending)
    ensures After(s, run, pending).b.iNext <= MAX_PAGES + 1 && |After(s, run, pending).src.pages| <= MAX_PAGES
    decreases |run|
  {
    if run != [] {
      OpKeepsNextBounded(s, run[0], pending);
      NextStaysBounded(Apply(s, run[0], pending).0, run[1..], pending);
    }
  }

  lemma CountersOfStep(b: Backup, src: Source, n: int, pending: PendingPage, a: Answers)
    requires !IsFatalError(b.rc) && Possible(a)
    requires |src.pages| <= MAX_PAGES && b.iNext <= MAX_PAGES + 1
    ensures var (c, _, rc) := Step(b, src, n, pending, a);
            rc == SQLITE_OK || rc == SQLITE_DONE ==>
              && c.nPagecount == |src.pages|
              && (c.iNext - 1) + Remaining(c) == c.nPagecount
              && (Remaining(c) >= 0 <==> Resume(b, src) - 1 <= |src.pages|)
  {
    StepAdvances(b, src, n, pending, a);
    var (c, _, rc) := Step(b, src, n, pending, a);
    if rc == SQLITE_OK || rc == SQLITE_DONE {
      Unsigned(|src.pages| + 1 - c.iNext);
      Unsigned(|src.pages|);
    }
  }

  /**
   After a successful step of any run, the pages copied and the pages remaining add up to the page count.
   The number remaining is not negative exactly when the source has not shrunk below the part that
   counts as copied where the step resumes.
   */
  lemma CountersAddUp(s: State, run: seq<Op>, start: seq<Page>, n: int, a: Answers, pending: PendingPage)
    requires IsStart(s, start) && IsRun(s, run, pending) && Bounded(s, run, pending) && Possible(a)
    ensures var t := After(s, run, pending);
            var (c, src, rc) := Step(t.b, t.src, n, pending, a);
            !IsFatalError(t.b.rc) && (rc == SQLITE_OK || rc == SQLITE_DONE) ==>
              && c.nPagecount == |src.pages|
              && (c.iNext - 1) + Remaining(c) == c.nPagecount
              && (Remaining(c) >= 0 <==> Resume(t.b, t.src) - 1 <= |src.pages|)
  {
    var t := After(s, run, pending);
    NextStaysBounded(s, run, pending);
    if !IsFatalError(t.b.rc) {
      CountersOfStep(t.b, t.src, n, pending, a);
      StepAdvances(t.b, t.src, n, pending, a);
    }
  }

  /** A number of pages survives the conversion to 32 bits without sign. */
  lemma Unsigned(r: int)
    requires -MAX_PAGES <= r <= MAX_PAGES
    ensures r % TWO_32 == if r >= 0 then r else r + TWO_32
  {
  }

  /** Three pages are copied and then two of them cut off: one page too many has been copied. */
  lemma RemainingCanBeNegative(p: Page, q: Page)
    ensures var good := Answers(0, 0, _ => 0, 0, 0, 0);
            var src := Source([p, p, p, p], Unlocked, false);
            var run := [BackupStep(3, good), BeginWrite, Truncate(2), EndTransaction];
            var s := State(Init([]), src);
            var (c, _, rc) := Step(After(s, run, 2).b, After(s, run, 2).src, 1, 2, good);
            IsRun(s, run, 2) && rc == SQLITE_DONE && Remaining(c) == -1
  {
    var good := Answers(0, 0, _ => 0, 0, 0, 0);
    var src := Source([p, p, p, p], Unlocked, false);
    var s := State(Init([]), src);
    var s1 := Apply(s, BackupStep(3, good), 2).0;
    GoodStepSucceeds(s.b, src, 3, 2);
    StepAdvances(s.b, src, 3, 2, good);
    var s2 := Apply(s1, BeginWrite, 2).0;
    var s3 := Apply(s2, Truncate(2), 2).0;
    var s4 := Apply(s3, EndTransaction, 2).0;
    RunOne(s3, EndTransaction, [], 2);
    RunOne(s2, Truncate(2), [EndTransaction], 2);
    RunOne(s1, BeginWrite, [Truncate(2), EndTransaction], 2);
    RunOne(s, BackupStep(3, good), [BeginWrite, Truncate(2), EndTransaction], 2);
    assert [BackupStep(3, good), BeginWrite, Truncate(2), EndTransaction]
        == [BackupStep(3, good)] + [BeginWrite, Truncate(2), EndTransaction];
    GoodStepSucceeds(s4.b, s4.src, 1, 2);
    StepAdvances(s4.b, s4.src, 1, 2, good);
  }

  lemma RunOne(s: State, op: Op, rest: seq<Op>, pending: PendingPage)
    requires Enabled(s, op, pending) && IsRun(Apply(s, op, pending).0, rest, pending)
    ensures IsRun(s, [op] + rest, pending)
    ensures After(s, [op] + rest, pending) == After(Apply(s, op, pending).0, rest, pending)
  {
    assert ([op] + rest)[1..] == rest;
  }

  /** With all answers SQLITE_OK, a step on a source that nobody is writing succeeds. */
  lemma GoodStepSucceeds(b: Backup, src: Source, n: int, pending: PendingPage)
    requires !IsFatalError(b.rc) && src.lock != Writing
    ensures var rc := Step(b, src, n, pending, Answers(0, 0, _ => 0, 0, 0, 0)).2; rc == SQLITE_OK || rc == SQLITE_DONE
  {
    var a := Answers(0, 0, _ => 0, 0, 0, 0);
    var (b1, rc1) := LockDest(b, SQLITE_OK, a);
    var (b2, src2, rc2) := LockSource(b1, src, rc1, a);
    CopyPagesCode(b2, src2.pages, n, SQLITE_OK, pending, a.copy);
  }

  // ----- sqlite3_backup_finish() -----

  /** What an operation reports to the backup. */
  datatype Report = Report(isStep: bool, rc: int)

  function Reports(s: State, run: seq<Op>, pending: PendingPage): seq<Report>
    decreases |run|
  {
    if run == [] then []
    else
      var (t, rc) := Apply(s, run[0], pending);
      [Report(run[0].BackupStep?, rc)] + Reports(t, run[1..], pending)
  }

  predicate IsFailure(rc: int) { IsFatalError(rc) && rc != SQLITE_DONE }

  predicate NoFailure(reports: seq<Report>) {
    forall i :: 0 <= i < |reports| ==> !IsFailure(reports[i].rc)
  }

  /** The code that the last step returned, or rc if there was no step. */
  function LastStepCode(rc: int, reports: seq<Report>): int
    decreases |reports|
  {
    if reports == [] then rc
    else LastStepCode(if reports[0].isStep then reports[0].rc else rc, reports[1..])
  }

  lemma NoFailureFirst(r: Report, rest: seq<Report>)
    ensures NoFailure([r] + rest) <==> !IsFailure(r.rc) && NoFailure(rest)
  {
    var all := [r] + rest;
    assert all[0] == r && forall i :: 0 <= i < |rest| ==> all[i + 1] == rest[i];
  }

  lemma {:induction false} RecordedCode(s: State, run: seq<Op>, pending: PendingPage)
    requires IsRun(s, run, pending)
    ensures var rc := After(s, run, pending).b.rc; var reports := Reports(s, run, pending);
            (rc == SQLITE_OK || rc == SQLITE_DONE) <==>
              !IsFailure(s.b.rc) && NoFailure(reports) && !IsTransient(LastStepCode(s.b.rc, reports))
    decreases |run|
  {
    if run != [] {
      var (t, rc) := Apply(s, run[0], pending);
      var rest := Reports(t, run[1..], pending);
      RecordedCode(t, run[1..], pending);
      assert Reports(s, run, pending)[1..] == rest;
      NoFailureFirst(Report(run[0].BackupStep?, rc), rest);
      if !run[0].BackupStep? && t.b.rc != s.b.rc {
        assert IsFailure(t.b.rc);
      }
    }
  }

  /**
   sqlite3_backup_finish() returns SQLITE_OK exactly when no step or mirrored write failed and the
   last step was not refused with SQLITE_BUSY or SQLITE_LOCKED.
   */
  lemma FinishOkIff(s: State, run: seq<Op>, start: seq<Page>, pending: PendingPage)
    requires IsStart(s, start) && IsRun(s, run, pending)
    ensures Finish(After(s, run, pending).b).0 == SQLITE_OK <==>
              NoFailure(Reports(s, run, pending)) && !IsTransient(LastStepCode(SQLITE_OK, Reports(s, run, pending)))
  {
    RecordedCode(s, run, pending);
  }

  /** A failure is never lost: whatever happens afterwards, sqlite3_backup_finish() returns its code. */
  lemma FailureIsKept(s: State, run: seq<Op>, pending: PendingPage)
    requires IsFailure(s.b.rc)
    ensures Finish(After(s, run, pending).b).0 == s.b.rc
    ensures forall n, a :: Step(After(s, run, pending).b, After(s, run, pending).src, n, pending, a).2 == s.b.rc
  {
    FatalStays(s, run, pending);
  }

  /** A step refused because the source is being written makes sqlite3_backup_finish() return SQLITE_BUSY. */
  lemma BusyReachesFinish(start: seq<Page>, src: Source, a: Answers, n: int, pending: PendingPage)
    requires src.lock == Unlocked && Plausible(a)
    ensures var s := State(Init(start), src);
            var run := [BeginWrite, BackupStep(n, a)];
            IsRun(s, run, pending) && Finish(After(s, run, pending).b) == (SQLITE_BUSY, start)
  {
    var s := State(Init(start), src);
    var t := Apply(s, BeginWrite, pending).0;
    RunOne(t, BackupStep(n, a), [], pending);
    RunOne(s, BeginWrite, [BackupStep(n, a)], pending);
    assert [BeginWrite, BackupStep(n, a)] == [BeginWrite] + [BackupStep(n, a)];
    assert [BackupStep(n, a)] == [BackupStep(n, a)] + [];
    assert CopyPages(t.b, t.src.pages, n, SQLITE_BUSY, pending, a.copy) == (t.b, SQLITE_BUSY);
  }

  /** A lock refused with the extended code SQLITE_LOCKED_SHAREDCACHE is not retried: it ends the backup. */
  lemma ExtendedLockedIsFailure(b: Backup, src: Source, n: int, pending: PendingPage, a: Answers)
    requires !IsFatalError(b.rc) && src.lock == Unlocked && (b.bDestLocked || a.destLock == SQLITE_OK)
    requires a.srcLock == SQLITE_LOCKED_SHAREDCACHE
    ensures Step(b, src, n, pending, a).2 == SQLITE_LOCKED_SHAREDCACHE && IsFailure(SQLITE_LOCKED_SHAREDCACHE)
  {
    var (b1, rc1) := LockDest(b, SQLITE_OK, a);
    assert CopyPages(b1, src.pages, n, SQLITE_LOCKED_SHAREDCACHE, pending, a.copy) == (b1, SQLITE_LOCKED_SHAREDCACHE);
  }

  // ----- why copying a page must not fail for want of a lock -----

  /** The copy loop passes over a page it could not copy, so the copied part stays current only by luck. */
  lemma CopiedIffWritten(b: Backup, pages: seq<Page>, pending: PendingPage, code: int)
    requires Copied(b, pages, pending, {}) && b.iNext <= |pages|
    ensures Copied(CopyOne(b, pages[b.iNext - 1], pending, code), pages, pending, {}) <==>
              code == SQLITE_OK || b.iNext == pending || SamePage(b.dest, pages, b.iNext - 1)
  {
    var c := CopyOne(b, pages[b.iNext - 1], pending, code);
    if code == SQLITE_OK || b.iNext == pending {
      CopyOneCopies(b, pages, pending, SQLITE_OK, {});
      assert {} - {b.iNext} == {};
      assert b.iNext == pending ==> c == CopyOne(b, pages[b.iNext - 1], pending, SQLITE_OK);
    } else if SamePage(b.dest, pages, b.iNext - 1) {
      forall i: nat | i < c.iNext - 1 && i < |pages| && i + 1 != pending
        ensures SamePage(c.dest, pages, i)
      {
        assert i < b.iNext - 1 ==> SamePage(b.dest, pages, i);
      }
    } else {
      assert !SamePage(c.dest, pages, b.iNext - 1);
    }
  }

  /** If copying page 1 were refused with SQLITE_BUSY, the retried step would be done without ever copying it. */
  lemma RefusedCopyLosesPage(p: Page, pending: PendingPage)
    requires p != ZERO_PAGE && p.content != 0
    ensures var busy := Answers(0, 0, _ => SQLITE_BUSY, 0, 0, 0);
            var good := Answers(0, 0, _ => 0, 0, 0, 0);
            var src := Source([p], Unlocked, false);
            var (b, _, rc) := Step(Init([]), src, -1, pending, busy);
            var (c, _, rc2) := Step(b, src, -1, pending, good);
            rc == SQLITE_BUSY && rc2 == SQLITE_DONE && !IsCopy(c, [p], pending, 0, 0)
  {
    var busy := Answers(0, 0, _ => SQLITE_BUSY, 0, 0, 0);
    var src := Source([p], Unlocked, false);
    var (b1, rc1) := LockDest(Init([]), SQLITE_OK, busy);
    var next := CopyOne(b1, p, pending, SQLITE_BUSY);
    assert CopyPages(next, [p], -2, SQLITE_BUSY, pending, busy.copy) == (next, SQLITE_BUSY);
    var (b, _, rc) := Step(Init([]), src, -1, pending, busy);
    assert b == next.(rc := SQLITE_BUSY);
  }
}
