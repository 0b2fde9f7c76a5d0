/**
 The result codes of the backup interface told from the answers of the environment: which answer a step
 returns, when it does nothing, which writes are mirrored, and what sqlite3_backup_finish() returns.
 */
module BackupCodes {
  import opened BackupCopy
  import opened BackupRuns
  import opened BackupResults

  // ----- sqlite3_backup_step() -----

  /** The answers to copying the pages from number i on, at most `left` of them if that is not negative. */
  function CopyAnswers(i: nat, left: int, nPage: nat, pending: PendingPage, copy: nat -> int): seq<int>
    decreases nPage + 1 - i
  {
    if left == 0 || i > nPage then []
    else [if i == pending then 0 else copy(i)] + CopyAnswers(i + 1, left - 1, nPage, pending, copy)
  }

  /** The answers to the locks that a step asks for; a source that is being written refuses at once. */
  function LockAnswers(b: Backup, src: Source, a: Answers): seq<int> {
    [if src.lock == Writing then 5 else 0]
    + (if b.bDestLocked then [] else [a.destLock])
    + (if src.lock == Unlocked then [a.srcLock] else [])
  }

  /** All answers that a step may get, in order. */
  function AllAnswers(b: Backup, src: Source, n: int, pending: PendingPage, a: Answers): seq<int> {
    LockAnswers(b, src, a) + CopyAnswers(Resume(b, src), n, |src.pages|, pending, a.copy)
    + (if End(Resume(b, src), n, |src.pages|) > |src.pages| then [a.meta, a.commit] else [])
  }

  function FirstError(codes: seq<int>): int {
    if codes == [] then 0 else if codes[0] != 0 then codes[0] else FirstError(codes[1..])
  }

  lemma {:induction false} FirstErrorConcat(x: seq<int>, y: seq<int>)
    ensures FirstError(x + y) == if FirstError(x) != 0 then FirstError(x) else FirstError(y)
  {
    if x == [] {
      assert x + y == y;
    } else {
      assert (x + y)[1..] == x[1..] + y;
      FirstErrorConcat(x[1..], y);
    }
  }

  lemma FirstErrorCons(c: int, y: seq<int>)
    ensures FirstError([c] + y) == if c != 0 then c else FirstError(y)
  {
    assert ([c] + y)[1..] == y;
  }

  lemma {:induction false} CopyCode(b: Backup, pages: seq<Page>, left: int, pending: PendingPage, copy: nat -> int)
    ensures CopyPages(b, pages, left, SQLITE_OK, pending, copy).1
         == FirstError(CopyAnswers(b.iNext, left, |pages|, pending, copy))
    decreases |pages| - b.iNext
  {
    if left == 0 || b.iNext > |pages| {
      CopyPagesEnds(b, pages, left, SQLITE_OK, pending, copy);
    } else {
      var code := if b.iNext == pending then SQLITE_OK else copy(b.iNext);
      var next := CopyOne(b, pages[b.iNext - 1], pending, code);
      CopyPagesOnce(b, pages, left, pending, copy, code);
      FirstErrorCons(code, CopyAnswers(b.iNext + 1, left - 1, |pages|, pending, copy));
      if code == SQLITE_OK {
        CopyCode(next, pages, left - 1, pending, copy);
      } else {
        CopyPagesEnds(next, pages, left - 1, code, pending, copy);
      }
    }
  }

  lemma LockCode(b: Backup, src: Source, a: Answers)
    ensures var (b1, rc1) := LockDest(b, if src.lock == Writing then SQLITE_BUSY else SQLITE_OK, a);
            LockSource(b1, src, rc1, a).2 == FirstError(LockAnswers(b, src, a))
  {
    var busy := if src.lock == Writing then 5 else 0;
    var dest: seq<int> := if b.bDestLocked then [] else [a.destLock];
    var source: seq<int> := if src.lock == Unlocked then [a.srcLock] else [];
    FirstErrorConcat([busy] + dest, source);
    FirstErrorCons(busy, dest);
    assert FirstError(dest) == if b.bDestLocked then 0 else a.destLock by {
      if !b.bDestLocked { assert dest == [a.destLock] + []; FirstErrorCons(a.destLock, []); }
    }
    assert FirstError(source) == if src.lock == Unlocked then a.srcLock else 0 by {
      if src.lock == Unlocked { assert source == [a.srcLock] + []; FirstErrorCons(a.srcLock, []); }
    }
  }

  lemma LastCode(b: Backup, pages: seq<Page>, n: int, pending: PendingPage, a: Answers)
    requires Possible(a)
    ensures var (c, rc3) := CopyPages(b, pages, n, SQLITE_OK, pending, a.copy);
            var (d, rc4) := Tally(c, |pages|, rc3);
            var rc := Complete(d, |pages|, rc4, a).1;
            var done := End(b.iNext, n, |pages|) > |pages|;
            var e := FirstError(CopyAnswers(b.iNext, n, |pages|, pending, a.copy)
                                + if done then [a.meta, a.commit] else []);
            rc == if e != 0 then e else if done then 101 else 0
  {
    var done := End(b.iNext, n, |pages|) > |pages|;
    CopyCode(b, pages, n, pending, a.copy);
    CopyPagesAdvances(b, pages, n, pending, a.copy);
    CopyPagesCode(b, pages, n, SQLITE_OK, pending, a.copy);
    FirstErrorConcat(CopyAnswers(b.iNext, n, |pages|, pending, a.copy), if done then [a.meta, a.commit] else []);
    if done {
      assert [a.meta, a.commit] == [a.meta] + ([a.commit] + []);
      FirstErrorCons(a.meta, [a.commit] + []);
      FirstErrorCons(a.commit, []);
    }
  }

  /**
   A step of a backup that has met nothing but SQLITE_OK, SQLITE_BUSY and SQLITE_LOCKED so far returns the first
   answer that is not SQLITE_OK, and else SQLITE_DONE or SQLITE_OK; after anything else it does nothing and
   returns the same code again.
   */
  lemma StepCode(b: Backup, src: Source, n: int, pending: PendingPage, a: Answers)
    requires Possible(a)
    ensures var rc := Step(b, src, n, pending, a).2;
            var e := FirstError(AllAnswers(b, src, n, pending, a));
            if b.rc in {0, 5, 6}
            then rc == if e == 3082 then 7 else if e != 0 then e
                       else if End(Resume(b, src), n, |src.pages|) > |src.pages| then 101 else 0
            else Step(b, src, n, pending, a) == (b, src, b.rc)
  {
    if !IsFatalError(b.rc) {
      var (b1, rc1) := LockDest(b, if src.lock == Writing then SQLITE_BUSY else SQLITE_OK, a);
      var (b2, src2, rc2) := LockSource(b1, src, rc1, a);
      LockCode(b, src, a);
      var locks, copies := LockAnswers(b, src, a), CopyAnswers(Resume(b, src), n, |src.pages|, pending, a.copy);
      var done := End(Resume(b, src), n, |src.pages|) > |src.pages|;
      var last: seq<int> := if done then [a.meta, a.commit] else [];
      assert AllAnswers(b, src, n, pending, a) == locks + (copies + last);
      FirstErrorConcat(locks, copies + last);
      if rc2 == SQLITE_OK {
        assert b2.iNext == Resume(b, src);
        LastCode(b2, src.pages, n, pending, a);
      } else {
        RefusedStep(b2, src2, n, rc2, pending, a, {});
      }
    }
  }

  /** A step that is refused a lock leaves the progress, the counters and the committed destination as they were. */
  lemma RefusedLeavesProgress(b: Backup, src: Source, n: int, pending: PendingPage, a: Answers)
    requires Possible(a) && b.rc in {0, 5, 6} && FirstError(LockAnswers(b, src, a)) != 0
    ensures var (c, src', rc) := Step(b, src, n, pending, a);
            && src' == src && c.iNext == b.iNext && c.isAttached == b.isAttached && c.original == b.original
            && c.nRemaining == b.nRemaining && c.nPagecount == b.nPagecount
            && c.dest == (if !b.bDestLocked && c.bDestLocked && b.dest == [] then [ZERO_PAGE] else b.dest)
  {
    var (b1, rc1) := LockDest(b, if src.lock == Writing then SQLITE_BUSY else SQLITE_OK, a);
    var (b2, src2, rc2) := LockSource(b1, src, rc1, a);
    LockCode(b, src, a);
    RefusedStep(b2, src2, n, rc2, pending, a, {});
  }

  // ----- mirrored writes -----

  /**
   A page written through the source connection reaches a backup exactly if that is attached, has met nothing but
   SQLITE_OK, SQLITE_BUSY and SQLITE_LOCKED, and has passed the page already: then it is written to the
   destination, or the code that this fails with is recorded.
   */
  lemma MirroredIff(b: Backup, pg: Pgno, data: Page, rc: int)
    ensures var c := Update(b, pg, data, rc);
            if b.isAttached && b.rc in {0, 5, 6} && pg < b.iNext
            then if rc == 0 then c == b.(dest := c.dest) && pg <= |c.dest| && c.dest[pg - 1] == data
                 else c == b.(rc := rc)
            else c == b
    ensures var c := Update(b, pg, data, rc);
            forall i :: 0 <= i < |b.dest| && i != pg - 1 ==> i < |c.dest| && c.dest[i] == b.dest[i]
  {
  }

  // ----- the lock page -----

  /** The page with the lock bytes is as it was before the backup, or a zero page. */
  predicate LockPageKept(dest: seq<Page>, start: seq<Page>, pending: PendingPage) {
    pending <= |dest| ==>
      dest[pending - 1] == ZERO_PAGE || (pending <= |start| && dest[pending - 1] == start[pending - 1])
  }

  lemma {:induction false} CopyKeepsLockPage(b: Backup, pages: seq<Page>, left: int, start: seq<Page>,
                                             pending: PendingPage, copy: nat -> int)
    requires LockPageKept(b.dest, start, pending)
    ensures LockPageKept(CopyPages(b, pages, left, SQLITE_OK, pending, copy).0.dest, start, pending)
    decreases |pages| - b.iNext
  {
    if left != 0 && b.iNext <= |pages| {
      var code := if b.iNext == pending then SQLITE_OK else copy(b.iNext);
      var next := CopyOne(b, pages[b.iNext - 1], pending, code);
      CopyPagesOnce(b, pages, left, pending, copy, code);
      PutKeepsLockPage(b.dest, b.iNext, pages[b.iNext - 1], start, pending);
      if code == SQLITE_OK {
        CopyKeepsLockPage(next, pages, left - 1, start, pending, copy);
      } else {
        CopyPagesEnds(next, pages, left - 1, code, pending, copy);
      }
    } else {
      CopyPagesEnds(b, pages, left, SQLITE_OK, pending, copy);
    }
  }

  lemma PutKeepsLockPage(dest: seq<Page>, pg: Pgno, data: Page, start: seq<Page>, pending: PendingPage)
    requires LockPageKept(dest, start, pending)
    ensures pg != pending ==> LockPageKept(Put(dest, pg, data), start, pending)
  {
  }

  lemma CompleteKeepsLockPage(b: Backup, nPage: nat, rc: int, a: Answers, start: seq<Page>, pending: PendingPage)
    requires LockPageKept(b.dest, start, pending)
    ensures LockPageKept(Complete(b, nPage, rc, a).0.dest, start, pending)
  {
    if rc == SQLITE_DONE && a.meta == SQLITE_OK {
      var first := if b.dest == [] then ZERO_PAGE else b.dest[0];
      var page1 := first.(cookie := (b.iDestSchema + 1) % TWO_32, stamp := a.stamp);
      PutKeepsLockPage(b.dest, 1, page1, start, pending);
    }
  }

  lemma StepKeepsLockPage(b: Backup, src: Source, n: int, a: Answers, start: seq<Page>, pending: PendingPage)
    requires LockPageKept(b.dest, start, pending)
    ensures LockPageKept(Step(b, src, n, pending, a).0.dest, start, pending)
  {
    if !IsFatalError(b.rc) {
      var (b1, rc1) := LockDest(b, if src.lock == Writing then SQLITE_BUSY else SQLITE_OK, a);
      var (b2, src2, rc2) := LockSource(b1, src, rc1, a);
      if rc2 == SQLITE_OK {
        CopyKeepsLockPage(b2, src2.pages, n, start, pending, a.copy);
      } else {
        CopyPagesEnds(b2, src2.pages, n, rc2, pending, a.copy);
      }
      var (b3, rc3) := CopyPages(b2, src2.pages, n, rc2, pending, a.copy);
      var (b4, rc4) := Tally(b3, |src2.pages|, rc3);
      CompleteKeepsLockPage(b4, |src2.pages|, rc4, a, start, pending);
    }
  }

  lemma OpKeepsLockPage(s: State, op: Op, start: seq<Page>, pending: PendingPage)
    requires LockPageKept(s.b.dest, start, pending) && Enabled(s, op, pending)
    ensures LockPageKept(Apply(s, op, pending).0.b.dest, start, pending)
  {
    match op
    case BackupStep(n, a) => StepKeepsLockPage(s.b, s.src, n, a, start, pending);
    case WritePage(pg, data, _) => PutKeepsLockPage(s.b.dest, pg, data, start, pending);
    case _ =>
  }

  /** Over every run the page with the lock bytes of the source is never copied. */
  lemma {:induction false} LockPageIsNeverCopied(s: State, run: seq<Op>, start: seq<Page>, pending: PendingPage)
    requires LockPageKept(s.b.dest, start, pending) && IsRun(s, run, pending)
    ensures LockPageKept(After(s, run, pending).b.dest, start, pending)
    decreases |run|
  {
    if run != [] {
      OpKeepsLockPage(s, run[0], start, pending);
      LockPageIsNeverCopied(Apply(s, run[0], pending).0, run[1..], start, pending);
    }
  }

  // ----- sqlite3_backup_finish() -----

  /** The first code that is none of SQLITE_OK, SQLITE_BUSY, SQLITE_LOCKED and SQLITE_DONE, or 0. */
  function FirstFailure(reports: seq<Report>): int {
    if reports == [] then 0
    else if reports[0].rc !in {0, 5, 6, 101} then reports[0].rc else FirstFailure(reports[1..])
  }

  lemma {:induction false} FailureFirst(s: State, run: seq<Op>, pending: PendingPage)
    requires IsRun(s, run, pending)
    ensures var rc := After(s, run, pending).b.rc; var reports := Reports(s, run, pending);
            if s.b.rc !in {0, 5, 6} then rc == s.b.rc
            else if FirstFailure(reports) != 0 && rc != 101 then rc == FirstFailure(reports)
            else rc == 101 || rc == LastStepCode(s.b.rc, reports)
    decreases |run|
  {
    if s.b.rc !in {0, 5, 6} {
      FatalStays(s, run, pending);
    } else if run != [] {
      var (t, rc) := Apply(s, run[0], pending);
      FailureFirst(t, run[1..], pending);
      assert Reports(s, run, pending)[1..] == Reports(t, run[1..], pending);
      OpReports(s, run[0], pending);
    }
  }

  /** What an operation reports is what it records, unless it is not a step and records nothing. */
  lemma OpReports(s: State, op: Op, pending: PendingPage)
    requires s.b.rc in {0, 5, 6} && Enabled(s, op, pending)
    ensures var (t, rc) := Apply(s, op, pending);
            if op.BackupStep? || t.b.rc != s.b.rc then rc == t.b.rc else rc == 0
    ensures !op.BackupStep? && Apply(s, op, pending).0.b.rc != s.b.rc ==> Apply(s, op, pending).1 !in {0, 5, 6, 101}
  {
  }

  /**
   What sqlite3_backup_finish() returns after any run: SQLITE_OK after SQLITE_DONE, else the first failure, and
   without one the code of the last step.
   */
  lemma FinishCode(s: State, run: seq<Op>, start: seq<Page>, pending: PendingPage)
    requires IsStart(s, start) && IsRun(s, run, pending)
    ensures var reports := Reports(s, run, pending); var t := After(s, run, pending);
            Finish(t.b).0 == if t.b.rc == 101 then 0
                             else if FirstFailure(reports) != 0 then FirstFailure(reports) else LastStepCode(0, reports)
  {
    FailureFirst(s, run, pending);
  }
}
