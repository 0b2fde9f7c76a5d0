/**
 All runs of one online backup: steps of any size, interleaved with reads, writes, growth, shrinkage and
 rollback through the source connection and with changes by others. In WAL mode others may also change the
 file during a read transaction; the connection does not see that before the transaction ends, so such a
 change counts as one made right after the end.
 */
module BackupRuns {
  import opened BackupCopy

  datatype Op =
    | BackupStep(n: int, answers: Answers)
    | BeginRead
    | BeginWrite
    | EndTransaction
    | WritePage(pg: Pgno, data: Page, rc: int)  // rc: result of mirroring the page, if it is mirrored
    | Truncate(nPage: nat)
    | Undo(pages: seq<Page>)                    // rollback of a WAL source; commit of an in-memory one
    | ForeignChange(pages: seq<Page>)

  datatype State = State(b: Backup, src: Source)

  /** SQLITE_DONE is not an error: locking, copying, cookie update and commit never fail with it. */
  ghost predicate Possible(a: Answers) {
    && a.destLock != SQLITE_DONE && a.srcLock != SQLITE_DONE
    && (forall i :: a.copy(i) != SQLITE_DONE)
    && a.meta != SQLITE_DONE && a.commit != SQLITE_DONE
  }

  /**
   Only the two locks are ever refused. Copying, cookie update and commit work on files that are locked
   already, so they may fail but not for want of a lock.
   */
  ghost predicate Plausible(a: Answers) {
    && Possible(a)
    && (forall i :: !IsTransient(a.copy(i)))
    && !IsTransient(a.meta) && !IsTransient(a.commit)
  }

  /** What the locks allow. Only the source connection itself changes the file while it holds a write lock. */
  ghost predicate Enabled(s: State, op: Op, pending: PendingPage) {
    match op
    case BackupStep(_, a) => Possible(a)
    case BeginRead => s.src.lock == Unlocked
    case BeginWrite => s.src.lock != Writing
    case EndTransaction => s.src.lock != Unlocked
    case WritePage(pg, _, rc) =>
      // the file grows page by page, except that the pending-byte page is left out;
      // the code asserts that mirroring a page is not refused
      && s.src.lock == Writing && pg != pending && pg <= |s.src.pages| + (if pg - 1 == pending then 2 else 1)
      && !IsTransient(rc) && rc != SQLITE_DONE
    case Truncate(n) => s.src.lock == Writing && n <= |s.src.pages|
    case Undo(_) => s.src.lock == Writing
    case ForeignChange(_) => s.src.lock == Unlocked
  }

  /** The connection locks the file and notices a change made by somebody else. */
  function Notice(s: State, lock: Lock): State {
    State(if s.src.stale then Restart(s.b) else s.b, s.src.(lock := lock, stale := false))
  }

  /** The effect of one operation, and the result code of the backup operation it involves. */
  function Apply(s: State, op: Op, pending: PendingPage): (State, int)
  {
    match op
    case BackupStep(n, a) =>
      var (b, src, rc) := Step(s.b, s.src, n, pending, a);
      (State(b, src), rc)
    case BeginRead => (Notice(s, Reading), SQLITE_OK)
    case BeginWrite => (Notice(s, Writing), SQLITE_OK)
    case EndTransaction => (s.(src := s.src.(lock := Unlocked)), SQLITE_OK)
    case WritePage(pg, data, rc) =>
      var b := Update(s.b, pg, data, rc);
      (State(b, s.src.(pages := Put(s.src.pages, pg, data))), if b.rc != s.b.rc then rc else SQLITE_OK)
    case Truncate(n) =>
      (s.(src := s.src.(pages := if n <= |s.src.pages| then s.src.pages[..n] else s.src.pages)), SQLITE_OK)
    case Undo(pages) => (State(Restart(s.b), s.src.(pages := pages)), SQLITE_OK)
    case ForeignChange(pages) => (s.(src := s.src.(pages := pages, stale := true)), SQLITE_OK)
  }

  // ----- missed pages -----

  /** The copy loop passes over a page whose copying is refused. */
  function MissedByLoop(b: Backup, pages: seq<Page>, left: int, rc: int, pending: PendingPage, copy: nat -> int,
                        missed: set<nat>): set<nat>
    decreases |pages| - b.iNext
  {
    if left == 0 || b.iNext > |pages| || rc != SQLITE_OK then missed
    else
      var code := if b.iNext == pending then SQLITE_OK else copy(b.iNext);
      MissedByLoop(CopyOne(b, pages[b.iNext - 1], pending, code), pages, left - 1, code, pending, copy,
                   if code == SQLITE_OK then missed - {b.iNext} else missed + {b.iNext})
  }

  predicate IsPassed(b: Backup, pg: nat) { 1 <= pg < b.iNext }

  /** The pages the backup has passed already. */
  function Passed(b: Backup): set<nat> {
    set pg: nat | pg < b.iNext && IsPassed(b, pg)
  }

  /**
   The page numbers of which the backup may not have the last version: their copying was refused, or
   they changed while the backup was not attached to the source.
   */
  function Missed(s: State, op: Op, pending: PendingPage, missed: set<nat>): set<nat> {
    match op
    case BackupStep(n, a) =>
      if IsFatalError(s.b.rc) then missed
      else
        var (b1, rc1) := LockDest(s.b, if s.src.lock == Writing then SQLITE_BUSY else SQLITE_OK, a);
        var (b2, src2, rc2) := LockSource(b1, s.src, rc1, a);
        MissedByLoop(b2, src2.pages, n, rc2, pending, a.copy, missed)
    case WritePage(pg, _, _) =>
      if pg >= s.b.iNext then missed else if s.b.isAttached then missed - {pg} else missed + {pg}
    case Undo(_) => if s.b.isAttached then missed else missed + Passed(s.b)
    case ForeignChange(_) => if s.b.isAttached then missed else missed + Passed(s.b)
    case _ => missed
  }

  // ----- the invariant -----

  /** The pages agree, apart from the header fields on page 1 that belong to the file: schema cookie and stamp. */
  predicate SamePage(dest: seq<Page>, pages: seq<Page>, i: nat)
    requires i < |pages|
  {
    i < |dest| && dest[i].content == pages[i].content && (i > 0 ==> dest[i] == pages[i])
  }

  /** The part of the destination that counts as copied agrees with the source, apart from missed pages. */
  ghost predicate Copied(b: Backup, pages: seq<Page>, pending: PendingPage, missed: set<nat>) {
    forall i: nat {:trigger SamePage(b.dest, pages, i)} ::
      i < b.iNext - 1 && i < |pages| && i + 1 != pending && i + 1 !in missed ==> SamePage(b.dest, pages, i)
  }

  /** `start` is the destination before the backup began. */
  ghost predicate Inv(s: State, start: seq<Page>, pending: PendingPage, missed: set<nat>) {
    && (!IsFatalError(s.b.rc) && !(s.src.stale && s.b.isAttached) ==> Copied(s.b, s.src.pages, pending, missed))
    && (!s.b.bDestLocked ==> s.b.dest == s.b.original && s.b.iNext == 1)
    && (if s.b.rc == SQLITE_DONE then s.b.original == s.b.dest else s.b.original == start)
    && (s.b.bDestLocked ==> s.b.iDestSchema == CookieOf(start))
    && (s.src.stale ==> s.src.lock == Unlocked)
  }

  /** The schema cookie of a file; an empty one has none yet. */
  function CookieOf(pages: seq<Page>): nat { if pages == [] then 0 else pages[0].cookie }

  /**
   The destination is the source, apart from the pending-byte page and from the header fields on page 1 that
   belong to the file: the schema cookie is one more than `cookie`, that of the old destination, and the change
   counter and versions are those that the commit of the destination has written.
   */
  ghost predicate IsCopy(b: Backup, pages: seq<Page>, pending: PendingPage, cookie: nat, stamp: int) {
    && |b.original| == |pages|
    && (forall i: nat :: 0 < i < |pages| && i + 1 != pending ==> SamePage(b.original, pages, i))
    && (|pages| > 0 ==> b.original[0] == pages[0].(cookie := (cookie + 1) % TWO_32, stamp := stamp))
  }

  /** The missed pages have arrived after all. */
  ghost predicate Arrived(b: Backup, pages: seq<Page>, pending: PendingPage, missed: set<nat>) {
    forall i: nat {:trigger SamePage(b.original, pages, i)} ::
      i < |pages| && i + 1 != pending && i + 1 in missed ==> SamePage(b.original, pages, i)
  }

  // ----- one step -----

  lemma CopyOneCopies(b: Backup, pages: seq<Page>, pending: PendingPage, code: int, missed: set<nat>)
    requires Copied(b, pages, pending, missed) && b.iNext <= |pages| && (b.iNext == pending ==> code == SQLITE_OK)
    ensures var m := if code == SQLITE_OK then missed - {b.iNext} else missed + {b.iNext};
            Copied(CopyOne(b, pages[b.iNext - 1], pending, code), pages, pending, m)
  {
    var c := CopyOne(b, pages[b.iNext - 1], pending, code);
    var m: set<nat> := if code == SQLITE_OK then missed - {b.iNext} else missed + {b.iNext};
    forall i: nat | i < c.iNext - 1 && i < |pages| && i + 1 != pending && i + 1 !in m
      ensures SamePage(c.dest, pages, i)
    {
      assert i < b.iNext - 1 ==> SamePage(b.dest, pages, i);
    }
  }

  lemma {:induction false} CopyPagesCopies(b: Backup, pages: seq<Page>, left: int, rc: int, pending: PendingPage,
                                           copy: nat -> int, missed: set<nat>)
    requires Copied(b, pages, pending, missed)
    ensures Copied(CopyPages(b, pages, left, rc, pending, copy).0, pages, pending,
                   MissedByLoop(b, pages, left, rc, pending, copy, missed))
    decreases |pages| - b.iNext
  {
    if left != 0 && b.iNext <= |pages| && rc == SQLITE_OK {
      var code := if b.iNext == pending then SQLITE_OK else copy(b.iNext);
      CopyOneCopies(b, pages, pending, code, missed);
      CopyPagesCopies(CopyOne(b, pages[b.iNext - 1], pending, code), pages, left - 1, code, pending, copy,
                      if code == SQLITE_OK then missed - {b.iNext} else missed + {b.iNext});
    }
  }

  /** The result codes that the copy loop can end with. */
  lemma {:induction false} CopyPagesCode(b: Backup, pages: seq<Page>, left: int, rc: int,
                                         pending: PendingPage, copy: nat -> int)
    ensures var (c, code) := CopyPages(b, pages, left, rc, pending, copy);
            code == rc || exists i :: code == copy(i)
    decreases |pages| - b.iNext
  {
    if left != 0 && b.iNext <= |pages| && rc == SQLITE_OK {
      var code := if b.iNext == pending then SQLITE_OK else copy(b.iNext);
      CopyPagesCode(CopyOne(b, pages[b.iNext - 1], pending, code), pages, left - 1, code, pending, copy);
    }
  }

  /** Cookie update and truncation, whether the commit succeeds or not. */
  lemma CompleteKeepsCopied(b: Backup, pages: seq<Page>, pending: PendingPage, a: Answers, missed: set<nat>)
    requires b.iNext > |pages| && Copied(b, pages, pending, missed)
    ensures Copied(Complete(b, |pages|, SQLITE_DONE, a).0, pages, pending, missed)
  {
    var c := Complete(b, |pages|, SQLITE_DONE, a).0;
    forall i: nat | i < c.iNext - 1 && i < |pages| && i + 1 != pending && i + 1 !in missed
      ensures SamePage(c.dest, pages, i)
    {
      assert SamePage(b.dest, pages, i);
    }
  }

  /** A finished copy equals the source exactly if the missed pages have arrived. */
  lemma CompleteIsCopyIff(b: Backup, pages: seq<Page>, pending: PendingPage, a: Answers, missed: set<nat>)
    requires b.iNext > |pages| && Copied(b, pages, pending, missed)
    requires a.meta == SQLITE_OK && a.commit == SQLITE_OK
    ensures var c := Complete(b, |pages|, SQLITE_DONE, a).0;
            IsCopy(c, pages, pending, b.iDestSchema, a.stamp) <==> Arrived(c, pages, pending, missed)
  {
    var c := Complete(b, |pages|, SQLITE_DONE, a).0;
    CompleteKeepsCopied(b, pages, pending, a, missed);
    assert c.original == c.dest && |c.original| == |pages|;
    assert |pages| > 0 ==> c.original[0].cookie == (c.iDestSchema + 1) % TWO_32 && c.original[0].stamp == a.stamp;
    if Arrived(c, pages, pending, missed) {
      forall i: nat | i < |pages| && i + 1 != pending
        ensures SamePage(c.original, pages, i)
      {
        assert i + 1 !in missed ==> SamePage(c.dest, pages, i);
      }
      assert |pages| > 0 ==> SamePage(c.original, pages, 0);
    }
    if IsCopy(c, pages, pending, b.iDestSchema, a.stamp) {
      forall i: nat | i < |pages| && i + 1 != pending && i + 1 in missed
        ensures SamePage(c.original, pages, i)
      {
      }
    }
  }

  /** What the parts of a step do up to the end of locking. */
  lemma StepLocks(b: Backup, src: Source, start: seq<Page>, pending: PendingPage, a: Answers, missed: set<nat>)
    requires !IsFatalError(b.rc) && Possible(a)
    requires Inv(State(b, src), start, pending, missed)
    ensures var (b1, rc1) := LockDest(b, if src.lock == Writing then SQLITE_BUSY else SQLITE_OK, a);
            var (b2, src2, rc2) := LockSource(b1, src, rc1, a);
            && Inv(State(b2, src2), start, pending, missed)
            && b2.rc == b.rc && b2.original == b.original && src2.pages == src.pages && rc2 != SQLITE_DONE
            && (rc2 == SQLITE_OK ==> b2.bDestLocked && !src2.stale)
            && (src2.lock == src.lock) && (src2.stale ==> src.stale)
  {
    var (b1, rc1) := LockDest(b, if src.lock == Writing then SQLITE_BUSY else SQLITE_OK, a);
    assert b1.iNext == b.iNext && (b1.dest == b.dest || b.iNext == 1);
    if !(src.stale && b.isAttached) {
      assert Copied(b1, src.pages, pending, missed) by {
        assert forall i: nat :: i < b.iNext - 1 && i < |src.pages| && i + 1 != pending && i + 1 !in missed ==>
          SamePage(b.dest, src.pages, i);
      }
    }
  }

  /** What the rest of a step does to a backup that holds its locks. */
  lemma StepCopies(b: Backup, pages: seq<Page>, n: int, pending: PendingPage, a: Answers, missed: set<nat>)
    requires Copied(b, pages, pending, missed) && Possible(a)
    ensures var (c, rc3) := CopyPages(b, pages, n, SQLITE_OK, pending, a.copy);
            var (d, rc4) := Tally(c, |pages|, rc3);
            var (e, rc) := Complete(d, |pages|, rc4, a);
            var m := MissedByLoop(b, pages, n, SQLITE_OK, pending, a.copy, missed);
            && Copied(e, pages, pending, m)
            && (rc == SQLITE_DONE ==>
                  && (IsCopy(e, pages, pending, b.iDestSchema, a.stamp) <==> Arrived(e, pages, pending, m))
                  && e.original == e.dest)
            && (rc != SQLITE_DONE ==> e.original == b.original)
            && e.bDestLocked == b.bDestLocked && e.iDestSchema == b.iDestSchema
  {
    CopyPagesOnlyCopies(b, pages, n, SQLITE_OK, pending, a.copy);
    CopyPagesCopies(b, pages, n, SQLITE_OK, pending, a.copy, missed);
    CopyPagesCode(b, pages, n, SQLITE_OK, pending, a.copy);
    var (c, rc3) := CopyPages(b, pages, n, SQLITE_OK, pending, a.copy);
    var (d, rc4) := Tally(c, |pages|, rc3);
    var m := MissedByLoop(b, pages, n, SQLITE_OK, pending, a.copy, missed);
    TallyKeepsCopied(c, pages, rc3, pending, m);
    if rc4 == SQLITE_DONE {
      CompleteKeepsCopied(d, pages, pending, a, m);
      if a.meta == SQLITE_OK && a.commit == SQLITE_OK {
        CompleteIsCopyIff(d, pages, pending, a, m);
      }
    }
  }

  lemma TallyKeepsCopied(b: Backup, pages: seq<Page>, rc: int, pending: PendingPage, missed: set<nat>)
    requires Copied(b, pages, pending, missed)
    ensures Copied(Tally(b, |pages|, rc).0, pages, pending, missed)
  {
    assert Tally(b, |pages|, rc).0.dest == b.dest;
  }

  lemma StepKeepsInv(s: State, n: int, a: Answers, start: seq<Page>, pending: PendingPage, missed: set<nat>)
    requires Inv(s, start, pending, missed) && Possible(a)
    ensures Inv(Apply(s, BackupStep(n, a), pending).0, start, pending, Missed(s, BackupStep(n, a), pending, missed))
  {
    var b, src := s.b, s.src;
    if !IsFatalError(b.rc) {
      StepLocks(b, src, start, pending, a, missed);
      var (b1, rc1) := LockDest(b, if src.lock == Writing then SQLITE_BUSY else SQLITE_OK, a);
      var (b2, src2, rc2) := LockSource(b1, src, rc1, a);
      if rc2 == SQLITE_OK {
        StepCopies(b2, src2.pages, n, pending, a, missed);
      } else {
        RefusedStep(b2, src2, n, rc2, pending, a, missed);
      }
    }
  }

  /** The recorded result code has no part in it. */
  lemma CopyStaysCopy(b: Backup, rc: int, pages: seq<Page>, pending: PendingPage, cookie: nat, stamp: int,
                      missed: set<nat>)
    ensures IsCopy(b.(rc := rc), pages, pending, cookie, stamp) <==> IsCopy(b, pages, pending, cookie, stamp)
    ensures Arrived(b.(rc := rc), pages, pending, missed) <==> Arrived(b, pages, pending, missed)
  {
  }

  /** A step that returns SQLITE_DONE for the first time leaves a copy exactly if the missed pages have arrived. */
  lemma StepDoneIff(s: State, n: int, a: Answers, start: seq<Page>, pending: PendingPage, missed: set<nat>)
    requires Inv(s, start, pending, missed) && Possible(a) && !IsFatalError(s.b.rc)
    ensures var (t, rc) := Apply(s, BackupStep(n, a), pending);
            var m := Missed(s, BackupStep(n, a), pending, missed);
            rc == SQLITE_DONE ==>
              (IsCopy(t.b, t.src.pages, pending, CookieOf(start), a.stamp) <==> Arrived(t.b, t.src.pages, pending, m))
  {
    var b, src := s.b, s.src;
    StepLocks(b, src, start, pending, a, missed);
    var (b1, rc1) := LockDest(b, if src.lock == Writing then SQLITE_BUSY else SQLITE_OK, a);
    var (b2, src2, rc2) := LockSource(b1, src, rc1, a);
    if rc2 == SQLITE_OK {
      StepCopies(b2, src2.pages, n, pending, a, missed);
      var (c, rc3) := CopyPages(b2, src2.pages, n, SQLITE_OK, pending, a.copy);
      var (d, rc4) := Tally(c, |src2.pages|, rc3);
      var (e, rc) := Complete(d, |src2.pages|, rc4, a);
      CopyStaysCopy(e, rc, src2.pages, pending, CookieOf(start), a.stamp,
                    MissedByLoop(b2, src2.pages, n, SQLITE_OK, pending, a.copy, missed));
    } else {
      RefusedStep(b2, src2, n, rc2, pending, a, missed);
    }
  }

  /** A step that did not get its locks does nothing more. */
  lemma RefusedStep(b: Backup, src: Source, n: int, rc: int, pending: PendingPage, a: Answers, missed: set<nat>)
    requires rc != SQLITE_OK && rc != SQLITE_DONE
    ensures CopyPages(b, src.pages, n, rc, pending, a.copy) == (b, rc)
    ensures Tally(b, |src.pages|, rc) == (b, rc) && Complete(b, |src.pages|, rc, a) == (b, rc)
    ensures MissedByLoop(b, src.pages, n, rc, pending, a.copy, missed) == missed
  {
  }

  // ----- the other operations -----

  /** A page written to the source is not yet copied, or mirrored at once, or missed. */
  lemma UpdateKeepsCopied(b: Backup, pages: seq<Page>, pg: Pgno, data: Page, rc: int, pending: PendingPage,
                          missed: set<nat>)
    requires Copied(b, pages, pending, missed) && !IsFatalError(b.rc)
    requires pg != pending && pg <= |pages| + (if pg - 1 == pending then 2 else 1)
    requires !IsTransient(rc) && !IsFatalError(Update(b, pg, data, rc).rc)
    ensures var m := if pg >= b.iNext then missed else if b.isAttached then missed - {pg} else missed + {pg};
            Copied(Update(b, pg, data, rc), Put(pages, pg, data), pending, m)
  {
    var c := Update(b, pg, data, rc);
    var after := Put(pages, pg, data);
    var m: set<nat> := if pg >= b.iNext then missed else if b.isAttached then missed - {pg} else missed + {pg};
    forall i: nat | i < c.iNext - 1 && i < |after| && i + 1 != pending && i + 1 !in m
      ensures SamePage(c.dest, after, i)
    {
      assert i != pg - 1 ==> i < |pages| && i + 1 !in missed && SamePage(b.dest, pages, i);
    }
  }

  lemma FewerPagesKeepCopied(b: Backup, pages: seq<Page>, n: nat, pending: PendingPage, missed: set<nat>)
    requires Copied(b, pages, pending, missed) && n <= |pages|
    ensures Copied(b, pages[..n], pending, missed)
  {
    forall i: nat | i < b.iNext - 1 && i < n && i + 1 != pending && i + 1 !in missed
      ensures SamePage(b.dest, pages[..n], i)
    {
      assert SamePage(b.dest, pages, i);
    }
  }

  lemma NoticeKeepsInv(s: State, lock: Lock, start: seq<Page>, pending: PendingPage, missed: set<nat>)
    requires Inv(s, start, pending, missed)
    ensures Inv(Notice(s, lock), start, pending, missed)
  {
    var t := Notice(s, lock);
    assert t.b.dest == s.b.dest;
  }

  lemma OpKeepsInv(s: State, op: Op, start: seq<Page>, pending: PendingPage, missed: set<nat>)
    requires Inv(s, start, pending, missed) && Enabled(s, op, pending)
    ensures Inv(Apply(s, op, pending).0, start, pending, Missed(s, op, pending, missed))
  {
    match op
    case BackupStep(n, a) => StepKeepsInv(s, n, a, start, pending, missed);
    case BeginRead => NoticeKeepsInv(s, Reading, start, pending, missed);
    case BeginWrite => NoticeKeepsInv(s, Writing, start, pending, missed);
    case WritePage(pg, data, rc) =>
      if !IsFatalError(Update(s.b, pg, data, rc).rc) {
        UpdateKeepsCopied(s.b, s.src.pages, pg, data, rc, pending, missed);
      }
    case Truncate(n) =>
      if !IsFatalError(s.b.rc) {
        FewerPagesKeepCopied(s.b, s.src.pages, n, pending, missed);
      }
    case _ =>
  }

  // ----- runs -----

  ghost predicate IsRun(s: State, run: seq<Op>, pending: PendingPage)
    decreases |run|
  {
    run == [] || (Enabled(s, run[0], pending) && IsRun(Apply(s, run[0], pending).0, run[1..], pending))
  }

  /** The state after a run. */
  function After(s: State, run: seq<Op>, pending: PendingPage): State
    decreases |run|
  {
    if run == [] then s else After(Apply(s, run[0], pending).0, run[1..], pending)
  }

  function MissedAfter(s: State, run: seq<Op>, pending: PendingPage, missed: set<nat>): set<nat>
    decreases |run|
  {
    if run == [] then missed
    else MissedAfter(Apply(s, run[0], pending).0, run[1..], pending, Missed(s, run[0], pending, missed))
  }

  lemma {:induction false} RunKeepsInv(s: State, run: seq<Op>, start: seq<Page>, pending: PendingPage, missed: set<nat>)
    requires Inv(s, start, pending, missed) && IsRun(s, run, pending)
    ensures Inv(After(s, run, pending), start, pending, MissedAfter(s, run, pending, missed))
    decreases |run|
  {
    if run != [] {
      OpKeepsInv(s, run[0], start, pending, missed);
      RunKeepsInv(Apply(s, run[0], pending).0, run[1..], start, pending, Missed(s, run[0], pending, missed));
    }
  }

  /** A backup just initialised, on any source. */
  ghost predicate IsStart(s: State, start: seq<Page>) {
    s.b == Init(start) && (s.src.stale ==> s.src.lock == Unlocked)
  }

  /**
   Whenever sqlite3_backup_step() returns SQLITE_DONE for the first time, the committed destination is
   the source, page for page and in length, exactly if the pages that were missed have arrived after all.
   */
  lemma DoneIsCopyIff(s: State, run: seq<Op>, start: seq<Page>, n: int, a: Answers, pending: PendingPage)
    requires IsStart(s, start) && IsRun(s, run, pending) && Possible(a)
    ensures var t := After(s, run, pending);
            var (u, rc) := Apply(t, BackupStep(n, a), pending);
            var m := Missed(t, BackupStep(n, a), pending, MissedAfter(s, run, pending, {}));
            rc == SQLITE_DONE && t.b.rc != SQLITE_DONE ==>
              (IsCopy(u.b, u.src.pages, pending, CookieOf(start), a.stamp) <==> Arrived(u.b, u.src.pages, pending, m))
  {
    RunKeepsInv(s, run, start, pending, {});
    var t := After(s, run, pending);
    if !IsFatalError(t.b.rc) {
      StepDoneIff(t, n, a, start, pending, MissedAfter(s, run, pending, {}));
    }
  }

  /** Finishing before a step returned SQLITE_DONE leaves the destination as it was before the backup. */
  lemma EarlyFinishRestores(s: State, run: seq<Op>, start: seq<Page>, pending: PendingPage)
    requires IsStart(s, start) && IsRun(s, run, pending)
    ensures After(s, run, pending).b.rc != SQLITE_DONE ==> Finish(After(s, run, pending).b).1 == start
  {
    RunKeepsInv(s, run, start, pending, {});
  }

  // ----- runs in which only locks are refused -----

  ghost predicate Unrefused(run: seq<Op>) {
    forall i {:trigger run[i]} :: 0 <= i < |run| && run[i].BackupStep? ==> Plausible(run[i].answers)
  }

  /** Unless the backup has failed, no page is missed, and once it has copied a page it is attached. */
  predicate Gapless(b: Backup, missed: set<nat>) {
    !IsFatalError(b.rc) ==> missed == {} && (!b.isAttached ==> b.iNext == 1)
  }

  lemma {:induction false} LoopMissesNothing(b: Backup, pages: seq<Page>, left: int,
                                             pending: PendingPage, copy: nat -> int)
    requires forall i :: !IsTransient(copy(i))
    ensures IsFatalError(CopyPages(b, pages, left, SQLITE_OK, pending, copy).1)
         || (MissedByLoop(b, pages, left, SQLITE_OK, pending, copy, {}) == {}
             && CopyPages(b, pages, left, SQLITE_OK, pending, copy).1 == SQLITE_OK)
    decreases |pages| - b.iNext
  {
    if left != 0 && b.iNext <= |pages| {
      var code := if b.iNext == pending then SQLITE_OK else copy(b.iNext);
      var c := CopyOne(b, pages[b.iNext - 1], pending, code);
      if code == SQLITE_OK {
        assert {} - {b.iNext} == {};
        LoopMissesNothing(c, pages, left - 1, pending, copy);
      } else {
        assert CopyPages(c, pages, left - 1, code, pending, copy) == (c, code);
      }
    }
  }

  lemma StepKeepsGapless(s: State, n: int, a: Answers, pending: PendingPage)
    requires Gapless(s.b, {}) && Plausible(a)
    ensures var (t, rc) := Apply(s, BackupStep(n, a), pending);
            var m := Missed(s, BackupStep(n, a), pending, {});
            && Gapless(t.b, m)
            && (rc == SQLITE_DONE && s.b.rc != SQLITE_DONE ==> m == {})
  {
    if !IsFatalError(s.b.rc) {
      var (b1, rc1) := LockDest(s.b, if s.src.lock == Writing then SQLITE_BUSY else SQLITE_OK, a);
      var (b2, src2, rc2) := LockSource(b1, s.src, rc1, a);
      if rc2 == SQLITE_OK {
        LoopMissesNothing(b2, src2.pages, n, pending, a.copy);
        CopyPagesCode(b2, src2.pages, n, SQLITE_OK, pending, a.copy);
        CopyPagesOnlyCopies(b2, src2.pages, n, SQLITE_OK, pending, a.copy);
      } else {
        RefusedStep(b2, src2, n, rc2, pending, a, {});
      }
    }
  }

  lemma OpKeepsGapless(s: State, op: Op, pending: PendingPage, missed: set<nat>)
    requires Gapless(s.b, missed) && Enabled(s, op, pending)
    requires op.BackupStep? ==> Plausible(op.answers)
    ensures Gapless(Apply(s, op, pending).0.b, Missed(s, op, pending, missed))
  {
    if !IsFatalError(s.b.rc) {
      match op
      case BackupStep(n, a) => StepKeepsGapless(s, n, a, pending);
      case WritePage(pg, _, _) => assert {} - {pg} == {};
      case _ => assert !s.b.isAttached ==> {} + Passed(s.b) == {};
    }
  }

  lemma {:induction false} RunKeepsGapless(s: State, run: seq<Op>, pending: PendingPage, missed: set<nat>)
    requires Gapless(s.b, missed) && IsRun(s, run, pending) && Unrefused(run)
    ensures Gapless(After(s, run, pending).b, MissedAfter(s, run, pending, missed))
    decreases |run|
  {
    if run != [] {
      OpKeepsGapless(s, run[0], pending, missed);
      RunKeepsGapless(Apply(s, run[0], pending).0, run[1..], pending, Missed(s, run[0], pending, missed));
    }
  }

  /**
   If only locks were refused, sqlite3_backup_step() returns SQLITE_DONE for the first time only when the
   committed destination is the source, page for page and in length.
   */
  lemma DoneIsCopy(s: State, run: seq<Op>, start: seq<Page>, n: int, a: Answers, pending: PendingPage)
    requires IsStart(s, start) && IsRun(s, run, pending) && Unrefused(run) && Plausible(a)
    ensures var t := After(s, run, pending);
            var (u, rc) := Apply(t, BackupStep(n, a), pending);
            rc == SQLITE_DONE && t.b.rc != SQLITE_DONE ==> IsCopy(u.b, u.src.pages, pending, CookieOf(start), a.stamp)
  {
    var t := After(s, run, pending);
    RunKeepsGapless(s, run, pending, {});
    DoneIsCopyIff(s, run, start, n, a, pending);
    if !IsFatalError(t.b.rc) {
      StepKeepsGapless(t, n, a, pending);
    }
  }
}
