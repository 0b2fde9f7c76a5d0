/**
 One online backup, as values: what the backup object records, what it has written to the destination
 inside the open write transaction, and what each entry point does to both. Source and destination
 have the same page size.
 */
module BackupCopy {

  const SQLITE_OK := 0
  const SQLITE_BUSY := 5
  const SQLITE_LOCKED := 6
  const SQLITE_NOMEM := 7
  const SQLITE_DONE := 101
  const SQLITE_LOCKED_SHAREDCACHE := 262  // SQLITE_LOCKED | (1<<8)
  const SQLITE_IOERR_NOMEM := 3082        // SQLITE_IOERR | (12<<8)

  const TWO_32 := 0x1_0000_0000

  /**
   A page of a database file. The cookie and the stamp are parts of the file header, so only those of page 1
   mean anything. The cookie is the schema cookie (offset 40). The stamp is what a pager writes there when it
   writes page 1: the change counter (offset 24), the counter that the version is valid for (92), the version
   of the library (96) and, for a destination in WAL mode, the file format versions (18 and 19).
   */
  datatype Page = Page(cookie: nat, stamp: int, content: int)

  const ZERO_PAGE := Page(0, 0, 0)

  /** Page numbers start at 1. */
  type Pgno = p: nat | p >= 1 witness 1

  /** The page that holds the lock bytes, the pending-byte page, is never copied. It is not page 1. */
  type PendingPage = p: nat | p >= 2 witness 2

  datatype Lock = Unlocked | Reading | Writing

  /**
   The source database as its own connection sees it. `stale` says that somebody else has changed the
   file and the connection has not noticed yet; it notices when it next locks the file.
   */
  datatype Source = Source(pages: seq<Page>, lock: Lock, stale: bool)

  datatype Backup = Backup(
    iNext: Pgno,           // next source page to copy
    rc: int,               // result code of the backup so far
    isAttached: bool,      // the source reports page writes and restarts to this backup
    bDestLocked: bool,     // a write transaction is open on the destination
    iDestSchema: nat,
    nRemaining: nat,       // a 32-bit unsigned counter
    nPagecount: nat,
    dest: seq<Page>,       // the destination as seen inside the write transaction
    original: seq<Page>)   // the destination as last committed

  /** A new backup object for a destination with these pages. */
  function Init(dest: seq<Page>): Backup {
    Backup(1, SQLITE_OK, false, false, 0, 0, 0, dest, dest)
  }

  /** All errors are fatal except SQLITE_BUSY and SQLITE_LOCKED; SQLITE_DONE counts as fatal here. */
  predicate IsFatalError(rc: int) {
    rc != SQLITE_OK && rc != SQLITE_BUSY && rc != SQLITE_LOCKED
  }

  predicate IsTransient(rc: int) {
    rc == SQLITE_BUSY || rc == SQLITE_LOCKED
  }

  // ----- writing to the destination -----

  function ZeroPages(n: nat): (r: seq<Page>)
    ensures |r| == n
  {
    seq(n, _ => ZERO_PAGE)
  }

  /** The file with page number pg (from 1) overwritten, extended with zero pages where necessary. */
  function Put(pages: seq<Page>, pg: Pgno, data: Page): (r: seq<Page>)
    ensures |r| == if pg <= |pages| then |pages| else pg
  {
    if pg <= |pages| then pages[pg - 1 := data] else pages + ZeroPages(pg - 1 - |pages|) + [data]
  }

  /** The file with exactly n pages. */
  function Resize(pages: seq<Page>, n: nat): (r: seq<Page>)
    ensures |r| == n
    ensures forall i :: 0 <= i < n && i < |pages| ==> r[i] == pages[i]
  {
    if n <= |pages| then pages[..n] else pages + ZeroPages(n - |pages|)
  }

  // ----- sqlite3_backup_step() -----

  /**
   What the environment answers during one step: the result codes of locking the two files, of copying
   each page, of updating the schema cookie, and of the commit; and the stamp that the commit writes.
   */
  datatype Answers = Answers(destLock: int, srcLock: int, copy: nat -> int, meta: int, commit: int, stamp: int)

  /** Opens the write transaction on the destination, once. */
  function LockDest(b: Backup, rc: int, a: Answers): (Backup, int) {
    if rc == SQLITE_OK && !b.bDestLocked then
      if a.destLock == SQLITE_OK then
        // the transaction gives an empty file its first page
        var dest := if b.dest == [] then [ZERO_PAGE] else b.dest;
        (b.(bDestLocked := true, dest := dest, iDestSchema := dest[0].cookie), SQLITE_OK)
      else (b, a.destLock)
    else (b, rc)
  }

  /** Starts over; what has been copied so far is no longer known to be current. */
  function Restart(b: Backup): Backup {
    if b.isAttached then b.(iNext := 1) else b
  }

  /** Opens a read transaction on the source unless one is open, noticing foreign changes. */
  function LockSource(b: Backup, src: Source, rc: int, a: Answers): (Backup, Source, int) {
    if rc == SQLITE_OK && src.lock == Unlocked then
      if a.srcLock == SQLITE_OK then (if src.stale then Restart(b) else b, src.(stale := false), SQLITE_OK)
      else (b, src, a.srcLock)
    else (b, src, rc)
  }

  /** One round of the copy loop. */
  function CopyOne(b: Backup, data: Page, pending: PendingPage, code: int): Backup {
    b.(iNext := b.iNext + 1,
       dest := if b.iNext == pending || code != SQLITE_OK then b.dest else Put(b.dest, b.iNext, data))
  }

  /** The copy loop; `left` is the number of pages still allowed, negative for all. */
  function CopyPages(b: Backup, pages: seq<Page>, left: int, rc: int, pending: PendingPage, copy: nat -> int)
    : (Backup, int)
    decreases |pages| - b.iNext
  {
    if left == 0 || b.iNext > |pages| || rc != SQLITE_OK then (b, rc)
    else
      var code := if b.iNext == pending then SQLITE_OK else copy(b.iNext);
      CopyPages(CopyOne(b, pages[b.iNext - 1], pending, code), pages, left - 1, code, pending, copy)
  }

  lemma CopyPagesOnce(b: Backup, pages: seq<Page>, left: int, pending: PendingPage, copy: nat -> int, code: int)
    requires left != 0 && b.iNext <= |pages| && code == if b.iNext == pending then SQLITE_OK else copy(b.iNext)
    ensures CopyPages(b, pages, left, SQLITE_OK, pending, copy)
         == CopyPages(CopyOne(b, pages[b.iNext - 1], pending, code), pages, left - 1, code, pending, copy)
  {
  }

  lemma CopyPagesEnds(b: Backup, pages: seq<Page>, left: int, rc: int, pending: PendingPage, copy: nat -> int)
    requires left == 0 || b.iNext > |pages| || rc != SQLITE_OK
    ensures CopyPages(b, pages, left, rc, pending, copy) == (b, rc)
  {
  }

  /** The loop moves on and writes the destination, and changes nothing else. */
  lemma {:induction false} CopyPagesOnlyCopies(b: Backup, pages: seq<Page>, left: int, rc: int,
                                               pending: PendingPage, copy: nat -> int)
    ensures var c := CopyPages(b, pages, left, rc, pending, copy).0;
            c.iNext >= b.iNext && c == b.(iNext := c.iNext, dest := c.dest)
    decreases |pages| - b.iNext
  {
    if left != 0 && b.iNext <= |pages| && rc == SQLITE_OK {
      var code := if b.iNext == pending then SQLITE_OK else copy(b.iNext);
      CopyPagesOnlyCopies(CopyOne(b, pages[b.iNext - 1], pending, code), pages, left - 1, code, pending, copy);
    }
  }

  /** Sets the counters; the copy is complete, or the backup must hear about changes from now on. */
  function Tally(b: Backup, nSrcPage: nat, rc: int): (Backup, int) {
    if rc == SQLITE_OK then
      var c := b.(nPagecount := nSrcPage % TWO_32, nRemaining := (nSrcPage + 1 - b.iNext) % TWO_32);
      if b.iNext > nSrcPage then (c, SQLITE_DONE) else (c.(isAttached := true), SQLITE_OK)
    else (b, rc)
  }

  /** Makes the schema cookie of the destination change, trims the file and commits, which stamps page 1. */
  function Complete(b: Backup, nSrcPage: nat, rc: int, a: Answers): (Backup, int) {
    if rc != SQLITE_DONE then (b, rc)
    else if a.meta != SQLITE_OK then (b, a.meta)
    else
      var first := if b.dest == [] then ZERO_PAGE else b.dest[0];
      var dest := Resize(Put(b.dest, 1, first.(cookie := (b.iDestSchema + 1) % TWO_32, stamp := a.stamp)), nSrcPage);
      var c := b.(dest := dest);
      if a.commit != SQLITE_OK then (c, a.commit) else (c.(original := dest), SQLITE_DONE)
  }

  /** sqlite3_backup_step(b, n): copies up to n pages, all remaining pages if n is negative. */
  function Step(b: Backup, src: Source, n: int, pending: PendingPage, a: Answers): (r: (Backup, Source, int))
  {
    if IsFatalError(b.rc) then (b, src, b.rc)
    else
      var (b1, rc1) := LockDest(b, if src.lock == Writing then SQLITE_BUSY else SQLITE_OK, a);
      var (b2, src2, rc2) := LockSource(b1, src, rc1, a);
      var (b3, rc3) := CopyPages(b2, src2.pages, n, rc2, pending, a.copy);
      var (b4, rc4) := Tally(b3, |src2.pages|, rc3);
      var (b5, rc5) := Complete(b4, |src2.pages|, rc4, a);
      var rc := if rc5 == SQLITE_IOERR_NOMEM then SQLITE_NOMEM else rc5;
      (b5.(rc := rc), src2, rc)
  }

  /** sqlite3_backup_remaining(): the counter converted to a signed int. */
  function Remaining(b: Backup): int {
    if b.nRemaining < TWO_32 / 2 then b.nRemaining else b.nRemaining - TWO_32
  }

  // ----- notifications from the source -----

  /** Page pg of the source has been written; `rc` is the result code of writing it to the destination. */
  function Update(b: Backup, pg: Pgno, data: Page, rc: int): Backup
  {
    if b.isAttached && !IsFatalError(b.rc) && pg < b.iNext then
      if rc == SQLITE_OK then b.(dest := Put(b.dest, pg, data)) else b.(rc := rc)
    else b
  }

  // ----- sqlite3_backup_finish() -----

  /** The value that sqlite3_backup_finish() returns, and the destination it leaves behind. */
  function Finish(b: Backup): (int, seq<Page>) {
    (if b.rc == SQLITE_DONE then SQLITE_OK else b.rc, b.original)
  }
}
