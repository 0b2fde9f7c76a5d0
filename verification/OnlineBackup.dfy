/**
 The backup objects of backup.c and the source pager that keeps a list of them. Every method is proved
 to have the effect that module BackupCopy gives it, on every backup of the list.
 */
module OnlineBackup {
  import opened BackupCopy

  /** struct sqlite3_backup, with the destination file it alone may write. */
  class BackupObject {
    const pSrc: SourcePager
    const pending: PendingPage
    var iNext: Pgno
    var rc: int
    var isAttached: bool
    var bDestLocked: bool
    var iDestSchema: nat
    var nRemaining: nat
    var nPagecount: nat
    var dest: seq<Page>
    var original: seq<Page>

    function Value(): Backup
      reads this
    {
      Backup(iNext, rc, isAttached, bDestLocked, iDestSchema, nRemaining, nPagecount, dest, original)
    }

    /** sqlite3_backup_init(). */
    constructor (pSrc: SourcePager, dest: seq<Page>)
      ensures this.pSrc == pSrc && this.pending == pSrc.pending && Value() == Init(dest)
    {
      this.pSrc, this.pending := pSrc, pSrc.pending;
      iNext, rc, isAttached, bDestLocked, iDestSchema := 1, SQLITE_OK, false, false, 0;
      nRemaining, nPagecount := 0, 0;
      this.dest, original := dest, dest;
    }

    /** backupOnePage() on a destination with the same page size; `code` is the result of writing it. */
    method BackupOnePage(iSrcPg: Pgno, data: Page, code: int) returns (r: int)
      modifies this`dest
      ensures r == if iSrcPg == pending then SQLITE_OK else code
      ensures dest == if iSrcPg == pending || code != SQLITE_OK then old(dest) else Put(old(dest), iSrcPg, data)
    {
      r := SQLITE_OK;
      if iSrcPg != pending {
        r := code;
        if r == SQLITE_OK {
          dest := Put(dest, iSrcPg, data);
        }
      }
    }

    /** One round of the loop of sqlite3_backup_step(). */
    method CopyNext(data: Page, copied: int) returns (r: int)
      modifies this`iNext, this`dest
      ensures r == if old(iNext) == pending then SQLITE_OK else copied
      ensures Value() == CopyOne(old(Value()), data, pending, r)
    {
      r := BackupOnePage(iNext, data, copied);
      iNext := iNext + 1;
    }

    /** The loop of sqlite3_backup_step(). */
    method CopyLoop(nPage: int, pages: seq<Page>, rc0: int, copy: nat -> int) returns (r: int)
      modifies this`iNext, this`dest
      ensures (Value(), r) == CopyPages(old(Value()), pages, nPage, rc0, pending, copy)
    {
      var ii := 0;
      r := rc0;
      ghost var b := Value();
      ghost var goal := CopyPages(b, pages, nPage, rc0, pending, copy);
      while (nPage < 0 || ii < nPage) && iNext <= |pages| && r == SQLITE_OK
        invariant 0 <= ii && (nPage >= 0 ==> ii <= nPage)
        invariant b == Value() && goal == CopyPages(b, pages, nPage - ii, r, pending, copy)
        decreases |pages| - iNext
      {
        r := CopyNext(pages[iNext - 1], copy(iNext));
        CopyPagesOnce(b, pages, nPage - ii, pending, copy, r);
        b := Value();
        ii := ii + 1;
      }
      CopyPagesEnds(b, pages, nPage - ii, r, pending, copy);
    }

    /** Opens the write transaction on the destination unless it is open. */
    method OpenDest(rc0: int, a: Answers) returns (r: int)
      modifies this`bDestLocked, this`dest, this`iDestSchema
      ensures (Value(), r) == LockDest(old(Value()), rc0, a)
    {
      r := rc0;
      if r == SQLITE_OK && !bDestLocked {
        r := a.destLock;
        if r == SQLITE_OK {
          if dest == [] {
            dest := [ZERO_PAGE];
          }
          bDestLocked := true;
          iDestSchema := dest[0].cookie;
        }
      }
    }

    /** The end of sqlite3_backup_step(), from the counters to the commit. */
    method Conclude(nSrcPage: nat, rc0: int, a: Answers) returns (r: int, attach: bool)
      modifies this`nPagecount, this`nRemaining, this`dest, this`original
      ensures var (c, code) := Tally(old(Value()), nSrcPage, rc0);
              var (d, code2) := Complete(c, nSrcPage, code, a);
              && Value() == d.(isAttached := isAttached) && r == code2
              && (attach <==> d.isAttached && !isAttached)
    {
      r, attach := rc0, false;
      if r == SQLITE_OK {
        nPagecount := nSrcPage % TWO_32;
        nRemaining := (nSrcPage + 1 - iNext) % TWO_32;
        if iNext > nSrcPage {
          r := SQLITE_DONE;
        } else {
          attach := !isAttached;
        }
      }
      if r == SQLITE_DONE {
        r := a.meta;
        if r == SQLITE_OK {
          var first := if dest == [] then ZERO_PAGE else dest[0];
          dest := Put(dest, 1, first.(cookie := (iDestSchema + 1) % TWO_32, stamp := a.stamp));
          dest := Resize(dest, nSrcPage);
          r := a.commit;
          if r == SQLITE_OK {
            original := dest;
            r := SQLITE_DONE;
          }
        }
      }
    }

    /** This backup's share of sqlite3BackupUpdate(). */
    method UpdateOne(iPage: Pgno, aData: Page, code: int)
      requires isAttached && iPage != pending
      modifies this`dest, this`rc
      ensures Value() == Update(old(Value()), iPage, aData, code)
    {
      if !IsFatalError(rc) && iPage < iNext {
        var r := BackupOnePage(iPage, aData, code);
        if r != SQLITE_OK {
          rc := r;
        }
      }
    }

    /** Opens the transactions that a step needs; a new lock on the source may reveal a foreign change. */
    method OpenBoth(a: Answers) returns (r: int)
      requires pSrc.Valid() && (isAttached <==> this in pSrc.pBackup)
      modifies this, pSrc`stale, pSrc.pBackup
      ensures var (b1, rc1) := LockDest(old(Value()), if pSrc.lock == Writing then SQLITE_BUSY else SQLITE_OK, a);
              (Value(), pSrc.Value(), r) == LockSource(b1, old(pSrc.Value()), rc1, a)
      ensures pSrc.Valid()
      ensures forall o :: o in pSrc.pBackup && o != this ==>
                o.Value() == if old(pSrc.stale) && !pSrc.stale then Restart(old(o.Value())) else old(o.Value())
    {
      r := OpenDest(if pSrc.lock == Writing then SQLITE_BUSY else SQLITE_OK, a);
      if r == SQLITE_OK && pSrc.lock == Unlocked {
        r := a.srcLock;
        if r == SQLITE_OK {
          pSrc.Notice();
        }
      }
    }

    /** Copies, counts and, when all is copied, commits. */
    method Transfer(nPage: int, rc0: int, a: Answers) returns (r: int, attach: bool)
      modifies this`iNext, this`dest, this`nPagecount, this`nRemaining, this`original
      ensures var (b3, rc3) := CopyPages(old(Value()), pSrc.pages, nPage, rc0, pending, a.copy);
              var (b4, rc4) := Tally(b3, |pSrc.pages|, rc3);
              var (b5, rc5) := Complete(b4, |pSrc.pages|, rc4, a);
              (Value().(isAttached := isAttached || attach), r) == (b5, rc5)
      ensures attach ==> !isAttached
    {
      r := CopyLoop(nPage, pSrc.pages, rc0, a.copy);
      r, attach := Conclude(|pSrc.pages|, r, a);
    }

    /** Puts the backup at the head of the source's list. */
    method AttachBackupObject()
      requires pSrc.Valid() && pSrc.pending == pending && !isAttached && this !in pSrc.pBackup
      modifies this`isAttached, pSrc`pBackup
      ensures pSrc.Valid() && isAttached && pSrc.pBackup == [this] + old(pSrc.pBackup)
    {
      pSrc.pBackup := [this] + pSrc.pBackup;
      isAttached := true;
    }

    /** The body of sqlite3_backup_step() for a backup that has not failed. */
    method StepBody(nPage: int, a: Answers) returns (r: int)
      requires pSrc.Valid() && pSrc.pending == pending && (isAttached <==> this in pSrc.pBackup)
      modifies this, pSrc`stale, pSrc`pBackup, pSrc.pBackup
      ensures var (b1, rc1) := LockDest(old(Value()), if pSrc.lock == Writing then SQLITE_BUSY else SQLITE_OK, a);
              var (b2, src2, rc2) := LockSource(b1, old(pSrc.Value()), rc1, a);
              var (b3, rc3) := CopyPages(b2, src2.pages, nPage, rc2, pending, a.copy);
              var (b4, rc4) := Tally(b3, |src2.pages|, rc3);
              (Value(), r) == Complete(b4, |src2.pages|, rc4, a) && pSrc.Value() == src2
      ensures pSrc.Valid() && (isAttached <==> this in pSrc.pBackup)
      ensures pSrc.pBackup == if isAttached && !old(isAttached) then [this] + old(pSrc.pBackup) else old(pSrc.pBackup)
      ensures forall o :: o in old(pSrc.pBackup) && o != this ==>
                o.Value() == if old(pSrc.stale) && !pSrc.stale then Restart(old(o.Value())) else old(o.Value())
    {
      r := OpenBoth(a);
      var attach;
      r, attach := Transfer(nPage, r, a);
      if attach {
        AttachBackupObject();
      }
    }

    /** sqlite3_backup_step(). */
    method BackupStep(nPage: int, a: Answers) returns (r: int)
      requires pSrc.Valid() && pSrc.pending == pending && (isAttached <==> this in pSrc.pBackup)
      modifies this, pSrc`stale, pSrc`pBackup, pSrc.pBackup
      ensures (Value(), pSrc.Value(), r) == Step(old(Value()), old(pSrc.Value()), nPage, pending, a)
      ensures pSrc.Valid() && (isAttached <==> this in pSrc.pBackup)
      ensures pSrc.pBackup == if isAttached && !old(isAttached) then [this] + old(pSrc.pBackup) else old(pSrc.pBackup)
      // the other backups of the same source are restarted if a foreign change has been noticed
      ensures forall o :: o in old(pSrc.pBackup) && o != this ==>
                o.Value() == if old(pSrc.stale) && !pSrc.stale then Restart(old(o.Value())) else old(o.Value())
    {
      if IsFatalError(rc) {
        return rc;
      }
      r := StepBody(nPage, a);
      if r == SQLITE_IOERR_NOMEM {
        r := SQLITE_NOMEM;
      }
      rc := r;
    }

    /** sqlite3_backup_finish(): the backup leaves the source's list and an open transaction is rolled back. */
    method BackupFinish() returns (r: int)
      requires pSrc.Valid() && (isAttached <==> this in pSrc.pBackup)
      modifies this`dest, pSrc`pBackup
      ensures (r, dest) == Finish(old(Value()))
      ensures pSrc.Valid() && this !in pSrc.pBackup
      ensures forall o :: o in old(pSrc.pBackup) && o != this ==> o in pSrc.pBackup
    {
      if isAttached {
        var k := 0;
        while pSrc.pBackup[k] != this
          invariant k < |pSrc.pBackup| && this in pSrc.pBackup[k..]
          decreases |pSrc.pBackup| - k
        {
          k := k + 1;
        }
        ghost var before := pSrc.pBackup;
        pSrc.pBackup := pSrc.pBackup[..k] + pSrc.pBackup[k + 1..];
        forall o | o in before && o != this
          ensures o in pSrc.pBackup
        {
          var i :| 0 <= i < |before| && before[i] == o;
          assert pSrc.pBackup[if i < k then i else i - 1] == o;
        }
      }
      dest := original;
      r := if rc == SQLITE_DONE then SQLITE_OK else rc;
    }
  }

  /** The source database: its pager, and the backups to be told about changes. */
  class SourcePager {
    const pending: PendingPage
    var pages: seq<Page>
    var lock: Lock
    var stale: bool
    var pBackup: seq<BackupObject>

    function Value(): Source
      reads this
    {
      Source(pages, lock, stale)
    }

    ghost predicate Valid()
      reads this, pBackup
    {
      && (forall o :: o in pBackup ==> o.pSrc == this && o.isAttached && o.pending == pending)
      && (forall i, j :: 0 <= i < j < |pBackup| ==> pBackup[i] != pBackup[j])
      && (stale ==> lock == Unlocked)
    }

    constructor (pages: seq<Page>, pending: PendingPage)
      ensures Valid() && Value() == Source(pages, Unlocked, false) && pBackup == []
    {
      this.pages, this.pending, lock, stale, pBackup := pages, pending, Unlocked, false, [];
    }

    /** sqlite3BackupRestart(). */
    method BackupRestart()
      requires Valid()
      modifies pBackup
      ensures Valid()
      ensures forall o :: o in pBackup ==> o.Value() == Restart(old(o.Value()))
    {
      var k := 0;
      while k < |pBackup|
        invariant k <= |pBackup| && Valid()
        invariant forall i :: 0 <= i < |pBackup| ==>
                    pBackup[i].Value() == if i < k then Restart(old(pBackup[i].Value())) else old(pBackup[i].Value())
      {
        pBackup[k].iNext := 1;
        k := k + 1;
      }
    }

    /** The connection locks the file and restarts all backups if somebody else has changed it. */
    method Notice()
      requires Valid()
      modifies this`stale, pBackup
      ensures Valid() && !stale
      ensures forall o :: o in pBackup ==> o.Value() == if old(stale) then Restart(old(o.Value())) else old(o.Value())
    {
      if stale {
        BackupRestart();
        stale := false;
      }
    }

    /** sqlite3BackupUpdate(): page iPage has been written; codes[k] is the result of writing it to the k-th copy. */
    method BackupUpdate(iPage: Pgno, aData: Page, codes: seq<int>)
      requires Valid() && |codes| == |pBackup| && iPage != pending
      modifies pBackup
      ensures Valid()
      ensures forall i :: 0 <= i < |pBackup| ==>
                pBackup[i].Value() == Update(old(pBackup[i].Value()), iPage, aData, codes[i])
    {
      var k := 0;
      while k < |pBackup|
        invariant k <= |pBackup| && Valid()
        invariant forall i :: 0 <= i < |pBackup| ==>
                    pBackup[i].Value() ==
                    if i < k then Update(old(pBackup[i].Value()), iPage, aData, codes[i]) else old(pBackup[i].Value())
      {
        pBackup[k].UpdateOne(iPage, aData, codes[k]);
        k := k + 1;
      }
    }

    /** The pager writes a page of the file inside a write transaction. */
    method Write(iPage: Pgno, aData: Page, codes: seq<int>)
      requires Valid() && lock == Writing && |codes| == |pBackup| && iPage != pending
      modifies this`pages, pBackup
      ensures Valid() && pages == Put(old(pages), iPage, aData)
      ensures forall i :: 0 <= i < |pBackup| ==>
                pBackup[i].Value() == Update(old(pBackup[i].Value()), iPage, aData, codes[i])
    {
      pages := Put(pages, iPage, aData);
      BackupUpdate(iPage, aData, codes);
    }

    /**
     The pager puts back the pages it had before the write transaction (WAL mode), or an in-memory
     database becomes the copy that was written; either way all backups start over.
     */
    method Replace(after: seq<Page>)
      requires Valid() && lock == Writing
      modifies this`pages, pBackup
      ensures Valid() && pages == after
      ensures forall o :: o in pBackup ==> o.Value() == Restart(old(o.Value()))
    {
      pages := after;
      BackupRestart();
    }
  }
}
