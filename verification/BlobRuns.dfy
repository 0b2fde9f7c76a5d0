/**
 Incremental BLOB handles (vdbeblob.c) on one column of one table, as values: what each operation does to
 the rows and the handles, and what holds over every sequence of operations and of statements that change
 the rows below the handles.
 */
module BlobRuns {
  import opened Options

  const SQLITE_OK := 0
  const SQLITE_ERROR := 1
  const SQLITE_ABORT := 4
  const SQLITE_READONLY := 8
  const SQLITE_CORRUPT := 11

  type Byte = b: int | 0 <= b < 256

  /**
   The value of the column in one row: a blob or text, with the number of bytes that the record has before it
   (its header and earlier columns) and after it; or a value of another type.
   */
  datatype Cell =
    | Blob(data: seq<Byte>, before: nat, after: nat)
    | Other
  {
    function Payload(): nat { if Blob? then before + |data| + after else 0 }
  }

  type Rows = map<int, Cell>

  /**
   `pStmt` says that the handle has its statement, `valid` that its cursor has not expired, and `iOffset` where
   the content begins in the record.
   */
  datatype Handle = Handle(wrFlag: bool, iRow: int, nByte: nat, iOffset: nat, pStmt: bool, valid: bool)

  datatype State = State(rows: Rows, handles: seq<Handle>)

  datatype Op =
    | Open(iRow: int, wrFlag: bool)
    | Reopen(h: nat, iRow: int)
    | Read(h: nat, n: int, iOffset: int)
    | Write(h: nat, z: seq<Byte>, n: int, iOffset: int)
    | Change(iRow: int, cell: Option<Cell>)  // a statement inserts, replaces or deletes the row
    | ChangeElsewhere(iRow: int)             // the same in another table of the file
    | Clear                                  // a statement deletes all rows at once
    | ClearElsewhere                         // the same in another table of the file

  /** What the caller is told: a result code, the bytes read, and the handle opened. */
  datatype Answer = Answer(rc: int, data: seq<Byte>, blob: Option<nat>)

  predicate IsInt(n: int) { -0x8000_0000 <= n < 0x8000_0000 }

  /** A 32-bit signed sum, wrapping around. */
  function Sum32(a: int, b: int): int {
    (a + b + 0x8000_0000) % 0x1_0000_0000 - 0x8000_0000
  }

  /** The range check of blobReadWrite(). */
  predicate OutOfRange(n: int, iOffset: int, nByte: int) {
    n < 0 || iOffset < 0 || Sum32(iOffset, n) > nByte
  }

  /** It is the documented check exactly if the sum does not overflow. */
  lemma RangeCheckIff(n: int, iOffset: int, nByte: int)
    requires IsInt(n) && IsInt(iOffset) && IsInt(nByte) && nByte >= 0
    ensures (OutOfRange(n, iOffset, nByte) <==> n < 0 || iOffset < 0 || iOffset + n > nByte)
       <==> (n >= 0 && iOffset >= 0 ==> iOffset + n < 0x8000_0000)
  {
  }

  const TWO_32 := 0x1_0000_0000

  /** The check of the b-tree on a record of nData bytes, in unsigned 32-bit arithmetic. */
  predicate Beyond(at: nat, iOffset: int, n: int, nData: nat) {
    (at + iOffset + n) % TWO_32 > nData
  }

  /**
   A record has less than 2 GiB. Of the requests that pass the range check, the check of the b-tree lets those
   within the content through, and it stops the others exactly if its own sum does not wrap around.
   */
  lemma SecondCheckIff(cell: Cell, n: int, iOffset: int)
    requires cell.Blob? && cell.Payload() < 0x8000_0000 && IsInt(n) && IsInt(iOffset)
    requires !OutOfRange(n, iOffset, |cell.data|)
    ensures Beyond(cell.before, iOffset, n, cell.Payload())
       <==> iOffset + n > |cell.data| && cell.before + iOffset + n < TWO_32
  {
  }

  predicate HasBlob(rows: Rows, iRow: int) { iRow in rows && rows[iRow].Blob? }

  /** The content with the bytes of z written at iOffset. */
  function Written(data: seq<Byte>, z: seq<Byte>, iOffset: nat): (r: seq<Byte>)
    requires iOffset + |z| <= |data|
    ensures |r| == |data|
    ensures r[iOffset..iOffset + |z|] == z
    ensures forall i :: 0 <= i < |data| ==> r[i] == if iOffset <= i < iOffset + |z| then z[i - iOffset] else data[i]
  {
    data[..iOffset] + z + data[iOffset + |z|..]
  }

  // ----- one operation -----

  /** The result code of blobReadWrite(), in the order of the checks; the last one is that of the b-tree. */
  function AccessCode(rows: Rows, p: Handle, n: int, iOffset: int, write: bool): int {
    if OutOfRange(n, iOffset, p.nByte) then SQLITE_ERROR
    else if !p.pStmt || !p.valid then SQLITE_ABORT
    else if write && !p.wrFlag then SQLITE_READONLY
    else if !HasBlob(rows, p.iRow) || Beyond(p.iOffset, iOffset, n, rows[p.iRow].Payload()) then SQLITE_CORRUPT
    else SQLITE_OK
  }

  /** Both checks have overflowed and let a request through that goes beyond the content. */
  predicate Escapes(rows: Rows, p: Handle, n: int, iOffset: int, write: bool) {
    AccessCode(rows, p, n, iOffset, write) == SQLITE_OK && iOffset + n > |rows[p.iRow].data|
  }

  /** A handle that has just been put on a row. */
  function Placed(wrFlag: bool, iRow: int, cell: Cell): Handle
    requires cell.Blob?
  {
    Handle(wrFlag, iRow, |cell.data|, cell.before, true, true)
  }

  /** A handle found to have expired loses its statement. */
  function Used(p: Handle, rc: int): Handle {
    if rc == SQLITE_ABORT then p.(pStmt := false) else p
  }

  /** A handle that points to the row of that number expires, whatever its table is. */
  function Expire(p: Handle, iRow: int): Handle {
    p.(valid := p.valid && p.iRow != iRow)
  }

  function Expired(s: seq<Handle>, iRow: int): (t: seq<Handle>)
    ensures |t| == |s| && forall h :: 0 <= h < |s| ==> t[h] == Expire(s[h], iRow)
  {
    seq(|s|, h requires 0 <= h < |s| => Expire(s[h], iRow))
  }

  function AllExpired(s: seq<Handle>): (t: seq<Handle>)
    ensures |t| == |s| && forall h :: 0 <= h < |s| ==> t[h] == s[h].(valid := false)
  {
    seq(|s|, h requires 0 <= h < |s| => s[h].(valid := false))
  }

  /**
   The callers pass handles that have been opened, numbers of type int, and buffers that hold what is to be
   written. What happens to a request that escapes both checks is not defined.
   */
  predicate Enabled(s: State, op: Op) {
    match op
    case Reopen(h, _) => h < |s.handles|
    case Read(h, n, iOffset) =>
      h < |s.handles| && IsInt(n) && IsInt(iOffset) && !Escapes(s.rows, s.handles[h], n, iOffset, false)
    case Write(h, z, n, iOffset) =>
      && h < |s.handles| && n <= |z| && IsInt(n) && IsInt(iOffset)
      && !Escapes(s.rows, s.handles[h], n, iOffset, true)
    case _ => true
  }

  function Overwritten(rows: Rows, iRow: int, z: seq<Byte>, iOffset: nat): Rows
    requires HasBlob(rows, iRow) && iOffset + |z| <= |rows[iRow].data|
  {
    rows[iRow := rows[iRow].(data := Written(rows[iRow].data, z, iOffset))]
  }

  function Step(s: State, op: Op): (State, Answer)
    requires Enabled(s, op)
  {
    match op
    case Open(iRow, wrFlag) =>
      if HasBlob(s.rows, iRow) then
        (s.(handles := s.handles + [Placed(wrFlag, iRow, s.rows[iRow])]),
         Answer(SQLITE_OK, [], Some(|s.handles|)))
      else (s, Answer(SQLITE_ERROR, [], None))
    case Reopen(h, iRow) =>
      var p := s.handles[h];
      if !p.pStmt then (s, Answer(SQLITE_ABORT, [], None))
      else if HasBlob(s.rows, iRow) then
        (s.(handles := s.handles[h := Placed(p.wrFlag, iRow, s.rows[iRow])]), Answer(SQLITE_OK, [], None))
      else (s.(handles := s.handles[h := p.(pStmt := false)]), Answer(SQLITE_ERROR, [], None))
    case Read(h, n, iOffset) =>
      var p := s.handles[h];
      var rc := AccessCode(s.rows, p, n, iOffset, false);
      (s.(handles := s.handles[h := Used(p, rc)]),
       Answer(rc, if rc == SQLITE_OK then s.rows[p.iRow].data[iOffset..iOffset + n] else [], None))
    case Write(h, z, n, iOffset) =>
      var p := s.handles[h];
      var rc := AccessCode(s.rows, p, n, iOffset, true);
      (State(if rc == SQLITE_OK then Overwritten(s.rows, p.iRow, z[..n], iOffset) else s.rows,
             s.handles[h := Used(p, rc)]),
       Answer(rc, [], None))
    case Change(iRow, cell) =>
      (State(if cell.Some? then s.rows[iRow := cell.value] else s.rows - {iRow}, Expired(s.handles, iRow)),
       Answer(SQLITE_OK, [], None))
    case ChangeElsewhere(iRow) => (s.(handles := Expired(s.handles, iRow)), Answer(SQLITE_OK, [], None))
    case Clear => (State(map[], AllExpired(s.handles)), Answer(SQLITE_OK, [], None))
    case ClearElsewhere => (s.(handles := AllExpired(s.handles)), Answer(SQLITE_OK, [], None))
  }

  // ----- runs -----

  datatype Event = Event(op: Op, answer: Answer)

  /** The states st[0], st[1], ... of a run that starts with no handle, and the events between them. */
  ghost predicate IsRun(st: seq<State>, tr: seq<Event>) {
    && |st| == |tr| + 1 && st[0].handles == []
    && forall n {:trigger tr[n]} :: 0 <= n < |tr| ==> IsStep(st[n], tr[n], st[n + 1])
  }

  ghost predicate IsStep(s: State, e: Event, t: State) {
    Enabled(s, e.op) && Step(s, e.op) == (t, e.answer)
  }

  lemma StepAt(st: seq<State>, tr: seq<Event>, n: nat)
    requires IsRun(st, tr) && n < |tr|
    ensures IsStep(st[n], tr[n], st[n + 1])
  {
    assert tr[n] == tr[n];
  }

  // ----- which row a handle points to, told from the answers alone -----

  /** The handle is opened on the row, or moved there. */
  predicate Seeks(e: Event, h: nat, r: int) {
    e.answer.rc == SQLITE_OK &&
    match e.op
    case Open(iRow, _) => e.answer.blob == Some(h) && iRow == r
    case Reopen(h', iRow) => h' == h && iRow == r
    case _ => false
  }

  /** The handle is moved away, a row of that number is changed in whatever table, or any table is cleared. */
  predicate Loses(e: Event, h: nat, r: int) {
    match e.op
    case Reopen(h', _) => h' == h
    case Change(iRow, _) => iRow == r
    case ChangeElsewhere(iRow) => iRow == r
    case Clear => true
    case ClearElsewhere => true
    case _ => false
  }

  /** After n events, nothing has taken the handle off the row since it was put there. */
  ghost predicate PointsTo(tr: seq<Event>, n: nat, h: nat, r: int)
    requires n <= |tr|
  {
    exists k {:trigger Seeks(tr[k], h, r)} ::
      0 <= k < n && Seeks(tr[k], h, r) && forall j {:trigger Loses(tr[j], h, r)} :: k < j < n ==> !Loses(tr[j], h, r)
  }

  lemma PointsToNext(tr: seq<Event>, n: nat, h: nat, r: int)
    requires n < |tr|
    ensures PointsTo(tr, n + 1, h, r) <==> Seeks(tr[n], h, r) || (PointsTo(tr, n, h, r) && !Loses(tr[n], h, r))
  {
    if PointsTo(tr, n + 1, h, r) && !Seeks(tr[n], h, r) {
      var k :| 0 <= k < n + 1 && Seeks(tr[k], h, r)
        && forall j {:trigger Loses(tr[j], h, r)} :: k < j < n + 1 ==> !Loses(tr[j], h, r);
      assert !Loses(tr[n], h, r);
    }
    if PointsTo(tr, n, h, r) && !Loses(tr[n], h, r) {
      var k :| 0 <= k < n && Seeks(tr[k], h, r)
        && forall j {:trigger Loses(tr[j], h, r)} :: k < j < n ==> !Loses(tr[j], h, r);
      assert forall j {:trigger Loses(tr[j], h, r)} :: k < j < n + 1 ==> !Loses(tr[j], h, r);
    }
  }

  /** In the state: the handle has its statement, and its cursor stands on the row. */
  predicate Usable(s: State, h: nat, r: int) {
    h < |s.handles| && s.handles[h].pStmt && s.handles[h].valid && s.handles[h].iRow == r
  }

  lemma UsableNext(s: State, e: Event, t: State, h: nat, r: int)
    requires IsStep(s, e, t)
    ensures Usable(t, h, r) <==> Seeks(e, h, r) || (Usable(s, h, r) && !Loses(e, h, r))
  {
  }

  /** Over every run, a handle can be used exactly as long as nothing has taken it off its row. */
  lemma {:induction false} UsableIff(st: seq<State>, tr: seq<Event>, n: nat, h: nat, r: int)
    requires IsRun(st, tr) && n <= |tr|
    ensures Usable(st[n], h, r) <==> PointsTo(tr, n, h, r)
  {
    if n > 0 {
      UsableIff(st, tr, n - 1, h, r);
      StepAt(st, tr, n - 1);
      UsableNext(st[n - 1], tr[n - 1], st[n], h, r);
      PointsToNext(tr, n - 1, h, r);
    }
  }

  /** A change of a row of the same number in another table, or of all rows there, expires the handle as well. */
  lemma OtherTableExpires(st: seq<State>, tr: seq<Event>, n: nat, h: nat, r: int, q: int)
    requires IsRun(st, tr) && n < |tr| && PointsTo(tr, n, h, r)
    requires tr[n].op == ChangeElsewhere(r) || tr[n].op == ClearElsewhere
    ensures st[n + 1].rows == st[n].rows && !PointsTo(tr, n + 1, h, q)
  {
    StepAt(st, tr, n);
    UsableIff(st, tr, n, h, r);
    UsableIff(st, tr, n + 1, h, q);
  }

  // ----- when an access succeeds -----

  ghost predicate KnowsSize(s: State) {
    forall h :: 0 <= h < |s.handles| ==> KnowsItsSize(s.rows, s.handles[h])
  }

  /** A handle that can be used knows the size of the content it points to. */
  predicate KnowsItsSize(rows: Rows, p: Handle) {
    p.pStmt && p.valid ==> HasBlob(rows, p.iRow) && |rows[p.iRow].data| == p.nByte && rows[p.iRow].before == p.iOffset
  }

  lemma StepKnowsSize(s: State, e: Event, t: State)
    requires KnowsSize(s) && IsStep(s, e, t)
    ensures KnowsSize(t)
  {
    forall h | 0 <= h < |t.handles|
      ensures KnowsItsSize(t.rows, t.handles[h])
    {
      assert h < |s.handles| ==> KnowsItsSize(s.rows, s.handles[h]);
    }
  }

  lemma {:induction false} RunKnowsSize(st: seq<State>, tr: seq<Event>, n: nat)
    requires IsRun(st, tr) && n <= |tr|
    ensures KnowsSize(st[n])
  {
    if n > 0 {
      RunKnowsSize(st, tr, n - 1);
      StepAt(st, tr, n - 1);
      StepKnowsSize(st[n - 1], tr[n - 1], st[n]);
    }
  }

  /** sqlite3_blob_bytes(). */
  function BytesOf(p: Handle): nat {
    if p.pStmt then p.nByte else 0
  }

  /** As long as nothing has taken the handle off its row, the size it tells is that of the content. */
  lemma BytesIsSize(st: seq<State>, tr: seq<Event>, n: nat, h: nat, r: int)
    requires IsRun(st, tr) && n <= |tr| && PointsTo(tr, n, h, r)
    ensures h < |st[n].handles| && HasBlob(st[n].rows, r) && BytesOf(st[n].handles[h]) == |st[n].rows[r].data|
  {
    UsableIff(st, tr, n, h, r);
    RunKnowsSize(st, tr, n);
    assert KnowsItsSize(st[n].rows, st[n].handles[h]);
  }

  /**
   A request escapes both checks exactly if the handle can be used for it and the sum of where the content
   begins, offset and length reaches 2^32.
   */
  lemma EscapesIff(rows: Rows, p: Handle, n: int, iOffset: int, write: bool)
    requires KnowsItsSize(rows, p) && IsInt(n) && IsInt(iOffset)
    requires p.iRow in rows ==> rows[p.iRow].Payload() < 0x8000_0000
    ensures Escapes(rows, p, n, iOffset, write)
       <==> p.pStmt && p.valid && (write ==> p.wrFlag) && n >= 0 && iOffset >= 0 && p.iOffset + iOffset + n >= TWO_32
  {
  }

  predicate OpensForWriting(e: Event, h: nat) {
    e.op.Open? && e.op.wrFlag && e.answer.blob == Some(h)
  }

  ghost predicate OpenedForWriting(tr: seq<Event>, n: nat, h: nat)
    requires n <= |tr|
  {
    exists k {:trigger OpensForWriting(tr[k], h)} :: 0 <= k < n && OpensForWriting(tr[k], h)
  }

  lemma {:induction false} WritableIff(st: seq<State>, tr: seq<Event>, n: nat, h: nat)
    requires IsRun(st, tr) && n <= |tr|
    ensures h < |st[n].handles| && st[n].handles[h].wrFlag <==> OpenedForWriting(tr, n, h)
  {
    if n > 0 {
      WritableIff(st, tr, n - 1, h);
      StepAt(st, tr, n - 1);
      var before, after, e := st[n - 1].handles, st[n].handles, tr[n - 1];
      assert h < |after| && after[h].wrFlag <==> (h < |before| && before[h].wrFlag) || OpensForWriting(e, h);
    }
  }

  /** The handle that an access uses, the number of bytes and the offset. */
  predicate Accesses(op: Op, h: nat, n: int, iOffset: int) {
    match op
    case Read(h', n', o) => h' == h && n' == n && o == iOffset
    case Write(h', _, n', o) => h' == h && n' == n && o == iOffset
    case _ => false
  }

  /** The bytes lie within the content of the row that the handle points to. */
  ghost predicate InReach(st: seq<State>, tr: seq<Event>, k: nat, h: nat, n: int, iOffset: int)
    requires k <= |tr| && k < |st|
  {
    exists r ::
      && PointsTo(tr, k, h, r) && HasBlob(st[k].rows, r)
      && n >= 0 && iOffset >= 0 && iOffset + n <= |st[k].rows[r].data|
  }

  /**
   Over every run, a read or write succeeds exactly if nothing has taken the handle off its row, the bytes lie
   within the content of that row, and, for a write, the handle was opened for writing.
   */
  lemma AccessOkIff(st: seq<State>, tr: seq<Event>, k: nat, h: nat, n: int, iOffset: int)
    requires IsRun(st, tr) && k < |tr| && Accesses(tr[k].op, h, n, iOffset)
    ensures tr[k].answer.rc == SQLITE_OK
       <==> InReach(st, tr, k, h, n, iOffset) && (tr[k].op.Write? ==> OpenedForWriting(tr, k, h))
  {
    StepAt(st, tr, k);
    RunKnowsSize(st, tr, k);
    WritableIff(st, tr, k, h);
    var p := st[k].handles[h];
    assert KnowsItsSize(st[k].rows, p);
    UsableIff(st, tr, k, h, p.iRow);
    forall r | PointsTo(tr, k, h, r)
      ensures Usable(st[k], h, r)
    {
      UsableIff(st, tr, k, h, r);
    }
  }

  /**
   It is answered SQLITE_ABORT exactly if something has taken the handle off its row and the request is not
   out of the range that the handle had when it was last moved.
   */
  lemma AccessAbortsIff(st: seq<State>, tr: seq<Event>, k: nat, h: nat, n: int, iOffset: int)
    requires IsRun(st, tr) && k < |tr| && Accesses(tr[k].op, h, n, iOffset)
    ensures h < |st[k].handles|
    ensures tr[k].answer.rc == SQLITE_ABORT
       <==> !OutOfRange(n, iOffset, st[k].handles[h].nByte) && forall r :: !PointsTo(tr, k, h, r)
  {
    StepAt(st, tr, k);
    UsableIff(st, tr, k, h, st[k].handles[h].iRow);
    forall r | PointsTo(tr, k, h, r)
      ensures Usable(st[k], h, r)
    {
      UsableIff(st, tr, k, h, r);
    }
  }

  /**
   The codes of reads and writes over every run, by the header's names: SQLITE_ERROR for a negative length or
   offset and for a request beyond the size the handle has known since it was last moved, unless the sum
   overflows; then SQLITE_ABORT if something has taken the handle off its row; then SQLITE_READONLY for a write
   through a handle that was not opened for writing; then SQLITE_OK within the content, and SQLITE_CORRUPT.
   */
  lemma AccessTable(st: seq<State>, tr: seq<Event>, k: nat, h: nat, n: int, iOffset: int)
    requires IsRun(st, tr) && k < |tr| && Accesses(tr[k].op, h, n, iOffset)
    ensures h < |st[k].handles|
    ensures var size := st[k].handles[h].nByte;
            tr[k].answer.rc ==
              if n < 0 || iOffset < 0 || (iOffset + n < 0x8000_0000 && iOffset + n > size) then 1
              else if forall r :: !PointsTo(tr, k, h, r) then 4
              else if tr[k].op.Write? && !OpenedForWriting(tr, k, h) then 8
              else if iOffset + n <= size then 0 else 11
  {
    StepAt(st, tr, k);
    AccessAbortsIff(st, tr, k, h, n, iOffset);
    AccessOkIff(st, tr, k, h, n, iOffset);
    RunKnowsSize(st, tr, k);
    WritableIff(st, tr, k, h);
    var p := st[k].handles[h];
    assert KnowsItsSize(st[k].rows, p);
    forall r | PointsTo(tr, k, h, r)
      ensures Usable(st[k], h, r)
    {
      UsableIff(st, tr, k, h, r);
    }
  }

  /** The handle that an operation goes through. */
  function Through(op: Op): Option<nat> {
    match op
    case Reopen(h, _) => Some(h)
    case Read(h, _, _) => Some(h)
    case Write(h, _, _, _) => Some(h)
    case _ => None
  }

  /** The handle has lost its statement: an access answered SQLITE_ABORT, or a move failed. */
  predicate Aborts(e: Event, h: nat) {
    Through(e.op) == Some(h) && (e.answer.rc == SQLITE_ABORT || (e.op.Reopen? && e.answer.rc != SQLITE_OK))
  }

  lemma {:induction false} StaysAborted(st: seq<State>, tr: seq<Event>, k: nat, h: nat, n: nat)
    requires IsRun(st, tr) && k < n <= |tr| && Aborts(tr[k], h)
    ensures h < |st[n].handles| && !st[n].handles[h].pStmt
  {
    StepAt(st, tr, n - 1);
    if n - 1 > k {
      StaysAborted(st, tr, k, h, n - 1);
    }
  }

  /**
   From then on nothing that goes through the handle succeeds, returns a byte or changes anything. It answers
   SQLITE_ABORT, except that a request out of the range the handle last had is SQLITE_ERROR.
   */
  lemma AbortedForEver(st: seq<State>, tr: seq<Event>, k: nat, h: nat, n: nat)
    requires IsRun(st, tr) && k < n < |tr| && Aborts(tr[k], h) && Through(tr[n].op) == Some(h)
    ensures h < |st[n].handles| && BytesOf(st[n].handles[h]) == 0
    ensures st[n + 1] == st[n] && tr[n].answer.data == [] && tr[n].answer.rc in {SQLITE_ABORT, SQLITE_ERROR}
    ensures tr[n].op.Reopen? ==> tr[n].answer.rc == SQLITE_ABORT
  {
    StaysAborted(st, tr, k, h, n);
    StepAt(st, tr, n);
  }

  lemma AbortedNext(s: State, e: Event, t: State, h: nat)
    requires IsStep(s, e, t)
    ensures h < |t.handles| && !t.handles[h].pStmt <==> (h < |s.handles| && !s.handles[h].pStmt) || Aborts(e, h)
  {
  }

  lemma {:induction false} AbortedIff(st: seq<State>, tr: seq<Event>, n: nat, h: nat)
    requires IsRun(st, tr) && n <= |tr|
    ensures h < |st[n].handles| && !st[n].handles[h].pStmt
       <==> exists k {:trigger Aborts(tr[k], h)} :: 0 <= k < n && Aborts(tr[k], h)
  {
    if n > 0 {
      AbortedIff(st, tr, n - 1, h);
      StepAt(st, tr, n - 1);
      AbortedNext(st[n - 1], tr[n - 1], st[n], h);
    }
  }

  /** A handle is opened exactly if the row has a blob or text, and moved if in addition it has not been aborted. */
  lemma OpenOkIff(st: seq<State>, tr: seq<Event>, k: nat)
    requires IsRun(st, tr) && k < |tr|
    ensures tr[k].op.Open? ==>
      tr[k].answer.rc == if tr[k].op.iRow in st[k].rows && st[k].rows[tr[k].op.iRow].Blob? then 0 else 1
    ensures tr[k].op.Reopen? ==>
      tr[k].answer.rc == if exists j {:trigger Aborts(tr[j], tr[k].op.h)} :: 0 <= j < k && Aborts(tr[j], tr[k].op.h)
                         then 4
                         else if tr[k].op.iRow in st[k].rows && st[k].rows[tr[k].op.iRow].Blob? then 0 else 1
  {
    StepAt(st, tr, k);
    if tr[k].op.Reopen? {
      AbortedIff(st, tr, k, tr[k].op.h);
    }
  }

  predicate Moves(e: Event, h: nat) {
    e.answer.rc == SQLITE_OK && ((e.op.Open? && e.answer.blob == Some(h)) || (e.op.Reopen? && e.op.h == h))
  }

  /** Event k puts the handle on a content of that size. */
  predicate MovesTo(st: seq<State>, tr: seq<Event>, k: nat, h: nat, size: nat)
    requires k < |tr| && |st| == |tr| + 1
  {
    Moves(tr[k], h) && HasBlob(st[k].rows, tr[k].op.iRow) && |st[k].rows[tr[k].op.iRow].data| == size
  }

  /** The size of the content that the handle was last put on. */
  ghost predicate LastSize(st: seq<State>, tr: seq<Event>, n: nat, h: nat, size: nat)
    requires n <= |tr| && |st| == |tr| + 1
  {
    exists k {:trigger MovesTo(st, tr, k, h, size)} ::
      0 <= k < n && MovesTo(st, tr, k, h, size) && forall j {:trigger Moves(tr[j], h)} :: k < j < n ==> !Moves(tr[j], h)
  }

  lemma LastSizeNext(st: seq<State>, tr: seq<Event>, n: nat, h: nat, size: nat)
    requires n < |tr| && |st| == |tr| + 1
    ensures MovesTo(st, tr, n, h, size) || (LastSize(st, tr, n, h, size) && !Moves(tr[n], h)) ==>
              LastSize(st, tr, n + 1, h, size)
  {
    if LastSize(st, tr, n, h, size) && !Moves(tr[n], h) {
      var k :| 0 <= k < n && MovesTo(st, tr, k, h, size)
        && forall j {:trigger Moves(tr[j], h)} :: k < j < n ==> !Moves(tr[j], h);
      assert forall j {:trigger Moves(tr[j], h)} :: k < j < n + 1 ==> !Moves(tr[j], h);
    }
  }

  lemma {:induction false} KnownSizeIsLast(st: seq<State>, tr: seq<Event>, n: nat, h: nat)
    requires IsRun(st, tr) && n <= |tr| && h < |st[n].handles|
    ensures LastSize(st, tr, n, h, st[n].handles[h].nByte)
  {
    if !Moves(tr[n - 1], h) {
      KnownSizeIsLast(st, tr, n - 1, h);
    }
    LastSizeNext(st, tr, n - 1, h, st[n].handles[h].nByte);
  }

  /** sqlite3_blob_bytes() tells the size of the content that the handle was last put on, and zero once aborted. */
  lemma BytesIff(st: seq<State>, tr: seq<Event>, n: nat, h: nat)
    requires IsRun(st, tr) && n <= |tr| && h < |st[n].handles|
    ensures if exists k {:trigger Aborts(tr[k], h)} :: 0 <= k < n && Aborts(tr[k], h)
            then BytesOf(st[n].handles[h]) == 0
            else LastSize(st, tr, n, h, BytesOf(st[n].handles[h]))
  {
    AbortedIff(st, tr, n, h);
    KnownSizeIsLast(st, tr, n, h);
  }

  // ----- what the rows contain -----

  ghost predicate SameSizes(a: Rows, b: Rows) {
    forall r: int ::
      && (r in a <==> r in b) && (HasBlob(a, r) <==> HasBlob(b, r))
      && (HasBlob(a, r) ==> |a[r].data| == |b[r].data|)
  }

  /** Whatever goes through handles, rows appear, vanish, grow and shrink only by statements. */
  lemma {:induction false} HandlesKeepSizes(st: seq<State>, tr: seq<Event>, k: nat, n: nat)
    requires IsRun(st, tr) && k <= n <= |tr|
    requires forall j {:trigger tr[j]} :: k <= j < n ==> !tr[j].op.Change? && !tr[j].op.Clear?
    ensures SameSizes(st[k].rows, st[n].rows)
  {
    if n > k {
      HandlesKeepSizes(st, tr, k, n - 1);
      StepAt(st, tr, n - 1);
    }
  }

  predicate HasByte(rows: Rows, r: int, i: nat, b: Byte) {
    HasBlob(rows, r) && i < |rows[r].data| && rows[r].data[i] == b
  }

  /** Event k writes byte i of row r through a handle. */
  ghost predicate Writes(tr: seq<Event>, k: nat, r: int, i: nat)
    requires k < |tr|
  {
    var op := tr[k].op;
    op.Write? && tr[k].answer.rc == SQLITE_OK && PointsTo(tr, k, op.h, r) && op.iOffset <= i < op.iOffset + op.n
  }

  /** Event k puts b at byte i of row r. */
  ghost predicate Puts(tr: seq<Event>, k: nat, r: int, i: nat, b: Byte)
    requires k < |tr|
  {
    var op := tr[k].op;
    || (Writes(tr, k, r, i) && i - op.iOffset < |op.z| && op.z[i - op.iOffset] == b)
    || (op.Change? && op.iRow == r && op.cell.Some? && op.cell.value.Blob?
        && i < |op.cell.value.data| && op.cell.value.data[i] == b)
  }

  /** Event k replaces or removes whatever byte i of row r was. */
  ghost predicate Touches(tr: seq<Event>, k: nat, r: int, i: nat)
    requires k < |tr|
  {
    Writes(tr, k, r, i) || (tr[k].op.Change? && tr[k].op.iRow == r) || tr[k].op.Clear?
  }

  /** After n events, b was put there, and nothing has touched it since. */
  ghost predicate LastPut(tr: seq<Event>, n: nat, r: int, i: nat, b: Byte)
    requires n <= |tr|
  {
    exists k {:trigger Puts(tr, k, r, i, b)} ::
      0 <= k < n && Puts(tr, k, r, i, b)
      && forall j {:trigger Touches(tr, j, r, i)} :: k < j < n ==> !Touches(tr, j, r, i)
  }

  ghost predicate Untouched(tr: seq<Event>, n: nat, r: int, i: nat)
    requires n <= |tr|
  {
    forall j {:trigger Touches(tr, j, r, i)} :: 0 <= j < n ==> !Touches(tr, j, r, i)
  }

  lemma LastPutNext(tr: seq<Event>, n: nat, r: int, i: nat, b: Byte)
    requires n < |tr|
    ensures LastPut(tr, n + 1, r, i, b) <==> Puts(tr, n, r, i, b) || (LastPut(tr, n, r, i, b) && !Touches(tr, n, r, i))
  {
    if LastPut(tr, n + 1, r, i, b) && !Puts(tr, n, r, i, b) {
      var k :| 0 <= k < n + 1 && Puts(tr, k, r, i, b)
        && forall j {:trigger Touches(tr, j, r, i)} :: k < j < n + 1 ==> !Touches(tr, j, r, i);
      assert !Touches(tr, n, r, i);
    }
    if LastPut(tr, n, r, i, b) && !Touches(tr, n, r, i) {
      var k :| 0 <= k < n && Puts(tr, k, r, i, b)
        && forall j {:trigger Touches(tr, j, r, i)} :: k < j < n ==> !Touches(tr, j, r, i);
      assert forall j {:trigger Touches(tr, j, r, i)} :: k < j < n + 1 ==> !Touches(tr, j, r, i);
    }
  }

  lemma UntouchedNext(tr: seq<Event>, n: nat, r: int, i: nat)
    requires n < |tr|
    ensures Untouched(tr, n + 1, r, i) <==> Untouched(tr, n, r, i) && !Touches(tr, n, r, i)
  {
  }

  lemma HasByteNext(st: seq<State>, tr: seq<Event>, n: nat, r: int, i: nat, b: Byte)
    requires IsRun(st, tr) && n < |tr|
    ensures HasByte(st[n + 1].rows, r, i, b)
       <==> Puts(tr, n, r, i, b) || (HasByte(st[n].rows, r, i, b) && !Touches(tr, n, r, i))
  {
    StepAt(st, tr, n);
    if tr[n].op.Write? {
      UsableIff(st, tr, n, tr[n].op.h, r);
    }
  }

  /**
   Over every run, a byte of a row is the one that was put there by the last write through a handle that covered
   it, or by the last statement that changed the row; it is the original one exactly if there was neither.
   */
  lemma {:induction false} ByteIsLastPut(st: seq<State>, tr: seq<Event>, n: nat, r: int, i: nat, b: Byte)
    requires IsRun(st, tr) && n <= |tr|
    ensures HasByte(st[n].rows, r, i, b)
       <==> LastPut(tr, n, r, i, b) || (Untouched(tr, n, r, i) && HasByte(st[0].rows, r, i, b))
  {
    if n > 0 {
      ByteIsLastPut(st, tr, n - 1, r, i, b);
      ByteIsLastPutNext(st, tr, n - 1, r, i, b);
    }
  }

  lemma ByteIsLastPutNext(st: seq<State>, tr: seq<Event>, n: nat, r: int, i: nat, b: Byte)
    requires IsRun(st, tr) && n < |tr|
    requires HasByte(st[n].rows, r, i, b)
        <==> LastPut(tr, n, r, i, b) || (Untouched(tr, n, r, i) && HasByte(st[0].rows, r, i, b))
    ensures HasByte(st[n + 1].rows, r, i, b)
       <==> LastPut(tr, n + 1, r, i, b) || (Untouched(tr, n + 1, r, i) && HasByte(st[0].rows, r, i, b))
  {
    var put, touch, start := Puts(tr, n, r, i, b), Touches(tr, n, r, i), HasByte(st[0].rows, r, i, b);
    var has, last, untouched := HasByte(st[n].rows, r, i, b), LastPut(tr, n, r, i, b), Untouched(tr, n, r, i);
    assert HasByte(st[n + 1].rows, r, i, b) <==> put || (has && !touch) by { HasByteNext(st, tr, n, r, i, b); }
    assert LastPut(tr, n + 1, r, i, b) <==> put || (last && !touch) by { LastPutNext(tr, n, r, i, b); }
    assert Untouched(tr, n + 1, r, i) <==> untouched && !touch by { UntouchedNext(tr, n, r, i); }
    assert put ==> touch;
  }

  /** A successful read returns just these bytes. */
  lemma ReadReturnsLastPut(st: seq<State>, tr: seq<Event>, k: nat, h: nat, n: int, iOffset: int, i: nat)
    returns (r: int)
    requires IsRun(st, tr) && k < |tr| && tr[k].op == Read(h, n, iOffset) && tr[k].answer.rc == SQLITE_OK
    ensures PointsTo(tr, k, h, r) && iOffset >= 0 && |tr[k].answer.data| == n
    ensures i < n ==> var b := tr[k].answer.data[i];
      LastPut(tr, k, r, iOffset + i, b) || (Untouched(tr, k, r, iOffset + i) && HasByte(st[0].rows, r, iOffset + i, b))
  {
    StepAt(st, tr, k);
    r := st[k].handles[h].iRow;
    UsableIff(st, tr, k, h, r);
    if i < n {
      ByteIsLastPut(st, tr, k, r, iOffset + i, tr[k].answer.data[i]);
    }
  }
}
