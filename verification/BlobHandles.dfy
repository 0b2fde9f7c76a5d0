/**
 The BLOB handles of vdbeblob.c and the cursors of the b-tree below them as objects. Every method is proved
 to make the step that module BlobRuns gives it, on the rows and on every handle.
 */
module BlobHandles {
  import opened BlobRuns
  import opened Options

  /** struct Incrblob. `pStmt` says that it has its statement, `valid` that its cursor has not expired. */
  class Incrblob {
    const wrFlag: bool
    var iRow: int
    var nByte: nat
    var iOffset: nat
    var pStmt: bool
    var valid: bool

    function Value(): Handle
      reads this
    {
      Handle(wrFlag, iRow, nByte, iOffset, pStmt, valid)
    }

    constructor (wrFlag: bool)
      ensures this.wrFlag == wrFlag && !pStmt && !valid
    {
      this.wrFlag := wrFlag;
      iRow, nByte, iOffset, pStmt, valid := 0, 0, 0, false, false;
    }
  }

  class Table {
    var rows: Rows
    var pCursor: seq<Incrblob>

    function Handles(): seq<Handle>
      reads this, pCursor
    {
      seq(|pCursor|, h requires 0 <= h < |pCursor| reads this, pCursor => pCursor[h].Value())
    }

    function Value(): State
      reads this, pCursor
    {
      State(rows, Handles())
    }

    /** All handles are different objects. */
    ghost predicate Valid()
      reads this
    {
      forall i, j :: 0 <= i < j < |pCursor| ==> pCursor[i] != pCursor[j]
    }

    /** p is the handle of that number. */
    ghost predicate Has(p: Incrblob, h: nat)
      reads this
    {
      h < |pCursor| && pCursor[h] == p
    }

    constructor (rows: Rows)
      ensures Valid() && Value() == State(rows, []) && pCursor == []
    {
      this.rows, pCursor := rows, [];
    }

    /** blobSeekToRow(): moves the handle, or takes its statement away for ever. */
    method SeekToRow(p: Incrblob, iRow: int) returns (rc: int)
      requires p.pStmt
      modifies p
      ensures rc == if HasBlob(rows, iRow) then SQLITE_OK else SQLITE_ERROR
      ensures p.Value() == if rc == SQLITE_OK then Placed(p.wrFlag, iRow, rows[iRow])
                           else old(p.Value()).(pStmt := false)
    {
      if iRow in rows && rows[iRow].Blob? {
        p.iRow, p.nByte, p.iOffset, p.valid := iRow, |rows[iRow].data|, rows[iRow].before, true;
        rc := SQLITE_OK;
      } else {
        p.pStmt := false;
        rc := SQLITE_ERROR;
      }
    }

    /** sqlite3_blob_open(). */
    method Open(iRow: int, flags: bool) returns (rc: int, p: Incrblob?)
      requires Valid()
      modifies this`pCursor
      ensures Valid()
      ensures (Value(), Answer(rc, [], if p == null then None else Some(|old(pCursor)|)))
           == Step(old(Value()), Op.Open(iRow, flags))
      ensures pCursor == if p == null then old(pCursor) else old(pCursor) + [p]
      ensures p != null ==> fresh(p)
    {
      var blob := new Incrblob(flags);
      blob.pStmt := true;
      rc := SeekToRow(blob, iRow);
      p := null;
      if rc == SQLITE_OK {
        pCursor := pCursor + [blob];
        p := blob;
        assert Handles() == old(Handles()) + [blob.Value()];
      }
    }

    /** sqlite3_blob_reopen(). */
    method Reopen(p: Incrblob, iRow: int, ghost h: nat) returns (rc: int)
      requires Valid() && Has(p, h)
      modifies p
      ensures (Value(), Answer(rc, [], None)) == Step(old(Value()), Op.Reopen(h, iRow))
    {
      if !p.pStmt {
        rc := SQLITE_ABORT;
      } else {
        rc := SeekToRow(p, iRow);
      }
      assert Handles() == old(Handles())[h := p.Value()];
    }

    /** blobReadWrite(), up to the transfer of data: an expired handle is aborted when it is used. */
    method Prepare(p: Incrblob, n: int, iOffset: int, write: bool, ghost h: nat) returns (rc: int)
      requires Valid() && Has(p, h)
      modifies p`pStmt
      ensures rc == AccessCode(rows, old(p.Value()), n, iOffset, write)
      ensures Handles() == old(Handles())[h := Used(old(p.Value()), rc)]
    {
      if n < 0 || iOffset < 0 || Sum32(iOffset, n) > p.nByte {
        rc := SQLITE_ERROR;
      } else if !p.pStmt {
        rc := SQLITE_ABORT;
      } else {
        rc := CheckCursor(p, n, iOffset, write);
        if rc == SQLITE_ABORT {
          p.pStmt := false;
        }
      }
      assert p.Value() == Used(old(p.Value()), rc);
    }

    /** The checks of sqlite3BtreeData() and sqlite3BtreePutData() before they reach the content. */
    method CheckCursor(p: Incrblob, n: int, iOffset: int, write: bool) returns (rc: int)
      ensures rc == if !p.valid then SQLITE_ABORT else if write && !p.wrFlag then SQLITE_READONLY
                    else if !HasBlob(rows, p.iRow) || Beyond(p.iOffset, iOffset, n, rows[p.iRow].Payload())
                    then SQLITE_CORRUPT else SQLITE_OK
    {
      if !p.valid {
        return SQLITE_ABORT;
      }
      if write && !p.wrFlag {
        return SQLITE_READONLY;
      }
      if !HasBlob(rows, p.iRow) || (p.iOffset + iOffset + n) % TWO_32 > rows[p.iRow].Payload() {
        return SQLITE_CORRUPT;
      }
      return SQLITE_OK;
    }

    /** sqlite3_blob_read(). */
    method Read(p: Incrblob, n: int, iOffset: int, ghost h: nat) returns (rc: int, z: seq<Byte>)
      requires Valid() && Has(p, h) && Enabled(Value(), Op.Read(h, n, iOffset))
      modifies p`pStmt
      ensures (Value(), Answer(rc, z, None)) == Step(old(Value()), Op.Read(h, n, iOffset))
    {
      rc := Prepare(p, n, iOffset, false, h);
      z := if rc == SQLITE_OK then rows[p.iRow].data[iOffset..iOffset + n] else [];
    }

    /** sqlite3_blob_write(). */
    method Write(p: Incrblob, z: seq<Byte>, n: int, iOffset: int, ghost h: nat) returns (rc: int)
      requires Valid() && Has(p, h) && Enabled(Value(), Op.Write(h, z, n, iOffset))
      modifies this`rows, p`pStmt
      ensures (Value(), Answer(rc, [], None)) == Step(old(Value()), Op.Write(h, z, n, iOffset))
    {
      rc := Prepare(p, n, iOffset, true, h);
      ghost var handles := Handles();
      if rc == SQLITE_OK {
        rows := rows[p.iRow := rows[p.iRow].(data := Written(rows[p.iRow].data, z[..n], iOffset))];
        assert Handles() == handles;
      }
    }

    /** invalidateIncrblobCursors(): all handles on the row expire, or all handles there are. */
    method InvalidateIncrblobCursors(iRow: int, isClearTable: bool)
      requires Valid()
      modifies pCursor`valid
      ensures Handles() == if isClearTable then AllExpired(old(Handles())) else Expired(old(Handles()), iRow)
    {
      var i := 0;
      while i < |pCursor|
        invariant i <= |pCursor|
        invariant forall k :: 0 <= k < |pCursor| ==>
                    pCursor[k].valid == (old(pCursor[k].valid) && (k < i ==> !isClearTable && pCursor[k].iRow != iRow))
      {
        if isClearTable || pCursor[i].iRow == iRow {
          pCursor[i].valid := false;
        }
        i := i + 1;
      }
    }

    /** A statement inserts, replaces or deletes a row. */
    method ChangeRow(iRow: int, cell: Option<Cell>)
      requires Valid()
      modifies this`rows, pCursor`valid
      ensures Value() == Step(old(Value()), Change(iRow, cell)).0
    {
      InvalidateIncrblobCursors(iRow, false);
      rows := if cell.Some? then rows[iRow := cell.value] else rows - {iRow};
    }

    /** A statement does so in another table of the same file: the table of a cursor is not looked at. */
    method ChangeElsewhere(iRow: int)
      requires Valid()
      modifies pCursor`valid
      ensures Value() == Step(old(Value()), Op.ChangeElsewhere(iRow)).0
    {
      InvalidateIncrblobCursors(iRow, false);
    }

    /** sqlite3BtreeClearTable(). */
    method ClearTable()
      requires Valid()
      modifies this`rows, pCursor`valid
      ensures Value() == Step(old(Value()), Clear).0
    {
      InvalidateIncrblobCursors(0, true);
      rows := map[];
    }

    /** The same in another table of the file: the table of a cursor is not looked at here either. */
    method ClearElsewhere()
      requires Valid()
      modifies pCursor`valid
      ensures Value() == Step(old(Value()), Op.ClearElsewhere).0
    {
      InvalidateIncrblobCursors(0, true);
    }

    /** sqlite3_blob_bytes(). */
    method Bytes(p: Incrblob) returns (n: nat)
      ensures n == BytesOf(p.Value())
    {
      n := if p.pStmt then p.nByte else 0;
    }
  }
}
