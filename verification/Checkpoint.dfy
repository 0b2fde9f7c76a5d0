/**
 sqlite3Checkpoint(): the checkpoint of one database of a connection or of all of them.
 */
module Checkpoint {

  const SQLITE_OK := 0
  const SQLITE_BUSY := 5

  datatype Db = All | One(i: nat)

  /**
   `answers` is what sqlite3BtreeCheckpoint() would return for each database; a database that is not in
   WAL mode answers SQLITE_OK. Returns also which databases were tried.
   */
  method CheckpointDatabases(answers: seq<int>, iDb: Db) returns (rc: int, tried: seq<nat>)
    // all: in order, going on after SQLITE_OK and SQLITE_BUSY only
    ensures iDb == All ==>
      && |tried| <= |answers| && (forall k :: 0 <= k < |tried| ==> tried[k] == k)
      && (forall k :: 0 <= k < |tried| - 1 ==> answers[k] == 0 || answers[k] == 5)
      && (|tried| < |answers| ==> |tried| > 0 && answers[|tried| - 1] != 0 && answers[|tried| - 1] != 5)
      && rc == (if |tried| > 0 && answers[|tried| - 1] != 0 && answers[|tried| - 1] != 5 then answers[|tried| - 1]
                else if 5 in answers then 5 else 0)
    ensures iDb.One? && iDb.i < |answers| ==> tried == [iDb.i] && rc == answers[iDb.i]
    ensures iDb.One? && iDb.i >= |answers| ==> tried == [] && rc == 0
  {
    rc, tried := SQLITE_OK, [];
    var i, bBusy := 0, false;
    while i < |answers| && rc == SQLITE_OK
      invariant i <= |answers| && (rc != SQLITE_OK ==> i > 0 && rc != SQLITE_BUSY)
      invariant iDb == All ==>
        && |tried| == i && (forall k :: 0 <= k < i ==> tried[k] == k) && (bBusy <==> SQLITE_BUSY in answers[..i])
        && (forall k :: 0 <= k < i - 1 ==> answers[k] == SQLITE_OK || answers[k] == SQLITE_BUSY)
        && (i > 0 ==> rc == if answers[i - 1] == SQLITE_BUSY then SQLITE_OK else answers[i - 1])
      invariant iDb.One? && i <= iDb.i ==> tried == [] && rc == SQLITE_OK && !bBusy
      invariant iDb.One? && i > iDb.i ==>
        && tried == [iDb.i] && (bBusy <==> answers[iDb.i] == SQLITE_BUSY)
        && rc == if answers[iDb.i] == SQLITE_BUSY then SQLITE_OK else answers[iDb.i]
    {
      if iDb == All || iDb.i == i {
        rc := answers[i];
        tried := tried + [i];
        if rc == SQLITE_BUSY {
          bBusy := true;
          rc := SQLITE_OK;
        }
      }
      assert answers[..i + 1] == answers[..i] + [answers[i]];
      i := i + 1;
    }
    assert i == |answers| ==> answers[..i] == answers;
    rc := if rc == SQLITE_OK && bBusy then SQLITE_BUSY else rc;
  }
}
