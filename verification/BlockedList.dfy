/**
 The state that notify.c keeps for sqlite3_unlock_notify(), as values: what every open connection
 records about the connections it waits for, and the list of blocked connections.

 A connection has two separate pointers. `blocking` is the connection that caused its latest
 SQLITE_LOCKED error; `unlock` is the connection whose transaction end it has asked to be told about.
 */
module BlockedList {
  import opened Lists

  /** A callback function pointer; NO_CALLBACK is the NULL pointer. */
  type Callback = nat

  /** The context pointer handed to a callback. */
  type Arg = int

  const NO_CALLBACK: Callback := 0
  const SQLITE_OK := 0
  const SQLITE_LOCKED := 6

  /** The fields of struct sqlite3 that notify.c uses. */
  class Connection {
    var pBlockingConnection: Connection?
    var pUnlockConnection: Connection?
    var pUnlockArg: Arg
    var xUnlockNotify: Callback
    var pNextBlocked: Connection?

    constructor ()
      ensures pBlockingConnection == null && pUnlockConnection == null
      ensures pUnlockArg == 0 && xUnlockNotify == NO_CALLBACK && pNextBlocked == null
    {
      pBlockingConnection, pUnlockConnection, pNextBlocked := null, null, null;
      pUnlockArg, xUnlockNotify := 0, NO_CALLBACK;
    }
  }

  datatype Entry = Entry(blocking: Connection?, unlock: Connection?, notify: Callback, arg: Arg) {
    predicate Active() { blocking != null || unlock != null }
    predicate Registered() { unlock != null }
  }

  type Entries = map<Connection, Entry>

  const IDLE := Entry(null, null, NO_CALLBACK, 0)

  /** The entry of c; a connection that is not open has nothing recorded. */
  function At(entry: Entries, c: Connection): Entry {
    if c in entry then entry[c] else IDLE
  }

  datatype State = State(entry: Entries, list: seq<Connection>)

  // ----- the list operations -----

  /** The position of the first entry with the callback `notify`, or the end of the list. */
  function GroupStart(list: seq<Connection>, entry: Entries, notify: Callback): (p: nat)
    ensures p <= |list|
    ensures forall i :: 0 <= i < p ==> At(entry, list[i]).notify != notify
    ensures p < |list| ==> At(entry, list[p]).notify == notify
  {
    if list == [] || At(entry, list[0]).notify == notify then 0 else 1 + GroupStart(list[1..], entry, notify)
  }

  /** The list with db put in front of the first entry that has the same callback. */
  function Inserted(list: seq<Connection>, entry: Entries, db: Connection): seq<Connection>
  {
    var p := GroupStart(list, entry, At(entry, db).notify);
    list[..p] + [db] + list[p..]
  }

  // ----- the waits-for relation -----

  /** The connection that p waits for, or null. */
  function Hop(entry: Entries, p: Connection?): Connection? {
    if p == null || p !in entry then null else entry[p].unlock
  }

  /** The connection reached from p by k hops. */
  function Chain(entry: Entries, p: Connection?, k: nat): Connection? {
    if k == 0 then p else Hop(entry, Chain(entry, p, k - 1))
  }

  /** No connection waits, through any number of others, for itself. */
  ghost predicate Acyclic(entry: Entries) {
    forall c, k: nat {:trigger Chain(entry, c, k)} :: c in entry && k >= 1 ==> Chain(entry, c, k) != c
  }

  /** Registering db on its recorded blocker would close a cycle. */
  ghost predicate WouldDeadlock(entry: Entries, db: Connection)
    requires db in entry
  {
    entry[db].blocking != null && exists k: nat :: Chain(entry, entry[db].blocking, k) == db
  }

  // ----- the effect of each entry point -----

  /** Connection db received SQLITE_LOCKED because of blocker. */
  function Blocked(s: State, db: Connection, blocker: Connection): State
    requires db in s.entry
  {
    var list := if s.entry[db].Active() then s.list else Inserted(s.list, s.entry, db);
    State(s.entry[db := s.entry[db].(blocking := blocker)], list)
  }

  /** Connection db is registered for the end of its recorded blocker's transaction. */
  function Registration(s: State, db: Connection, notify: Callback, arg: Arg): State
    requires db in s.entry
  {
    var b := s.entry[db].blocking;
    var entry := s.entry[db := Entry(b, b, notify, arg)];
    State(entry, Inserted(Without(s.list, db), entry, db))
  }

  /** Everything recorded for db is forgotten. */
  function Cancelled(s: State, db: Connection): State
    requires db in s.entry
  {
    State(s.entry[db := IDLE], Without(s.list, db))
  }

  /** What the end of db's transaction leaves of one entry. */
  function Released(e: Entry, db: Connection): Entry {
    var blocking := if e.blocking == db then null else e.blocking;
    if e.unlock == db then Entry(blocking, null, NO_CALLBACK, 0) else e.(blocking := blocking)
  }

  /** The entries of the list that stay on it when db's transaction ends. */
  function Kept(list: seq<Connection>, entry: Entries, db: Connection): seq<Connection>
  {
    if list == [] then []
    else
      var last := list[|list| - 1];
      var rest := Kept(list[..|list| - 1], entry, db);
      if Released(At(entry, last), db).Active() then rest + [last] else rest
  }

  /** The callbacks owed when db's transaction ends, in list order. */
  function Due(list: seq<Connection>, entry: Entries, db: Connection): seq<(Callback, Arg)>
  {
    if list == [] then []
    else
      var last := list[|list| - 1];
      var rest := Due(list[..|list| - 1], entry, db);
      if At(entry, last).unlock == db then rest + [(At(entry, last).notify, At(entry, last).arg)] else rest
  }

  /** The transaction of db has ended. */
  function Unlocked(s: State, db: Connection): State
  {
    State(map c | c in s.entry :: Released(s.entry[c], db), Kept(s.list, s.entry, db))
  }

  /** Connection db is closed: its transaction ends and it leaves the list. */
  function Closed(s: State, db: Connection): State
  {
    var t := Unlocked(s, db);
    State(t.entry - {db}, Without(t.list, db))
  }

  // ----- callback invocations -----

  datatype Call = Call(notify: Callback, args: seq<Arg>)

  /** The pairs (callback, context pointer) that a sequence of invocations delivers. */
  function Delivered(calls: seq<Call>): seq<(Callback, Arg)> {
    if calls == [] then []
    else Delivered(calls[..|calls| - 1]) + Pairs(calls[|calls| - 1].notify, calls[|calls| - 1].args)
  }

  function Pairs(notify: Callback, args: seq<Arg>): (r: seq<(Callback, Arg)>)
    ensures |r| == |args| && forall i :: 0 <= i < |args| ==> r[i] == (notify, args[i])
  {
    seq(|args|, i requires 0 <= i < |args| => (notify, args[i]))
  }

  /** Every callback is invoked at most once. */
  predicate Bundled(calls: seq<Call>) {
    forall i, j :: 0 <= i < j < |calls| ==> calls[i].notify != calls[j].notify
  }

  // ----- the invariant -----

  /** The entry at j does not separate the entries at i and k, two entries with the same callback. */
  predicate Together(entry: Entries, list: seq<Connection>, i: nat, j: nat, k: nat)
    requires i < j < k < |list|
  {
    At(entry, list[i]).notify == At(entry, list[k]).notify ==> At(entry, list[j]).notify == At(entry, list[k]).notify
  }

  /** The registered entries with the same callback stand together, apart from entries without one. */
  ghost predicate RegisteredGrouped(entry: Entries, list: seq<Connection>)
  {
    forall i: nat, j: nat, k: nat {:trigger Together(entry, list, i, j, k)} ::
      i < j < k < |list| && At(entry, list[j]).Registered() && At(entry, list[k]).Registered() ==>
        Together(entry, list, i, j, k)
  }

  /** Property (2) of checkListProperties: all entries with the same callback stand together. */
  ghost predicate AllGrouped(entry: Entries, list: seq<Connection>)
  {
    forall i: nat, j: nat, k: nat {:trigger Together(entry, list, i, j, k)} ::
      i < j < k < |list| ==> Together(entry, list, i, j, k)
  }

  /** Property (1) of checkListProperties, in both directions: the list holds exactly the entries with a pointer. */
  ghost predicate Listed(entry: Entries, list: seq<Connection>) {
    && NoDuplicates(list)
    && (forall c :: c in list ==> c in entry && entry[c].Active())
    && (forall c :: c in entry && entry[c].Active() ==> c in list)
  }

  /** A connection has a callback exactly while it is registered, and all pointers are to open connections. */
  ghost predicate WellLinked(entry: Entries) {
    && (forall c :: c in entry ==> (entry[c].Registered() <==> entry[c].notify != NO_CALLBACK))
    && (forall c :: c in entry ==> entry[c].blocking == null || entry[c].blocking in entry)
    && (forall c :: c in entry ==> entry[c].unlock == null || entry[c].unlock in entry)
  }

  ghost predicate Inv(s: State) {
    && Listed(s.entry, s.list)
    && WellLinked(s.entry)
    && Acyclic(s.entry)
    && RegisteredGrouped(s.entry, s.list)
  }

  // ----- list lemmas -----

  lemma InsertedMembers(list: seq<Connection>, entry: Entries, db: Connection)
    requires NoDuplicates(list) && db !in list
    ensures NoDuplicates(Inserted(list, entry, db))
    ensures forall c :: c in Inserted(list, entry, db) <==> c in list || c == db
  {
    var p := GroupStart(list, entry, At(entry, db).notify);
    var r := Inserted(list, entry, db);
    forall c | c in list
      ensures c in r
    {
      var i :| 0 <= i < |list| && list[i] == c;
      assert r[if i < p then i else i + 1] == c;
    }
    assert r[p] == db;
  }

  /** Where each entry of Kept comes from, and where each entry that stays goes to. */
  lemma {:induction false} KeptPositions(list: seq<Connection>, entry: Entries, db: Connection) returns (pos: seq<nat>)
    ensures |pos| == |Kept(list, entry, db)|
    ensures forall t :: 0 <= t < |pos| ==> pos[t] < |list| && Kept(list, entry, db)[t] == list[pos[t]]
    ensures forall t, u :: 0 <= t < u < |pos| ==> pos[t] < pos[u]
    ensures forall i :: 0 <= i < |list| ==> (i in pos <==> Released(At(entry, list[i]), db).Active())
  {
    if list == [] {
      pos := [];
    } else {
      var front := list[..|list| - 1];
      var last := list[|list| - 1];
      var rest := KeptPositions(front, entry, db);
      forall i | 0 <= i < |list|
        ensures i < |list| - 1 ==> (i in rest <==> Released(At(entry, list[i]), db).Active())
      {
        if i < |list| - 1 { assert front[i] == list[i]; }
      }
      if Released(At(entry, last), db).Active() {
        pos := rest + [|list| - 1];
      } else {
        pos := rest;
        assert |list| - 1 !in pos;
      }
    }
  }

  /** Membership in the list after a transaction end. */
  lemma KeptMembers(list: seq<Connection>, entry: Entries, db: Connection)
    ensures forall c :: c in Kept(list, entry, db) ==> c in list && Released(At(entry, c), db).Active()
    ensures forall c :: c in list && Released(At(entry, c), db).Active() ==> c in Kept(list, entry, db)
    ensures NoDuplicates(list) ==> NoDuplicates(Kept(list, entry, db))
  {
    var pos := KeptPositions(list, entry, db);
    var kept := Kept(list, entry, db);
    forall c | c in list && Released(At(entry, c), db).Active()
      ensures c in kept
    {
      var i :| 0 <= i < |list| && list[i] == c;
      assert i in pos;
      var t :| 0 <= t < |pos| && pos[t] == i;
      assert kept[t] == c;
    }
    forall c | c in kept
      ensures c in list && Released(At(entry, c), db).Active()
    {
      var t :| 0 <= t < |kept| && kept[t] == c;
      assert pos[t] in pos;
    }
  }
}
