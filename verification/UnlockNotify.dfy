/**
 The entry points of notify.c, over the linked list of blocked connections. Each is proved to make a
 step of the protocol of module UnlockNotifyRuns.
 */
module UnlockNotify {
  import opened BlockedList
  import opened Lists
  import opened WaitsFor
  import opened UnlockNotifyRuns
  import opened CallbackGroups

  const STATIC_ARGS: nat := 16

  function EntryOf(c: Connection): Entry
    reads c`pBlockingConnection, c`pUnlockConnection, c`xUnlockNotify, c`pUnlockArg
  {
    Entry(c.pBlockingConnection, c.pUnlockConnection, c.xUnlockNotify, c.pUnlockArg)
  }

  /** Where the pNextBlocked pointers lead. */
  type Links = map<Connection, Connection?>

  function ItemAt(list: seq<Connection>, i: nat): Connection? {
    if i < |list| then list[i] else null
  }

  /** The list that starts at `head` and follows `links` is `list`. */
  ghost predicate Chained(list: seq<Connection>, head: Connection?, links: Links) {
    && head == ItemAt(list, 0)
    && forall i :: 0 <= i < |list| ==> list[i] in links && links[list[i]] == ItemAt(list, i + 1)
  }

  lemma UnlinkAt(list: seq<Connection>, head: Connection?, links: Links, i: nat)
    requires NoDuplicates(list) && Chained(list, head, links) && i < |list|
    ensures i == 0 ==> Chained(list[..i] + list[i + 1..], links[list[0]], links)
    ensures i > 0 ==> Chained(list[..i] + list[i + 1..], head, links[list[i - 1] := links[list[i]]])
  {
    var r := list[..i] + list[i + 1..];
    forall k | 0 <= k < |r|
      ensures r[k] == list[if k < i then k else k + 1]
      ensures ItemAt(r, k + 1) == if k + 1 < i then list[k + 1] else ItemAt(list, k + 2)
    {
    }
  }

  lemma UnlinkNoDuplicates(list: seq<Connection>, i: nat)
    requires NoDuplicates(list) && i < |list|
    ensures NoDuplicates(list[..i] + list[i + 1..])
  {
  }

  lemma LinkFirst(list: seq<Connection>, head: Connection?, links: Links, db: Connection)
    requires NoDuplicates(list) && Chained(list, head, links) && db !in list
    ensures Chained([db] + list, db, links[db := ItemAt(list, 0)])
  {
    assert list[..0] + [db] + list[0..] == [db] + list;
    forall k | 0 <= k <= |list|
      ensures ([db] + list)[k] == if k == 0 then db else list[k - 1]
      ensures ItemAt([db] + list, k + 1) == ItemAt(list, k)
    {
    }
  }

  lemma LinkAfterAt(list: seq<Connection>, head: Connection?, links: Links, i: nat, db: Connection, k: nat)
    requires NoDuplicates(list) && Chained(list, head, links) && 0 < i <= |list| && db !in list && k <= |list|
    ensures var r := list[..i] + [db] + list[i..]; var after := links[db := ItemAt(list, i)][list[i - 1] := db];
            r[k] in after && after[r[k]] == ItemAt(r, k + 1)
  {
    if k < i - 1 {
      assert list[k] != list[i - 1];
    } else if k > i {
      assert list[k - 1] != list[i - 1];
    }
  }

  lemma LinkAfter(list: seq<Connection>, head: Connection?, links: Links, i: nat, db: Connection)
    requires NoDuplicates(list) && Chained(list, head, links) && 0 < i <= |list| && db !in list
    ensures Chained(list[..i] + [db] + list[i..], head, links[db := ItemAt(list, i)][list[i - 1] := db])
  {
    var r, after := list[..i] + [db] + list[i..], links[db := ItemAt(list, i)][list[i - 1] := db];
    forall k | 0 <= k < |r|
      ensures r[k] in after && after[r[k]] == ItemAt(r, k + 1)
    {
      LinkAfterAt(list, head, links, i, db, k);
    }
  }

  lemma LinkNoDuplicates(list: seq<Connection>, i: nat, db: Connection)
    requires NoDuplicates(list) && i <= |list| && db !in list
    ensures NoDuplicates(list[..i] + [db] + list[i..])
  {
  }

  function LastOf(list: seq<Connection>): Connection? {
    if list == [] then null else list[|list| - 1]
  }

  /** What the end of db's transaction owes to one entry. */
  function Owed(e: Entry, db: Connection): seq<Reg> {
    if e.unlock == db then [(e.notify, e.arg)] else []
  }

  /** The entries when the connections in `done` have been told that db's transaction ended. */
  function ReleasedIn(entry: Entries, done: seq<Connection>, db: Connection): Entries {
    map c | c in entry :: if c in done then Released(entry[c], db) else entry[c]
  }

  lemma ReleaseOneMore(entry: Entries, done: seq<Connection>, db: Connection, p: Connection)
    requires p in entry && p !in done
    ensures At(entry, p) == entry[p]
    ensures ReleasedIn(entry, done, db)[p] == entry[p]
    ensures ReleasedIn(entry, done, db)[p := Released(entry[p], db)] == ReleasedIn(entry, done + [p], db)
  {
  }

  function KeptMore(kept: seq<Connection>, e: Entry, p: Connection, db: Connection): seq<Connection> {
    if Stays(e, db) then kept + [p] else kept
  }

  lemma TakeOneMore(done: seq<Connection>, p: Connection, entry: Entries, db: Connection)
    ensures Kept(done + [p], entry, db) == KeptMore(Kept(done, entry, db), At(entry, p), p, db)
    ensures Due(done + [p], entry, db) == Due(done, entry, db) + Owed(At(entry, p), db)
  {
    assert (done + [p])[..|done|] == done;
  }

  lemma {:induction false} DeliveredConcat(a: seq<Call>, b: seq<Call>)
    ensures Delivered(a + b) == Delivered(a) + Delivered(b)
  {
    if b == [] {
      assert a + b == a;
    } else {
      var front, last := b[..|b| - 1], b[|b| - 1];
      assert b == front + [last] && a + b == (a + front) + [last];
      DeliveredConcat(a, front);
    }
  }

  /** The open invocation after one more context pointer for `notify`, with those it completes. */
  function Joined(open: seq<Call>, notify: Callback, arg: Arg): seq<Call>
    requires |open| <= 1
  {
    if open != [] && open[0].notify == notify then [Call(notify, open[0].args + [arg])]
    else open + [Call(notify, [arg])]
  }

  lemma BundleOneMore(due: seq<Reg>, made: seq<Call>, open: seq<Call>, notify: Callback, arg: Arg)
    requires |open| <= 1 && (open == [] ==> made == []) && Bundle(due) == made + open
    ensures Bundle(due + [(notify, arg)]) == made + Joined(open, notify, arg)
  {
    var calls := Bundle(due);
    assert (due + [(notify, arg)])[..|due|] == due;
    if open == [] {
      assert calls == [];
    } else {
      assert calls[..|calls| - 1] == made && calls[|calls| - 1] == open[0];
      assert open == [open[0]];
    }
  }

  /**
   The local variables aArg, nArg and xUnlockNotify of the loop: the context pointers collected for
   the callback to be invoked next, in an array of `size` elements.
   */
  datatype ArgArray = ArgArray(args: seq<Arg>, size: nat, xUnlockNotify: Callback, memory: bool) {
    ghost predicate Valid() { |args| <= size && size >= STATIC_ARGS }

    function Open(): seq<Call> {
      if args == [] then [] else [Call(xUnlockNotify, args)]
    }
  }

  const NO_ARGS := ArgArray([], STATIC_ARGS, NO_CALLBACK, true)

  /**
   Makes room for one more pointer. `grown` is the size of the block that the allocator returns if a
   larger array is asked for; a failed allocation returns none, and then the callback is invoked early.
   */
  function Reserve(acc: ArgArray, grown: nat): (r: (ArgArray, seq<Call>))
    requires acc.Valid()
    ensures r.0.Valid() && |r.0.args| < r.0.size && r.0.xUnlockNotify == acc.xUnlockNotify
    ensures r.1 + r.0.Open() == acc.Open()
    ensures r.0.memory ==> acc.memory && r.1 == [] && r.0.args == acc.args
    ensures |acc.args| < STATIC_ARGS ==> r == (acc, [])
  {
    if |acc.args| < acc.size then (acc, [])
    else if grown >= 2 * acc.size then (acc.(size := grown), [])
    else (acc.(args := [], memory := false), acc.Open())
  }

  lemma PointerAdded(made: seq<Call>, open: ArgArray, notify: Callback, arg: Arg)
    requires open.args != [] ==> open.xUnlockNotify == notify
    ensures Delivered(made + [Call(notify, open.args + [arg])]) == Delivered(made + open.Open()) + [(notify, arg)]
  {
    if open.args == [] {
      assert made + open.Open() == made && open.args + [arg] == [arg];
      assert Pairs(notify, [arg]) == [(notify, arg)];
    }
  }

  /** Collects one more pointer for `notify`; also the invocations this completes. */
  function Owe(acc: ArgArray, notify: Callback, arg: Arg, grown: nat): (r: (ArgArray, seq<Call>))
    requires acc.Valid()
    ensures r.0.Valid() && r.0.args != []
  {
    var other := notify != acc.xUnlockNotify;
    var (roomy, early) := Reserve(if other then acc.(args := []) else acc, grown);
    (roomy.(args := roomy.args + [arg], xUnlockNotify := notify), (if other then acc.Open() else []) + early)
  }

  /** Nothing is lost: what was open and the new pointer are delivered or still open. */
  lemma OweDelivers(acc: ArgArray, notify: Callback, arg: Arg, grown: nat)
    requires acc.Valid()
    ensures var (more, made) := Owe(acc, notify, arg, grown);
            Delivered(made + more.Open()) == Delivered(acc.Open()) + [(notify, arg)]
  {
    var other := notify != acc.xUnlockNotify;
    var flushed := if other then acc.Open() else [];
    var (roomy, early) := Reserve(if other then acc.(args := []) else acc, grown);
    assert (flushed + early) + roomy.Open() == flushed + (early + roomy.Open()) == acc.Open();
    PointerAdded(flushed + early, roomy, notify, arg);
  }

  /** With enough memory the pointer joins the open invocation if that is for the same callback. */
  lemma OweBundles(acc: ArgArray, notify: Callback, arg: Arg, grown: nat)
    requires acc.Valid()
    ensures var (more, made) := Owe(acc, notify, arg, grown);
            more.memory ==> acc.memory && made + more.Open() == Joined(acc.Open(), notify, arg)
  {
    var (more, made) := Owe(acc, notify, arg, grown);
    if notify != acc.xUnlockNotify {
      assert made == acc.Open() + [] == acc.Open();
      assert [] + [arg] == [arg];
    } else if more.memory {
      assert made == [] + [] == [];
      assert made + more.Open() == more.Open();
      assert acc.args == [] ==> acc.args + [arg] == [arg];
    }
  }

  lemma NextInList(list: seq<Connection>, kept: seq<Connection>, p: Connection, rest: seq<Connection>,
                   head: Connection?, links: Links)
    requires Chained(list, head, links) && list == kept + [p] + rest
    ensures p in links && links[p] == ItemAt(rest, 0)
  {
    assert list[|kept|] == p;
  }

  class Notifier {
    var sqlite3BlockedList: Connection?

    /** The open connections, and the connections on the list. */
    ghost var conns: set<Connection>
    ghost var list: seq<Connection>

    ghost function NextBlocked(): Links
      reads this`conns, conns`pNextBlocked
    {
      map c | c in conns :: c.pNextBlocked
    }

    ghost predicate Linked()
      reads this`conns, this`list, this`sqlite3BlockedList, conns`pNextBlocked
    {
      NoDuplicates(list) && Chained(list, sqlite3BlockedList, NextBlocked())
    }

    ghost function Entered(): Entries
      reads this`conns
      reads conns`pBlockingConnection, conns`pUnlockConnection, conns`xUnlockNotify, conns`pUnlockArg
    {
      map c | c in conns :: EntryOf(c)
    }

    ghost function Value(): State
      reads this, conns
    {
      State(Entered(), list)
    }

    ghost predicate Valid()
      reads this, conns
    {
      Linked() && Inv(Value())
    }

    constructor ()
      ensures Valid() && Value() == EMPTY && conns == {}
    {
      sqlite3BlockedList, conns, list := null, {}, [];
      new;
      assert Acyclic(Entered());
    }

    method SetNext(c: Connection, next: Connection?)
      requires c in conns
      modifies c`pNextBlocked
      ensures NextBlocked() == old(NextBlocked())[c := next]
      ensures Entered() == old(Entered())
    {
      c.pNextBlocked := next;
    }

    /** Takes the list's i-th entry p out; prev is the entry before it, or null. */
    method Unlink(prev: Connection?, p: Connection, ghost i: nat)
      requires Linked() && i < |list| && p == list[i] && prev == if i == 0 then null else list[i - 1]
      modifies this`sqlite3BlockedList, this`list, conns`pNextBlocked
      ensures Linked() && Entered() == old(Entered())
      ensures list == old(list)[..i] + old(list)[i + 1..]
    {
      UnlinkAt(list, sqlite3BlockedList, NextBlocked(), i);
      UnlinkNoDuplicates(list, i);
      assert NextBlocked()[p] == p.pNextBlocked;
      if prev == null {
        sqlite3BlockedList := p.pNextBlocked;
      } else {
        SetNext(prev, p.pNextBlocked);
      }
      list := list[..i] + list[i + 1..];
    }

    /** Puts db into the list at position i, between prev and p. */
    method Link(prev: Connection?, p: Connection?, db: Connection, ghost i: nat)
      requires Linked() && db in conns && db !in list
      requires i <= |list| && p == ItemAt(list, i) && prev == if i == 0 then null else list[i - 1]
      modifies this`sqlite3BlockedList, this`list, conns`pNextBlocked
      ensures Linked() && Entered() == old(Entered())
      ensures list == old(list)[..i] + [db] + old(list)[i..]
    {
      ghost var entries, longer := Entered(), list[..i] + [db] + list[i..];
      LinkNoDuplicates(list, i, db);
      if i == 0 {
        LinkFirst(list, sqlite3BlockedList, NextBlocked(), db);
        assert longer == [db] + list;
      } else {
        LinkAfter(list, sqlite3BlockedList, NextBlocked(), i, db);
      }
      SetNext(db, p);
      if prev == null {
        sqlite3BlockedList := db;
      } else {
        SetNext(prev, db);
      }
      assert Entered() == entries;
      list := longer;
    }

    /** Removes db from the list; a no-op if it is not there. */
    method RemoveFromBlockedList(db: Connection)
      requires Linked()
      modifies this`sqlite3BlockedList, this`list, conns`pNextBlocked
      ensures Linked() && Entered() == old(Entered())
      ensures list == Without(old(list), db)
    {
      var prev: Connection? := null;
      var p := sqlite3BlockedList;
      ghost var i := 0;
      while p != null && p != db
        invariant i <= |list| && p == ItemAt(list, i)
        invariant prev == if i == 0 then null else list[i - 1]
        invariant forall k :: 0 <= k < i ==> list[k] != db
        decreases |list| - i
      {
        prev, p := p, p.pNextBlocked;
        i := i + 1;
      }
      assert Position(list, db) == i;
      if p != null {
        Unlink(prev, p, i);
      }
    }

    /** Adds db in front of the first entry that has the same callback, or at the end. */
    method AddToBlockedList(db: Connection)
      requires Linked() && db in conns && db !in list
      modifies this`sqlite3BlockedList, this`list, conns`pNextBlocked
      ensures Linked() && Entered() == old(Entered())
      ensures list == Inserted(old(list), Entered(), db)
    {
      var prev: Connection? := null;
      var p := sqlite3BlockedList;
      ghost var i := 0;
      while p != null && p.xUnlockNotify != db.xUnlockNotify
        invariant i <= |list| && p == ItemAt(list, i)
        invariant prev == if i == 0 then null else list[i - 1]
        invariant forall k :: 0 <= k < i ==> list[k].xUnlockNotify != db.xUnlockNotify
        decreases |list| - i
      {
        prev, p := p, p.pNextBlocked;
        i := i + 1;
      }
      assert GroupStart(list, Entered(), At(Entered(), db).notify) == i;
      Link(prev, p, db, i);
    }

    /** Clears the pNextBlocked pointer of a connection that left the list. */
    method ClearNext(c: Connection)
      requires Linked() && c in conns && c !in list
      modifies c`pNextBlocked
      ensures Linked() && Entered() == old(Entered())
    {
      SetNext(c, null);
    }

    /** A new connection, with nothing recorded. */
    method Opened(db: Connection)
      requires Valid() && db !in conns && EntryOf(db) == IDLE
      modifies this`conns
      ensures Valid() && conns == old(conns) + {db}
      ensures Next(old(Value()), Open(db), Outcome(SQLITE_OK, []), Value())
    {
      OpenedKeepsInv(Value(), db);
      Enter(db);
    }

    method Enter(db: Connection)
      requires Linked() && db !in conns
      modifies this`conns
      ensures Linked() && conns == old(conns) + {db}
      ensures Entered() == old(Entered())[db := EntryOf(db)]
    {
      ghost var links := NextBlocked();
      conns := conns + {db};
      assert NextBlocked() == links[db := db.pNextBlocked];
    }

    /** Overwrites what is recorded for db. */
    method Record(db: Connection, e: Entry)
      requires Linked() && db in conns
      modifies db`pBlockingConnection, db`pUnlockConnection, db`xUnlockNotify, db`pUnlockArg
      ensures Linked() && Entered() == old(Entered())[db := e]
    {
      db.pBlockingConnection := e.blocking;
      db.pUnlockConnection := e.unlock;
      db.xUnlockNotify := e.notify;
      db.pUnlockArg := e.arg;
    }

    /** The list and pointer changes of ConnectionBlocked. */
    method NoteBlocker(db: Connection, pBlocker: Connection)
      requires Linked() && db in conns && (!EntryOf(db).Active() ==> db !in list)
      modifies this`sqlite3BlockedList, this`list, conns`pNextBlocked
      modifies db`pBlockingConnection, db`pUnlockConnection, db`xUnlockNotify, db`pUnlockArg
      ensures Linked() && Value() == Blocked(old(Value()), db, pBlocker)
    {
      ghost var entry := Entered();
      assert entry[db] == EntryOf(db);
      if db.pBlockingConnection == null && db.pUnlockConnection == null {
        AddToBlockedList(db);
      }
      Record(db, EntryOf(db).(blocking := pBlocker));
    }

    /** Connection db received SQLITE_LOCKED because of pBlocker. */
    method ConnectionBlocked(db: Connection, pBlocker: Connection)
      requires Valid() && db in conns && pBlocker in conns
      modifies this`sqlite3BlockedList, this`list, conns`pNextBlocked
      modifies db`pBlockingConnection, db`pUnlockConnection, db`xUnlockNotify, db`pUnlockArg
      ensures Valid()
      ensures Next(old(Value()), Lock(db, pBlocker), Outcome(SQLITE_OK, []), Value())
    {
      BlockedKeepsInv(Value(), db, pBlocker);
      assert Entered()[db] == EntryOf(db);
      NoteBlocker(db, pBlocker);
    }

    /** Follows the wait chain from db's recorded blocker: does it come back to db? */
    method ChainReaches(db: Connection) returns (deadlocked: bool)
      requires db in conns && db.pBlockingConnection != null && db.pBlockingConnection in conns
      requires Acyclic(Entered()) && PointersOpen(Entered())
      ensures deadlocked <==> WouldDeadlock(Entered(), db)
    {
      var p := db.pBlockingConnection;
      ghost var entry, start, k := Entered(), p, 0;
      assert entry[db] == EntryOf(db);
      while p != null && p != db
        invariant k <= |entry| && p == Chain(entry, start, k)
        invariant forall j: nat :: j < k ==> Chain(entry, start, j) != null && Chain(entry, start, j) != db
        decreases |entry| - k
      {
        VisitedGrows(entry, start, k + 1);
        ChainOpen(entry, start, k);
        assert entry[p] == EntryOf(p);
        p := p.pUnlockConnection;
        k := k + 1;
      }
      if p == null {
        StaysNull(entry, start, k);
      }
      return p != null;
    }

    /** sqlite3_unlock_notify() with a NULL callback. */
    method CancelNotify(db: Connection)
      requires Linked() && db in conns
      modifies this`sqlite3BlockedList, this`list, conns`pNextBlocked
      modifies db`pBlockingConnection, db`pUnlockConnection, db`xUnlockNotify, db`pUnlockArg
      ensures Linked() && Value() == Cancelled(old(Value()), db)
    {
      RemoveFromBlockedList(db);
      Record(db, IDLE);
    }

    /** Registers db for the end of its recorded blocker's transaction. */
    method Register(db: Connection, xNotify: Callback, pArg: Arg)
      requires Linked() && db in conns
      modifies this`sqlite3BlockedList, this`list, conns`pNextBlocked
      modifies db`pBlockingConnection, db`pUnlockConnection, db`xUnlockNotify, db`pUnlockArg
      ensures Linked() && Value() == Registration(old(Value()), db, xNotify, pArg)
    {
      WithoutMembers(list, db);
      assert Entered()[db] == EntryOf(db);
      Record(db, Entry(db.pBlockingConnection, db.pBlockingConnection, xNotify, pArg));
      RemoveFromBlockedList(db);
      AddToBlockedList(db);
    }

    /** sqlite3_unlock_notify(); `made` are the callback invocations. */
    method UnlockNotify(db: Connection, xNotify: Callback, pArg: Arg) returns (rc: int, made: seq<Call>)
      requires Valid() && db in conns
      modifies this`sqlite3BlockedList, this`list, conns`pNextBlocked
      modifies db`pBlockingConnection, db`pUnlockConnection, db`xUnlockNotify, db`pUnlockArg
      ensures Valid()
      ensures Next(old(Value()), Notify(db, xNotify, pArg), Outcome(rc, made), Value())
    {
      ghost var s := Value();
      assert s.entry[db] == EntryOf(db);
      NotifySteps(s, db, xNotify, pArg);
      rc, made := SQLITE_OK, [];
      if xNotify == NO_CALLBACK {
        CancelNotify(db);
      } else if db.pBlockingConnection == null {
        made := [Call(xNotify, [pArg])];
      } else {
        var deadlocked := ChainReaches(db);
        if deadlocked {
          rc := SQLITE_LOCKED;
        } else {
          Register(db, xNotify, pArg);
        }
      }
    }

    /** Tells the list's j-th entry p that db's transaction ended; takes it out if it waits for nothing more. */
    method ReleaseEntry(prev: Connection?, p: Connection, db: Connection, ghost j: nat) returns (stays: bool)
      requires Linked() && j < |list| && p == list[j] && p in conns && prev == if j == 0 then null else list[j - 1]
      modifies this`sqlite3BlockedList, this`list, conns`pNextBlocked
      modifies p`pBlockingConnection, p`pUnlockConnection, p`xUnlockNotify, p`pUnlockArg
      ensures Linked()
      ensures Entered() == old(Entered())[p := Released(old(EntryOf(p)), db)]
      ensures stays == Stays(old(EntryOf(p)), db)
      ensures list == if stays then old(list) else old(list)[..j] + old(list)[j + 1..]
    {
      Record(p, Released(EntryOf(p), db));
      stays := p.pBlockingConnection != null || p.pUnlockConnection != null;
      if !stays {
        Unlink(prev, p, j);
        ClearNext(p);
      }
    }

    /** Steps 1 and 3 for the entry p at the front of the part of the list that is left. */
    method ReleaseFront(db: Connection, prev: Connection?, p: Connection,
                        ghost kept: seq<Connection>, ghost rest: seq<Connection>)
        returns (last: Connection?, next: Connection?)
      requires Linked() && p in conns && list == kept + [p] + rest && prev == LastOf(kept)
      modifies this`sqlite3BlockedList, this`list, conns`pNextBlocked
      modifies p`pBlockingConnection, p`pUnlockConnection, p`xUnlockNotify, p`pUnlockArg
      ensures Linked()
      ensures Entered() == old(Entered())[p := Released(old(EntryOf(p)), db)]
      ensures list == KeptMore(kept, old(EntryOf(p)), p, db) + rest
      ensures last == LastOf(KeptMore(kept, old(EntryOf(p)), p, db)) && next == ItemAt(rest, 0)
    {
      NextInList(list, kept, p, rest, sqlite3BlockedList, NextBlocked());
      assert NextBlocked()[p] == p.pNextBlocked;
      next := p.pNextBlocked;
      assert list[|kept|] == p && list[..|kept|] == kept && list[|kept| + 1..] == rest;
      var stays := ReleaseEntry(prev, p, db, |kept|);
      last := if stays then p else prev;
    }

    /**
     The transaction of db has ended. `made` are the callback invocations, and `memory` tells whether
     every allocation on the way succeeded.
     */
    method ConnectionUnlocked(db: Connection) returns (made: seq<Call>, memory: bool)
      requires Valid() && db in conns
      modifies this`sqlite3BlockedList, this`list, conns`pNextBlocked
      modifies conns`pBlockingConnection, conns`pUnlockConnection, conns`xUnlockNotify, conns`pUnlockArg
      ensures Valid()
      ensures Next(old(Value()), EndTransaction(db, memory), Outcome(SQLITE_OK, made), Value())
    {
      ghost var s := Value();
      made, memory := ReleaseAll(db);
      AllReleased(s, db);
      EndOfTransaction(s, db, memory, made);
      assert Value() == Unlocked(s, db);
    }

    lemma InConns(kept: seq<Connection>, p: Connection, rest: seq<Connection>)
      requires Linked() && (list == kept + [p] + rest || list == kept + ([p] + rest))
      ensures list == kept + [p] + rest
      ensures p in conns && Entered()[p] == EntryOf(p)
    {
      assert list[|kept|] == p;
    }

    /** The loop of ConnectionUnlocked over the list of blocked connections; `made` are the invocations. */
    method ReleaseAll(db: Connection) returns (made: seq<Call>, memory: bool)
      requires Linked()
      modifies this`sqlite3BlockedList, this`list, conns`pNextBlocked
      modifies conns`pBlockingConnection, conns`pUnlockConnection, conns`xUnlockNotify, conns`pUnlockArg
      ensures Linked()
      ensures Entered() == ReleasedIn(old(Entered()), old(list), db) && list == Kept(old(list), old(Entered()), db)
      ensures Delivered(made) == Due(old(list), old(Entered()), db)
      ensures memory ==> made == Bundle(Due(old(list), old(Entered()), db))
    {
      ghost var entry, all := Entered(), list;
      ghost var done: seq<Connection>, rest: seq<Connection> := [], list;
      var acc := NO_ARGS;
      var prev: Connection? := null;
      var p := sqlite3BlockedList;
      made := [];
      assert ReleasedIn(entry, done, db) == entry;
      while p != null
        invariant all == done + rest && p == ItemAt(rest, 0)
        invariant Linked() && list == Kept(done, entry, db) + rest && prev == LastOf(Kept(done, entry, db))
        invariant Entered() == ReleasedIn(entry, done, db)
        invariant acc.Valid() && Owing(made, acc.Open(), Due(done, entry, db), acc.memory)
        decreases |rest|
      {
        var front: Connection := p;
        ghost var kept, left := Kept(done, entry, db), rest[1..];
        SplitFront(all, done, rest);
        ReleaseOneMore(entry, done, db, front);
        TakeOneMore(done, front, entry, db);
        InConns(kept, front, left);
        var grown: nat := *;
        CollectOwes(acc, made, EntryOf(front), db, Due(done, entry, db), grown);
        var more := Collect(acc, made, EntryOf(front), db, grown);
        acc, made := more.0, more.1;
        prev, p := ReleaseFront(db, prev, front, kept, left);
        done, rest := done + [front], left;
      }
      assert done == all;
      made := made + acc.Open();
      memory := acc.memory;
    }

    /** sqlite3_close(): the transaction of db ends and db leaves the list. */
    method ConnectionClosed(db: Connection) returns (made: seq<Call>, memory: bool)
      requires Valid() && db in conns
      modifies this`sqlite3BlockedList, this`list, this`conns, conns`pNextBlocked
      modifies conns`pBlockingConnection, conns`pUnlockConnection, conns`xUnlockNotify, conns`pUnlockArg
      ensures Valid() && conns == old(conns) - {db}
      ensures Next(old(Value()), Close(db, memory), Outcome(SQLITE_OK, made), Value())
    {
      ClosedKeepsInv(Value(), db);
      made, memory := ConnectionUnlocked(db);
      Leave(db);
    }

    method Leave(db: Connection)
      requires Linked()
      modifies this`sqlite3BlockedList, this`list, this`conns, conns`pNextBlocked
      ensures Linked() && conns == old(conns) - {db}
      ensures Entered() == old(Entered()) - {db} && list == Without(old(list), db)
    {
      WithoutMembers(list, db);
      RemoveFromBlockedList(db);
      ghost var links := NextBlocked();
      conns := conns - {db};
      assert NextBlocked() == links - {db};
    }
  }

  /** `made` and `open` hold exactly the deliveries `due`; bundled as well as possible if memory lasted. */
  ghost predicate Owing(made: seq<Call>, open: seq<Call>, due: seq<Reg>, memory: bool) {
    && |open| <= 1 && (open == [] ==> made == [])
    && Delivered(made + open) == due
    && (memory ==> made + open == Bundle(due))
  }

  lemma OwingOneMore(made: seq<Call>, open: seq<Call>, due: seq<Reg>, memory: bool,
                     notify: Callback, arg: Arg, more: seq<Call>, open': seq<Call>, memory': bool)
    requires Owing(made, open, due, memory)
    requires |open'| == 1 && Delivered(more + open') == Delivered(open) + [(notify, arg)]
    requires memory' ==> memory && more + open' == Joined(open, notify, arg)
    ensures Owing(made + more, open', due + [(notify, arg)], memory')
  {
    DeliveredConcat(made, open);
    DeliveredConcat(made, more + open');
    assert made + (more + open') == made + more + open';
    if memory' {
      BundleOneMore(due, made, open, notify, arg);
    }
  }

  /** Step 2 for one entry: its callback is owed if it is registered on db. */
  function Collect(acc: ArgArray, made: seq<Call>, e: Entry, db: Connection, grown: nat): (ArgArray, seq<Call>)
    requires acc.Valid()
  {
    if e.unlock == db then
      var (more, completed) := Owe(acc, e.notify, e.arg, grown);
      (more, made + completed)
    else (acc, made)
  }

  lemma CollectOwes(acc: ArgArray, made: seq<Call>, e: Entry, db: Connection, due: seq<Reg>, grown: nat)
    requires acc.Valid() && Owing(made, acc.Open(), due, acc.memory)
    ensures var (more, all) := Collect(acc, made, e, db, grown);
            more.Valid() && Owing(all, more.Open(), due + Owed(e, db), more.memory)
  {
    if e.unlock == db {
      var (more, completed) := Owe(acc, e.notify, e.arg, grown);
      OweDelivers(acc, e.notify, e.arg, grown);
      OweBundles(acc, e.notify, e.arg, grown);
      OwingOneMore(made, acc.Open(), due, acc.memory, e.notify, e.arg, completed, more.Open(), more.memory);
    } else {
      assert due + [] == due;
    }
  }

  lemma SplitFront(list: seq<Connection>, done: seq<Connection>, rest: seq<Connection>)
    requires list == done + rest && rest != []
    ensures list == (done + [rest[0]]) + rest[1..] && rest == [rest[0]] + rest[1..]
    ensures NoDuplicates(list) ==> rest[0] !in done
    ensures rest[0] in list
  {
    assert list[|done|] == rest[0];
    if NoDuplicates(list) {
      forall i | 0 <= i < |done|
        ensures done[i] != rest[0]
      {
        assert list[i] == done[i];
      }
    }
  }

  /** What sqlite3_unlock_notify() has to do in each of its four cases. */
  lemma NotifySteps(s: State, db: Connection, notify: Callback, arg: Arg)
    requires Inv(s) && db in s.entry
    ensures notify == NO_CALLBACK ==>
              Inv(Cancelled(s, db)) && Next(s, Notify(db, notify, arg), Outcome(SQLITE_OK, []), Cancelled(s, db))
    ensures notify != NO_CALLBACK && s.entry[db].blocking == null ==>
              Next(s, Notify(db, notify, arg), Outcome(SQLITE_OK, [Call(notify, [arg])]), s)
    ensures notify != NO_CALLBACK && WouldDeadlock(s.entry, db) ==>
              Next(s, Notify(db, notify, arg), Outcome(SQLITE_LOCKED, []), s)
    ensures notify != NO_CALLBACK && s.entry[db].blocking != null && !WouldDeadlock(s.entry, db) ==>
              && Inv(Registration(s, db, notify, arg))
              && Next(s, Notify(db, notify, arg), Outcome(SQLITE_OK, []), Registration(s, db, notify, arg))
  {
    if notify == NO_CALLBACK {
      CancelledKeepsInv(s, db);
    } else if s.entry[db].blocking != null && !WouldDeadlock(s.entry, db) {
      RegistrationKeepsInv(s, db, notify, arg);
    }
  }

  lemma EndOfTransaction(s: State, db: Connection, memory: bool, made: seq<Call>)
    requires Inv(s) && db in s.entry
    requires Delivered(made) == Due(s.list, s.entry, db)
    requires memory ==> made == Bundle(Due(s.list, s.entry, db))
    ensures Next(s, EndTransaction(db, memory), Outcome(SQLITE_OK, made), Unlocked(s, db))
    ensures Inv(Unlocked(s, db))
  {
    UnlockedKeepsInv(s, db);
    DueIsContiguous(s, db);
  }

  lemma AllReleased(s: State, db: Connection)
    requires Listed(s.entry, s.list)
    ensures ReleasedIn(s.entry, s.list, db) == Unlocked(s, db).entry
  {
  }

  lemma {:induction false} StaysNull(entry: Entries, p: Connection?, k: nat)
    requires Chain(entry, p, k) == null
    ensures forall j: nat :: j >= k ==> Chain(entry, p, j) == null
  {
    forall j: nat | j >= k
      ensures Chain(entry, p, j) == null
    {
      ChainFrom(entry, p, k, j - k);
      NullChain(entry, j - k);
    }
  }

  lemma {:induction false} NullChain(entry: Entries, k: nat)
    ensures Chain(entry, null, k) == null
  {
    if k > 0 {
      NullChain(entry, k - 1);
    }
  }
}
