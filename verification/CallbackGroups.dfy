/**
 Why the blocked list is kept grouped by callback: it lets the end of a transaction invoke every
 callback once, with all its context pointers. And how far the grouping that the debug check
 checkListProperties asserts really holds.
 */
module CallbackGroups {
  import opened BlockedList
  import opened Lists
  import opened UnlockNotifyRuns

  /** Deliveries in the same order, those with the same callback as the one before joined to it. */
  function Bundle(due: seq<Reg>): (calls: seq<Call>)
    ensures due != [] ==> calls != [] && calls[|calls| - 1].notify == due[|due| - 1].0
  {
    if due == [] then []
    else
      var (notify, arg) := due[|due| - 1];
      var calls := Bundle(due[..|due| - 1]);
      var n := |calls|;
      if n > 0 && calls[n - 1].notify == notify then calls[..n - 1] + [Call(notify, calls[n - 1].args + [arg])]
      else calls + [Call(notify, [arg])]
  }

  lemma DeliveredLast(calls: seq<Call>, c: Call)
    ensures Delivered(calls + [c]) == Delivered(calls) + Pairs(c.notify, c.args)
  {
    assert (calls + [c])[..|calls|] == calls;
  }

  lemma DeliveredJoined(calls: seq<Call>, c: Call, arg: Arg)
    ensures Delivered(calls + [Call(c.notify, c.args + [arg])]) == Delivered(calls + [c]) + [(c.notify, arg)]
  {
    DeliveredLast(calls, c);
    DeliveredLast(calls, Call(c.notify, c.args + [arg]));
    assert Pairs(c.notify, c.args + [arg]) == Pairs(c.notify, c.args) + [(c.notify, arg)];
  }

  /** Bundling loses, adds and reorders nothing. */
  lemma {:induction false} BundleDelivers(due: seq<Reg>)
    ensures Delivered(Bundle(due)) == due
  {
    if due != [] {
      var front := due[..|due| - 1];
      var (notify, arg) := due[|due| - 1];
      var calls := Bundle(front);
      BundleDelivers(front);
      assert due == front + [(notify, arg)];
      if |calls| > 0 && calls[|calls| - 1].notify == notify {
        assert calls == calls[..|calls| - 1] + [calls[|calls| - 1]];
        DeliveredJoined(calls[..|calls| - 1], calls[|calls| - 1], arg);
      } else {
        DeliveredLast(calls, Call(notify, [arg]));
        assert Pairs(notify, [arg]) == [(notify, arg)];
      }
    }
  }

  ghost predicate Contiguous(due: seq<Reg>) {
    forall i, j, k :: 0 <= i < j < k < |due| && due[i].0 == due[k].0 ==> due[j].0 == due[k].0
  }

  lemma {:induction false} BundleUses(due: seq<Reg>, n: nat) returns (p: nat)
    requires n < |Bundle(due)|
    ensures p < |due| && due[p].0 == Bundle(due)[n].notify
  {
    if n == |Bundle(due)| - 1 {
      p := |due| - 1;
    } else {
      p := BundleUses(due[..|due| - 1], n);
    }
  }

  lemma ContiguousAt(due: seq<Reg>, i: nat, j: nat, k: nat)
    requires Contiguous(due) && i < j < k < |due|
    ensures due[i].0 == due[k].0 ==> due[j].0 == due[k].0
  {
  }

  /** A callback that is not the last one invoked so far is not invoked again. */
  lemma EarlierDiffers(due: seq<Reg>, last: Reg, n: nat)
    requires Contiguous(due + [last]) && Bundled(Bundle(due)) && n < |Bundle(due)| - 1
    ensures Bundle(due)[n].notify != last.0
  {
    var all := due + [last];
    var p := BundleUses(due, n);
    assert due[p] == all[p] && due[|due| - 1] == all[|due| - 1] && all[|due|] == last;
    if p < |due| - 1 {
      ContiguousAt(all, p, |due| - 1, |due|);
    }
  }

  lemma BundledLast(calls: seq<Call>, c: Call)
    requires Bundled(calls) && forall n :: 0 <= n < |calls| ==> calls[n].notify != c.notify
    ensures Bundled(calls + [c])
  {
  }

  lemma BundledJoined(calls: seq<Call>, c: Call)
    requires Bundled(calls) && calls != [] && calls[|calls| - 1].notify == c.notify
    ensures Bundled(calls[..|calls| - 1] + [c])
  {
  }

  lemma ContiguousFront(due: seq<Reg>)
    requires Contiguous(due) && due != []
    ensures Contiguous(due[..|due| - 1])
  {
  }

  /** When equal callbacks stand together, each callback is invoked once. */
  lemma {:induction false} BundleOnce(due: seq<Reg>)
    requires Contiguous(due)
    ensures Bundled(Bundle(due))
  {
    if due != [] {
      var front, last := due[..|due| - 1], due[|due| - 1];
      assert due == front + [last];
      var calls := Bundle(front);
      ContiguousFront(due);
      BundleOnce(front);
      forall n: nat | n < |calls| - 1
        ensures calls[n].notify != last.0
      {
        EarlierDiffers(front, last, n);
      }
      if |calls| > 0 && calls[|calls| - 1].notify == last.0 {
        BundledJoined(calls, Call(last.0, calls[|calls| - 1].args + [last.1]));
      } else {
        BundledLast(calls, Call(last.0, [last.1]));
      }
    }
  }

  /** Where each delivery comes from. */
  lemma {:induction false} DuePositions(list: seq<Connection>, entry: Entries, db: Connection) returns (pos: seq<nat>)
    ensures |pos| == |Due(list, entry, db)|
    ensures forall t :: 0 <= t < |pos| ==>
              && pos[t] < |list| && At(entry, list[pos[t]]).unlock == db
              && Due(list, entry, db)[t].0 == At(entry, list[pos[t]]).notify
    ensures forall t, u :: 0 <= t < u < |pos| ==> pos[t] < pos[u]
  {
    if list == [] {
      pos := [];
    } else {
      pos := DuePositions(list[..|list| - 1], entry, db);
      if At(entry, list[|list| - 1]).unlock == db {
        pos := pos + [|list| - 1];
      }
    }
  }

  /** On every reachable list, one transaction end can invoke each callback exactly once. */
  lemma DueIsContiguous(s: State, db: Connection)
    requires Inv(s)
    ensures Contiguous(Due(s.list, s.entry, db))
    ensures Bundled(Bundle(Due(s.list, s.entry, db)))
    ensures Announces(s, db, true, Bundle(Due(s.list, s.entry, db)))
  {
    var due := Due(s.list, s.entry, db);
    var pos := DuePositions(s.list, s.entry, db);
    forall i, j, k | 0 <= i < j < k < |due| && due[i].0 == due[k].0
      ensures due[j].0 == due[k].0
    {
      assert Together(s.entry, s.list, pos[i], pos[j], pos[k]);
    }
    BundleOnce(due);
    BundleDelivers(due);
  }

  // ----- the grouping that checkListProperties asserts -----

  predicate Stays(e: Entry, db: Connection) { Released(e, db).Active() }

  /** Registered on db, but blocked by somebody else since: db's end leaves it listed without a callback. */
  predicate Demoted(e: Entry, db: Connection) {
    e.unlock == db && e.blocking != null && e.blocking != db
  }

  predicate Bare(e: Entry, db: Connection) {
    Stays(e, db) && (e.notify == NO_CALLBACK || Demoted(e, db))
  }

  /**
   The end of db's transaction tears a group apart at i, j, k: a demoted connection stands between
   two registrations of its callback that stay, or a registration that stays stands between two
   connections that end up without a callback.
   */
  predicate TornAt(s: State, db: Connection, i: nat, j: nat, k: nat)
    requires i < j < k < |s.list|
  {
    Torn(At(s.entry, s.list[i]), At(s.entry, s.list[j]), At(s.entry, s.list[k]), db)
  }

  predicate Torn(a: Entry, b: Entry, c: Entry, db: Connection) {
    || (Demoted(b, db) && a.unlock != db && c.unlock != db && Stays(a, db) && Stays(c, db)
        && a.notify == c.notify == b.notify)
    || (Bare(a, db) && Bare(c, db) && Stays(b, db) && !Bare(b, db))
  }

  predicate CallbackIffRegistered(e: Entry) { e.Registered() <==> e.notify != NO_CALLBACK }

  ghost predicate Tears(s: State, db: Connection) {
    exists i: nat, j: nat, k: nat :: i < j < k < |s.list| && TornAt(s, db, i, j, k)
  }

  /** The entries that stay, before and after. */
  lemma StayingEntries(s: State, db: Connection) returns (pos: seq<nat>)
    ensures |pos| == |Unlocked(s, db).list|
    ensures forall n :: 0 <= n < |pos| ==> pos[n] < |s.list| && Stays(At(s.entry, s.list[pos[n]]), db)
    ensures forall n :: 0 <= n < |pos| ==>
              At(Unlocked(s, db).entry, Unlocked(s, db).list[n]) == Released(At(s.entry, s.list[pos[n]]), db)
    ensures forall m, n :: 0 <= m < n < |pos| ==> pos[m] < pos[n]
    ensures forall i :: 0 <= i < |s.list| && Stays(At(s.entry, s.list[i]), db) ==> i in pos
  {
    pos := KeptPositions(s.list, s.entry, db);
    assert forall n :: 0 <= n < |pos| ==> pos[n] in pos;
  }

  lemma Locate(pos: seq<nat>, i: nat, j: nat, k: nat) returns (x: nat, y: nat, z: nat)
    requires forall m, n :: 0 <= m < n < |pos| ==> pos[m] < pos[n]
    requires i < j < k && i in pos && j in pos && k in pos
    ensures x < y < z < |pos| && pos[x] == i && pos[y] == j && pos[z] == k
  {
    x :| x < |pos| && pos[x] == i;
    y :| y < |pos| && pos[y] == j;
    z :| z < |pos| && pos[z] == k;
  }

  lemma TornEntries(a: Entry, b: Entry, c: Entry, db: Connection)
    requires CallbackIffRegistered(a) && CallbackIffRegistered(b) && CallbackIffRegistered(c)
    requires Torn(a, b, c, db)
    ensures Stays(a, db) && Stays(b, db) && Stays(c, db)
    ensures Released(a, db).notify == Released(c, db).notify != Released(b, db).notify
  {
  }

  lemma TornIsUngrouped(s: State, db: Connection)
    requires forall c :: CallbackIffRegistered(At(s.entry, c))
    requires Tears(s, db)
    ensures !AllGrouped(Unlocked(s, db).entry, Unlocked(s, db).list)
  {
    var i: nat, j: nat, k: nat :| i < j < k < |s.list| && TornAt(s, db, i, j, k);
    TornEntries(At(s.entry, s.list[i]), At(s.entry, s.list[j]), At(s.entry, s.list[k]), db);
    var pos := StayingEntries(s, db);
    var x, y, z := Locate(pos, i, j, k);
    assert !Together(Unlocked(s, db).entry, Unlocked(s, db).list, x, y, z);
  }

  lemma UntornEntries(a: Entry, b: Entry, c: Entry, db: Connection)
    requires CallbackIffRegistered(a) && CallbackIffRegistered(b) && CallbackIffRegistered(c)
    requires !Torn(a, b, c, db) && (a.notify == c.notify ==> b.notify == c.notify)
    requires Stays(a, db) && Stays(b, db) && Stays(c, db)
    ensures Released(a, db).notify == Released(c, db).notify ==> Released(b, db).notify == Released(c, db).notify
  {
  }

  lemma LinkedEntry(s: State, c: Connection)
    requires Inv(s)
    ensures CallbackIffRegistered(At(s.entry, c))
  {
  }

  lemma UntornTriple(s: State, db: Connection, i: nat, j: nat, k: nat)
    requires Inv(s) && AllGrouped(s.entry, s.list) && !Tears(s, db) && i < j < k < |s.list|
    requires Stays(At(s.entry, s.list[i]), db) && Stays(At(s.entry, s.list[j]), db) && Stays(At(s.entry, s.list[k]), db)
    ensures Released(At(s.entry, s.list[i]), db).notify == Released(At(s.entry, s.list[k]), db).notify ==>
            Released(At(s.entry, s.list[j]), db).notify == Released(At(s.entry, s.list[k]), db).notify
  {
    assert Together(s.entry, s.list, i, j, k);
    assert !TornAt(s, db, i, j, k);
    LinkedEntry(s, s.list[i]);
    LinkedEntry(s, s.list[j]);
    LinkedEntry(s, s.list[k]);
    UntornEntries(At(s.entry, s.list[i]), At(s.entry, s.list[j]), At(s.entry, s.list[k]), db);
  }

  lemma UntornIsGrouped(s: State, db: Connection)
    requires Inv(s) && AllGrouped(s.entry, s.list) && !Tears(s, db)
    ensures AllGrouped(Unlocked(s, db).entry, Unlocked(s, db).list)
  {
    var t := Unlocked(s, db);
    var pos := StayingEntries(s, db);
    forall i: nat, j: nat, k: nat | i < j < k < |t.list|
      ensures Together(t.entry, t.list, i, j, k)
    {
      UntornTriple(s, db, pos[i], pos[j], pos[k]);
    }
  }

  /** Property (2) of checkListProperties survives the end of a transaction exactly when no group is torn. */
  lemma AllGroupedIffNotTorn(s: State, db: Connection)
    requires Inv(s) && AllGrouped(s.entry, s.list)
    ensures AllGrouped(Unlocked(s, db).entry, Unlocked(s, db).list) <==> !Tears(s, db)
  {
    if Tears(s, db) {
      TornIsUngrouped(s, db);
    } else {
      UntornIsGrouped(s, db);
    }
  }

  // ----- a run on which the debug check fails -----

  lemma Extend(run: seq<Event>, op: Op, out: Outcome, t: State) returns (longer: seq<Event>)
    requires IsRun(run) && Next(Last(run), op, out, t)
    ensures IsRun(longer) && Last(longer) == t
  {
    longer := run + [Event(op, out, t)];
    assert longer[..|longer| - 1] == run;
  }

  lemma {:induction false} ChainStops(entry: Entries, p: Connection, k: nat)
    requires p in entry && entry[p].unlock == null
    ensures k >= 1 ==> Chain(entry, p, k) == null
  {
    if k > 1 {
      ChainStops(entry, p, k - 1);
    } else if k == 1 {
      assert Chain(entry, p, 0) == p;
    }
  }

  lemma WaitsForIdle(entry: Entries, db: Connection, blocker: Connection)
    requires db in entry && blocker in entry && db != blocker
    requires entry[db].blocking == blocker && entry[blocker].unlock == null
    ensures !WouldDeadlock(entry, db)
  {
    forall k: nat
      ensures Chain(entry, blocker, k) != db
    {
      ChainStops(entry, blocker, k);
      assert Chain(entry, blocker, 0) == blocker;
    }
  }

  lemma OpenOne(run: seq<Event>, db: Connection) returns (longer: seq<Event>)
    requires IsRun(run) && db !in Last(run).entry
    ensures IsRun(longer) && Last(longer) == Last(run).(entry := Last(run).entry[db := IDLE])
  {
    longer := Extend(run, Open(db), Outcome(SQLITE_OK, []), Last(run).(entry := Last(run).entry[db := IDLE]));
  }

  /** db is blocked by an idle connection and registers on it; it moves to the front of the list's only group. */
  lemma LockAndRegister(run: seq<Event>, db: Connection, blocker: Connection, f: Callback, arg: Arg)
      returns (longer: seq<Event>)
    requires IsRun(run) && f != NO_CALLBACK && db != blocker
    requires db in Last(run).entry && blocker in Last(run).entry && db !in Last(run).list
    requires Last(run).entry[db] == IDLE && Last(run).entry[blocker] == IDLE
    requires forall i :: 0 <= i < |Last(run).list| ==> At(Last(run).entry, Last(run).list[i]).notify == f
    ensures IsRun(longer)
    ensures Last(longer) == State(Last(run).entry[db := Entry(blocker, blocker, f, arg)], [db] + Last(run).list)
  {
    var s := Last(run);
    var t := Blocked(s, db, blocker);
    LockedAtEnd(s, db, blocker, f);
    longer := Extend(run, Lock(db, blocker), Outcome(SQLITE_OK, []), t);
    WaitsForIdle(t.entry, db, blocker);
    RegisteredInFront(t, s.list, db, f, arg);
    longer := Extend(longer, Notify(db, f, arg), Outcome(SQLITE_OK, []), Registration(t, db, f, arg));
    assert Registration(t, db, f, arg).entry == s.entry[db := Entry(blocker, blocker, f, arg)];
  }

  lemma LockedAtEnd(s: State, db: Connection, blocker: Connection, f: Callback)
    requires db in s.entry && s.entry[db] == IDLE && f != NO_CALLBACK
    requires forall i :: 0 <= i < |s.list| ==> At(s.entry, s.list[i]).notify == f
    ensures Blocked(s, db, blocker).list == s.list + [db]
  {
  }

  lemma RegisteredInFront(t: State, list: seq<Connection>, db: Connection, f: Callback, arg: Arg)
    requires db in t.entry && db !in list && t.list == list + [db]
    requires forall i :: 0 <= i < |list| ==> At(t.entry, list[i]).notify == f
    ensures Registration(t, db, f, arg).list == [db] + list
  {
    assert t.list[|list|] == db;
    assert Position(t.list, db) == |list|;
    assert Without(t.list, db) == list;
  }

  lemma OpenFive(a: Connection, b: Connection, c: Connection, d: Connection, e: Connection) returns (run: seq<Event>)
    requires NoDuplicates([a, b, c, d, e])
    ensures IsRun(run) && Last(run) == State(map[a := IDLE, b := IDLE, c := IDLE, d := IDLE, e := IDLE], [])
  {
    var all := [a, b, c, d, e];
    assert all[0] != all[1] && all[0] != all[2] && all[0] != all[3] && all[0] != all[4] && all[1] != all[2];
    assert all[1] != all[3] && all[1] != all[4] && all[2] != all[3] && all[2] != all[4] && all[3] != all[4];
    run := OpenOne([], a);
    run := OpenOne(run, b);
    run := OpenOne(run, c);
    run := OpenOne(run, d);
    run := OpenOne(run, e);
  }

  /** a and c are registered on d, and b between them on e but blocked by d since. */
  lemma Interleave(a: Connection, b: Connection, c: Connection, d: Connection, e: Connection, f: Callback)
      returns (run: seq<Event>)
    requires NoDuplicates([a, b, c, d, e]) && f != NO_CALLBACK
    ensures IsRun(run) && Last(run).list == [a, b, c] && e in Last(run).entry
    ensures At(Last(run).entry, a) == Entry(d, d, f, 1)
    ensures At(Last(run).entry, b) == Entry(d, e, f, 2)
    ensures At(Last(run).entry, c) == Entry(d, d, f, 3)
  {
    var all := [a, b, c, d, e];
    assert all[0] != all[1] && all[0] != all[2] && all[0] != all[3] && all[0] != all[4] && all[1] != all[2];
    assert all[1] != all[3] && all[1] != all[4] && all[2] != all[3] && all[2] != all[4] && all[3] != all[4];
    run := OpenFive(a, b, c, d, e);
    run := LockAndRegister(run, c, d, f, 3);
    run := LockAndRegister(run, b, e, f, 2);
    run := LockAndRegister(run, a, d, f, 1);
    run := Extend(run, Lock(b, d), Outcome(SQLITE_OK, []), Blocked(Last(run), b, d));
  }

  lemma InterleavedTears(s: State, a: Connection, b: Connection, c: Connection, d: Connection, e: Connection,
                         f: Callback)
    requires s.list == [a, b, c] && d != e && f != NO_CALLBACK
    requires At(s.entry, a) == Entry(d, d, f, 1)
    requires At(s.entry, b) == Entry(d, e, f, 2)
    requires At(s.entry, c) == Entry(d, d, f, 3)
    ensures AllGrouped(s.entry, s.list) && Tears(s, e)
  {
    assert TornAt(s, e, 0, 1, 2);
  }

  /**
   Connections a and c register the callback f on d, and b between them on e; then b is blocked by d
   as well. When e's transaction ends, b keeps its place between a and c but has no callback any more.
   */
  lemma DebugCheckCanFail(a: Connection, b: Connection, c: Connection, d: Connection, e: Connection, f: Callback)
      returns (run: seq<Event>, out: Outcome, t: State)
    requires NoDuplicates([a, b, c, d, e]) && f != NO_CALLBACK
    ensures IsRun(run) && AllGrouped(Last(run).entry, Last(run).list)
    ensures Next(Last(run), EndTransaction(e, true), out, t) && !AllGrouped(t.entry, t.list)
  {
    run := Interleave(a, b, c, d, e, f);
    var s := Last(run);
    assert d != e by { assert [a, b, c, d, e][3] != [a, b, c, d, e][4]; }
    InterleavedTears(s, a, b, c, d, e, f);
    ReachableInv(run);
    AllGroupedIffNotTorn(s, e);
    DueIsContiguous(s, e);
    out, t := Outcome(SQLITE_OK, Bundle(Due(s.list, s.entry, e))), Unlocked(s, e);
  }

  // ----- when a new callback replaces the old one -----

  /**
   An accepted call replaces the callback that the connection already has exactly when the connection
   has a recorded blocker. Without one the new callback is invoked at once and the old one stays.
   */
  lemma ReplacesIffBlocked(s: State, db: Connection, notify: Callback, arg: Arg, out: Outcome, t: State)
    requires Inv(s) && db in s.entry && s.entry[db].Registered() && notify != NO_CALLBACK
    requires Next(s, Notify(db, notify, arg), out, t) && out.rc == SQLITE_OK
    ensures s.entry[db].blocking != null ==>
              t.entry[db] == Entry(s.entry[db].blocking, s.entry[db].blocking, notify, arg) && out.calls == []
    ensures s.entry[db].blocking == null ==> t.entry[db] == s.entry[db] && out.calls == [Call(notify, [arg])]
    ensures (forall r: Reg :: Held(t.entry[db], r) == if r == (notify, arg) then 1 else 0) <==>
              s.entry[db].blocking != null || (s.entry[db].notify, s.entry[db].arg) == (notify, arg)
  {
    assert Held(t.entry[db], (t.entry[db].notify, t.entry[db].arg)) == 1;
  }

  lemma OneWaits(a: Connection, b: Connection, c: Connection, f: Callback) returns (run: seq<Event>)
    requires a != b && a != c && b != c && f != NO_CALLBACK
    ensures IsRun(run) && Last(run) == State(map[a := Entry(b, b, f, 1), b := IDLE, c := IDLE], [a])
  {
    run := OpenThree(a, b, c);
    run := LockAndRegister(run, a, b, f, 1);
    assert Last(run).entry == map[a := Entry(b, b, f, 1), b := IDLE, c := IDLE];
  }

  lemma OpenThree(a: Connection, b: Connection, c: Connection) returns (run: seq<Event>)
    requires a != b && a != c && b != c
    ensures IsRun(run) && Last(run) == State(map[a := IDLE, b := IDLE, c := IDLE], [])
  {
    run := OpenOne([], a);
    run := OpenOne(run, b);
    run := OpenOne(run, c);
    assert Last(run).entry == map[a := IDLE, b := IDLE, c := IDLE];
  }

  /** a registers f on b, is blocked by c as well, c's transaction ends: then calling with g leaves f registered. */
  lemma OldCallbackCanSurvive(a: Connection, b: Connection, c: Connection, f: Callback, g: Callback)
      returns (run: seq<Event>)
    requires a != b && a != c && b != c && f != NO_CALLBACK && g != NO_CALLBACK && f != g
    ensures IsRun(run) && Last(run).entry == map[a := Entry(null, b, f, 1), b := IDLE, c := IDLE]
    ensures Next(Last(run), Notify(a, g, 2), Outcome(SQLITE_OK, [Call(g, [2])]), Last(run))
  {
    run := OneWaits(a, b, c, f);
    var s := State(map[a := Entry(c, b, f, 1), b := IDLE, c := IDLE], [a]);
    assert Blocked(Last(run), a, c) == s;
    run := Extend(run, Lock(a, c), Outcome(SQLITE_OK, []), s);
    assert s.list[..0] == [];
    assert Due(s.list, s.entry, c) == [];
    var t := Unlocked(s, c);
    assert t.entry == map[a := Entry(null, b, f, 1), b := IDLE, c := IDLE];
    run := Extend(run, EndTransaction(c, true), Outcome(SQLITE_OK, []), t);
  }
}
