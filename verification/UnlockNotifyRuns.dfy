/**
 All runs of the unlock-notify protocol: what every step keeps, what happens to each registered
 callback, and how far the list stays grouped by callback.
 */
module UnlockNotifyRuns {
  import opened BlockedList
  import opened Lists
  import opened WaitsFor

  datatype Op =
    | Open(db: Connection)
    | Lock(db: Connection, blocker: Connection)
    | Notify(db: Connection, notify: Callback, arg: Arg)
    | EndTransaction(db: Connection, memory: bool)  // memory: no allocation failed on the way
    | Close(db: Connection, memory: bool)

  datatype Outcome = Outcome(rc: int, calls: seq<Call>)

  /** The calls made when the transaction of db ends. */
  ghost predicate Announces(s: State, db: Connection, memory: bool, calls: seq<Call>)
  {
    Delivered(calls) == Due(s.list, s.entry, db) && (memory ==> Bundled(calls))
  }

  ghost predicate Next(s: State, op: Op, out: Outcome, t: State) {
    match op
    case Open(db) => db !in s.entry && out == Outcome(SQLITE_OK, []) && t == s.(entry := s.entry[db := IDLE])
    case Lock(db, blocker) =>
         db in s.entry && blocker in s.entry && out == Outcome(SQLITE_OK, []) && t == Blocked(s, db, blocker)
    case Notify(db, notify, arg) =>
         && db in s.entry
         && if notify == NO_CALLBACK then out == Outcome(SQLITE_OK, []) && t == Cancelled(s, db)
            else if s.entry[db].blocking == null then out == Outcome(SQLITE_OK, [Call(notify, [arg])]) && t == s
            else if WouldDeadlock(s.entry, db) then out == Outcome(SQLITE_LOCKED, []) && t == s
            else out == Outcome(SQLITE_OK, []) && t == Registration(s, db, notify, arg)
    case EndTransaction(db, memory) =>
         db in s.entry && out.rc == SQLITE_OK && Announces(s, db, memory, out.calls) && t == Unlocked(s, db)
    case Close(db, memory) =>
         db in s.entry && out.rc == SQLITE_OK && Announces(s, db, memory, out.calls) && t == Closed(s, db)
  }

  // ----- every step keeps the invariant -----

  lemma InsertedKeepsGroups(entry: Entries, list: seq<Connection>, db: Connection)
    requires forall c :: c in entry ==> (entry[c].Registered() <==> entry[c].notify != NO_CALLBACK)
    requires RegisteredGrouped(entry, list)
    ensures RegisteredGrouped(entry, Inserted(list, entry, db))
  {
    var r := Inserted(list, entry, db);
    forall i: nat, j: nat, k: nat | i < j < k < |r| && At(entry, r[j]).Registered() && At(entry, r[k]).Registered()
      ensures Together(entry, r, i, j, k)
    {
      InsertedTogether(entry, list, db, i, j, k);
    }
  }

  lemma InsertedTogether(entry: Entries, list: seq<Connection>, db: Connection, i: nat, j: nat, k: nat)
    requires forall c :: At(entry, c).Registered() <==> At(entry, c).notify != NO_CALLBACK
    requires RegisteredGrouped(entry, list)
    requires i < j < k <= |list|
    requires At(entry, Inserted(list, entry, db)[j]).Registered()
    requires At(entry, Inserted(list, entry, db)[k]).Registered()
    ensures Together(entry, Inserted(list, entry, db), i, j, k)
  {
    var p := GroupStart(list, entry, At(entry, db).notify);
    if i != p && j != p && k != p {
      assert Together(entry, list, if i < p then i else i - 1, if j < p then j else j - 1, if k < p then k else k - 1);
    } else if i == p && j != p + 1 {
      assert Together(entry, list, p, j - 1, k - 1);  // db opens its group
    } else if j == p && k != p + 1 {
      assert Together(entry, list, i, p, k - 1);
    }
  }

  lemma WithoutKeepsGroups(entry: Entries, list: seq<Connection>, db: Connection)
    requires RegisteredGrouped(entry, list)
    ensures RegisteredGrouped(entry, Without(list, db))
  {
    var p := Position(list, db);
    var r := Without(list, db);
    if p < |list| {
      forall i: nat, j: nat, k: nat | i < j < k < |r| && At(entry, r[j]).Registered() && At(entry, r[k]).Registered()
        ensures Together(entry, r, i, j, k)
      {
        var from := (n: nat) => if n < p then n else n + 1;
        assert Together(entry, list, from(i), from(j), from(k));
      }
    }
  }

  /** A change of entries that leaves the callbacks of the listed connections alone leaves the groups alone. */
  lemma SameCallbacksSameGroups(entry: Entries, after: Entries, list: seq<Connection>)
    requires forall c :: c in list ==>
               At(after, c).notify == At(entry, c).notify && At(after, c).unlock == At(entry, c).unlock
    requires RegisteredGrouped(entry, list)
    ensures RegisteredGrouped(after, list)
  {
    forall i: nat, j: nat, k: nat |
      i < j < k < |list| && At(after, list[j]).Registered() && At(after, list[k]).Registered()
      ensures Together(after, list, i, j, k)
    {
      assert Together(entry, list, i, j, k);
    }
  }

  lemma KeptTriple(entry: Entries, list: seq<Connection>, db: Connection, i: nat, j: nat, k: nat)
    requires forall c :: c in entry ==> (entry[c].Registered() <==> entry[c].notify != NO_CALLBACK)
    requires RegisteredGrouped(entry, list) && i < j < k < |list|
    requires Released(At(entry, list[j]), db).Registered() && Released(At(entry, list[k]), db).Registered()
    ensures Released(At(entry, list[i]), db).notify == Released(At(entry, list[k]), db).notify ==>
            Released(At(entry, list[j]), db).notify == Released(At(entry, list[k]), db).notify
  {
    assert Together(entry, list, i, j, k);
  }

  lemma KeptKeepsGroups(entry: Entries, after: Entries, list: seq<Connection>, db: Connection)
    requires forall c :: c in list ==> At(after, c) == Released(At(entry, c), db)
    requires forall c :: c in entry ==> (entry[c].Registered() <==> entry[c].notify != NO_CALLBACK)
    requires RegisteredGrouped(entry, list)
    ensures RegisteredGrouped(after, Kept(list, entry, db))
  {
    var pos := KeptPositions(list, entry, db);
    var r := Kept(list, entry, db);
    forall i: nat, j: nat, k: nat | i < j < k < |r| && At(after, r[j]).Registered() && At(after, r[k]).Registered()
      ensures Together(after, r, i, j, k)
    {
      KeptTriple(entry, list, db, pos[i], pos[j], pos[k]);
    }
  }

  lemma BlockedKeepsInv(s: State, db: Connection, blocker: Connection)
    requires Inv(s) && db in s.entry && blocker in s.entry
    ensures Inv(Blocked(s, db, blocker))
  {
    var t := Blocked(s, db, blocker);
    assert RegisteredGrouped(s.entry, t.list) by {
      if !s.entry[db].Active() {
        InsertedKeepsGroups(s.entry, s.list, db);
      }
    }
    SameCallbacksSameGroups(s.entry, t.entry, t.list);
    assert Listed(t.entry, t.list) by {
      if !s.entry[db].Active() {
        InsertedMembers(s.list, s.entry, db);
      }
    }
    FewerEdgesKeepAcyclic(s.entry, t.entry);
  }

  lemma RegistrationKeepsInv(s: State, db: Connection, notify: Callback, arg: Arg)
    requires Inv(s) && db in s.entry && notify != NO_CALLBACK
    requires s.entry[db].blocking != null && !WouldDeadlock(s.entry, db)
    ensures Inv(Registration(s, db, notify, arg))
  {
    var t := Registration(s, db, notify, arg);
    var list := Without(s.list, db);
    assert Listed(t.entry, t.list) by {
      WithoutMembers(s.list, db);
      InsertedMembers(list, t.entry, db);
    }
    assert RegisteredGrouped(t.entry, t.list) by {
      WithoutMembers(s.list, db);
      WithoutKeepsGroups(s.entry, s.list, db);
      SameCallbacksSameGroups(s.entry, t.entry, list);
      InsertedKeepsGroups(t.entry, list, db);
    }
    NewEdgeKeepsAcyclic(s.entry, db, t.entry[db]);
  }

  lemma CancelledKeepsInv(s: State, db: Connection)
    requires Inv(s) && db in s.entry
    ensures Inv(Cancelled(s, db))
  {
    var t := Cancelled(s, db);
    WithoutMembers(s.list, db);
    WithoutKeepsGroups(s.entry, s.list, db);
    SameCallbacksSameGroups(s.entry, t.entry, t.list);
    FewerEdgesKeepAcyclic(s.entry, t.entry);
  }

  lemma UnlockedKeepsInv(s: State, db: Connection)
    requires Inv(s) && db in s.entry
    ensures Inv(Unlocked(s, db))
  {
    var t := Unlocked(s, db);
    assert Listed(t.entry, t.list) by { KeptMembers(s.list, s.entry, db); }
    FewerEdgesKeepAcyclic(s.entry, t.entry);
    KeptKeepsGroups(s.entry, t.entry, s.list, db);
  }

  lemma ClosedKeepsInv(s: State, db: Connection)
    requires Inv(s) && db in s.entry
    ensures Inv(Closed(s, db))
  {
    var u := Unlocked(s, db);
    var t := Closed(s, db);
    UnlockedKeepsInv(s, db);
    assert Listed(t.entry, t.list) by { WithoutMembers(u.list, db); }
    WithoutKeepsGroups(u.entry, u.list, db);
    SameCallbacksSameGroups(u.entry, t.entry, t.list);
    FewerEdgesKeepAcyclic(u.entry, t.entry);
  }

  lemma OpenedKeepsInv(s: State, db: Connection)
    requires Inv(s) && db !in s.entry
    ensures Inv(s.(entry := s.entry[db := IDLE]))
  {
    var t := s.(entry := s.entry[db := IDLE]);
    SameCallbacksSameGroups(s.entry, t.entry, s.list);
    forall c, k: nat | c in t.entry && k >= 1
      ensures Chain(t.entry, c, k) != c
    {
      OpenedChain(s.entry, db, c, k);
      if c in s.entry { ChainOpen(s.entry, c, k); }
    }
  }

  lemma {:induction false} OpenedChain(entry: Entries, db: Connection, c: Connection?, k: nat)
    requires db !in entry
    ensures k >= 1 ==> Chain(entry[db := IDLE], c, k) == Chain(entry, c, k) && (c == db ==> Chain(entry, c, k) == null)
  {
    if k > 1 {
      OpenedChain(entry, db, c, k - 1);
    } else if k == 1 {
      assert Chain(entry, c, 0) == c == Chain(entry[db := IDLE], c, 0);
    }
  }

  lemma StepKeepsInv(s: State, op: Op, out: Outcome, t: State)
    requires Inv(s) && Next(s, op, out, t)
    ensures Inv(t)
  {
    match op
    case Open(db) => OpenedKeepsInv(s, db);
    case Lock(db, blocker) => BlockedKeepsInv(s, db, blocker);
    case Notify(db, notify, arg) =>
      if notify == NO_CALLBACK {
        CancelledKeepsInv(s, db);
      } else if s.entry[db].blocking != null && !WouldDeadlock(s.entry, db) {
        RegistrationKeepsInv(s, db, notify, arg);
      }
    case EndTransaction(db, _) => UnlockedKeepsInv(s, db);
    case Close(db, _) => ClosedKeepsInv(s, db);
  }

  // ----- runs -----

  datatype Event = Event(op: Op, out: Outcome, after: State)

  const EMPTY := State(map[], [])

  ghost function Last(run: seq<Event>): State {
    if run == [] then EMPTY else run[|run| - 1].after
  }

  ghost predicate IsRun(run: seq<Event>) {
    run == [] ||
    var e := run[|run| - 1];
    IsRun(run[..|run| - 1]) && Next(Last(run[..|run| - 1]), e.op, e.out, e.after)
  }

  /** Every reachable state satisfies the invariant; in particular its waits-for relation is acyclic. */
  lemma {:induction false} ReachableInv(run: seq<Event>)
    requires IsRun(run)
    ensures Inv(Last(run))
  {
    if run != [] {
      var e := run[|run| - 1];
      ReachableInv(run[..|run| - 1]);
      StepKeepsInv(Last(run[..|run| - 1]), e.op, e.out, e.after);
    } else {
      assert Acyclic(EMPTY.entry);
    }
  }

  /**
   Along every run, a registration is refused with SQLITE_LOCKED exactly when it would make the
   waits-for relation cyclic; a refused call changes nothing.
   */
  lemma RefusedIffCycle(run: seq<Event>, db: Connection, notify: Callback, arg: Arg, out: Outcome, t: State)
    requires IsRun(run) && Next(Last(run), Notify(db, notify, arg), out, t)
    ensures out.rc == SQLITE_LOCKED <==>
              && notify != NO_CALLBACK && Last(run).entry[db].blocking != null
              && !Acyclic(Registration(Last(run), db, notify, arg).entry)
    ensures out.rc == SQLITE_LOCKED ==> t == Last(run) && out.calls == []
    ensures out.rc == SQLITE_LOCKED || out.rc == SQLITE_OK
  {
    var s := Last(run);
    ReachableInv(run);
    if s.entry[db].blocking != null {
      DeadlockIsCycle(s.entry, db, Registration(s, db, notify, arg).entry[db]);
    }
  }

  // ----- conservation of callbacks -----

  /** A callback together with the context pointer it was registered with. */
  type Reg = (Callback, Arg)

  function Held(e: Entry, r: Reg): nat {
    if e.Registered() && e.notify == r.0 && e.arg == r.1 then 1 else 0
  }

  /** How many connections wait with registration r for a transaction to end. */
  function Pending(list: seq<Connection>, entry: Entries, r: Reg): nat
  {
    if list == [] then 0
    else Pending(list[..|list| - 1], entry, r) + Held(At(entry, list[|list| - 1]), r)
  }

  /** How often r occurs in a sequence of deliveries. */
  function Count(deliveries: seq<Reg>, r: Reg): nat {
    if deliveries == [] then 0
    else Count(deliveries[..|deliveries| - 1], r) + if deliveries[|deliveries| - 1] == r then 1 else 0
  }

  /** Whether a step accepts r: registered for later, or invoked at once. */
  function Accepted(op: Op, out: Outcome, r: Reg): nat {
    if op.Notify? && op.notify != NO_CALLBACK && out.rc == SQLITE_OK && (op.notify, op.arg) == r then 1 else 0
  }

  /** Whether a step drops r without invoking it: replaced, cancelled, or owned by a closed connection. */
  function Dropped(s: State, op: Op, out: Outcome, r: Reg): nat {
    match op
    case Notify(db, notify, _) =>
      if out.calls == [] && out.rc == SQLITE_OK then Held(At(s.entry, db), r) else 0
    case Close(db, _) => Held(Released(At(s.entry, db), db), r)
    case _ => 0
  }

  lemma {:induction false} PendingConcat(a: seq<Connection>, b: seq<Connection>, entry: Entries, r: Reg)
    ensures Pending(a + b, entry, r) == Pending(a, entry, r) + Pending(b, entry, r)
  {
    if b == [] {
      assert a + b == a;
    } else {
      var front := b[..|b| - 1];
      assert (a + b)[..|a + b| - 1] == a + front;
      PendingConcat(a, front, entry, r);
    }
  }

  lemma {:induction false} PendingSame(list: seq<Connection>, entry: Entries, after: Entries, r: Reg)
    requires forall c :: c in list ==> Held(At(after, c), r) == Held(At(entry, c), r)
    ensures Pending(list, after, r) == Pending(list, entry, r)
  {
    if list != [] {
      PendingSame(list[..|list| - 1], entry, after, r);
    }
  }

  lemma PendingMiddle(a: seq<Connection>, db: Connection, b: seq<Connection>, entry: Entries, r: Reg)
    ensures Pending(a + [db] + b, entry, r) == Pending(a + b, entry, r) + Held(At(entry, db), r)
  {
    PendingConcat(a + [db], b, entry, r);
    PendingConcat(a, [db], entry, r);
    PendingConcat(a, b, entry, r);
    assert Pending([db], entry, r) == Held(At(entry, db), r) by { assert [db][..0] == []; }
  }

  lemma PendingInserted(list: seq<Connection>, entry: Entries, db: Connection, r: Reg)
    ensures Pending(Inserted(list, entry, db), entry, r) == Pending(list, entry, r) + Held(At(entry, db), r)
  {
    var p := GroupStart(list, entry, At(entry, db).notify);
    assert list == list[..p] + list[p..];
    PendingMiddle(list[..p], db, list[p..], entry, r);
  }

  lemma PendingWithout(list: seq<Connection>, entry: Entries, db: Connection, r: Reg)
    requires At(entry, db).Registered() ==> db in list
    ensures Pending(list, entry, r) == Pending(Without(list, db), entry, r) + Held(At(entry, db), r)
  {
    var p := Position(list, db);
    if p < |list| {
      var a, b := list[..p], list[p + 1..];
      assert list == a + [db] + b && Without(list, db) == a + b;
      PendingMiddle(a, db, b, entry, r);
    } else {
      assert Without(list, db) == list && Held(At(entry, db), r) == 0;
    }
  }

  lemma CountSnoc(deliveries: seq<Reg>, last: Reg, r: Reg)
    ensures Count(deliveries + [last], r) == Count(deliveries, r) + if last == r then 1 else 0
  {
    assert (deliveries + [last])[..|deliveries|] == deliveries;
  }

  lemma HeldReleased(e: Entry, db: Connection, r: Reg)
    ensures Held(e, r) == (if Released(e, db).Active() then Held(Released(e, db), r) else 0)
                        + (if e.unlock == db && (e.notify, e.arg) == r then 1 else 0)
  {
  }

  /** A transaction end moves every callback registered on it from pending to delivered. */
  lemma {:induction false} PendingReleased(list: seq<Connection>, entry: Entries, after: Entries, db: Connection,
                                           r: Reg)
    requires forall c :: c in list ==> At(after, c) == Released(At(entry, c), db)
    ensures Pending(list, entry, r) == Pending(Kept(list, entry, db), after, r) + Count(Due(list, entry, db), r)
  {
    if list != [] {
      var front, last := list[..|list| - 1], list[|list| - 1];
      var e := At(entry, last);
      PendingReleased(front, entry, after, db, r);
      CountSnoc(Due(front, entry, db), (e.notify, e.arg), r);
      HeldReleased(e, db, r);
    }
  }

  lemma ImmediateDelivery(notify: Callback, arg: Arg, r: Reg)
    ensures Count(Delivered([Call(notify, [arg])]), r) == if (notify, arg) == r then 1 else 0
  {
    var calls := [Call(notify, [arg])];
    assert calls[..0] == [];
    assert Delivered(calls) == [(notify, arg)];
    assert Delivered(calls)[..0] == [];
  }

  lemma LockConserves(s: State, db: Connection, blocker: Connection, r: Reg)
    requires Inv(s) && db in s.entry && blocker in s.entry && Inv(Blocked(s, db, blocker))
    ensures Pending(s.list, s.entry, r) == Pending(Blocked(s, db, blocker).list, Blocked(s, db, blocker).entry, r)
  {
    var t := Blocked(s, db, blocker);
    if !s.entry[db].Active() {
      PendingInserted(s.list, s.entry, db, r);
    }
    PendingSame(t.list, s.entry, t.entry, r);
  }

  lemma CancelConserves(s: State, db: Connection, r: Reg)
    requires Inv(s) && db in s.entry
    ensures Pending(s.list, s.entry, r)
         == Pending(Cancelled(s, db).list, Cancelled(s, db).entry, r) + Held(At(s.entry, db), r)
  {
    var t := Cancelled(s, db);
    WithoutMembers(s.list, db);
    PendingWithout(s.list, s.entry, db, r);
    PendingSame(t.list, s.entry, t.entry, r);
  }

  lemma RegistrationConserves(s: State, db: Connection, notify: Callback, arg: Arg, r: Reg)
    requires Inv(s) && db in s.entry
    ensures var t := Registration(s, db, notify, arg);
            Pending(s.list, s.entry, r) + Held(At(t.entry, db), r)
              == Pending(t.list, t.entry, r) + Held(At(s.entry, db), r)
  {
    var t, rest := Registration(s, db, notify, arg), Without(s.list, db);
    WithoutMembers(s.list, db);
    PendingWithout(s.list, s.entry, db, r);
    PendingSame(rest, s.entry, t.entry, r);
    PendingInserted(rest, t.entry, db, r);
  }

  lemma NotifyConserves(s: State, db: Connection, notify: Callback, arg: Arg, out: Outcome, t: State, r: Reg)
    requires Inv(s) && Inv(t) && Next(s, Notify(db, notify, arg), out, t)
    ensures Pending(s.list, s.entry, r) + Accepted(Notify(db, notify, arg), out, r)
         == Pending(t.list, t.entry, r) + Count(Delivered(out.calls), r) + Dropped(s, Notify(db, notify, arg), out, r)
  {
    if notify == NO_CALLBACK {
      CancelConserves(s, db, r);
    } else if s.entry[db].blocking == null {
      ImmediateDelivery(notify, arg, r);
    } else if !WouldDeadlock(s.entry, db) {
      RegistrationConserves(s, db, notify, arg, r);
    }
  }

  lemma CloseConserves(s: State, db: Connection, r: Reg)
    requires Inv(s) && db in s.entry && Inv(Closed(s, db))
    ensures Pending(s.list, s.entry, r)
         == Pending(Closed(s, db).list, Closed(s, db).entry, r)
          + Count(Due(s.list, s.entry, db), r) + Held(Released(At(s.entry, db), db), r)
  {
    var u := Unlocked(s, db);
    var t := Closed(s, db);
    UnlockedKeepsInv(s, db);
    PendingReleased(s.list, s.entry, u.entry, db, r);
    PendingWithout(u.list, u.entry, db, r);
    PendingSame(t.list, u.entry, t.entry, r);
  }

  /** One step: what was pending or is accepted is pending afterwards, delivered, or dropped. */
  lemma StepConserves(s: State, op: Op, out: Outcome, t: State, r: Reg)
    requires Inv(s) && Next(s, op, out, t)
    ensures Inv(t)
    ensures Pending(s.list, s.entry, r) + Accepted(op, out, r)
         == Pending(t.list, t.entry, r) + Count(Delivered(out.calls), r) + Dropped(s, op, out, r)
  {
    StepKeepsInv(s, op, out, t);
    match op
    case Open(db) => PendingSame(s.list, s.entry, t.entry, r);
    case Lock(db, blocker) => LockConserves(s, db, blocker, r);
    case Notify(db, notify, arg) => NotifyConserves(s, db, notify, arg, out, t, r);
    case EndTransaction(db, _) => PendingReleased(s.list, s.entry, t.entry, db, r);
    case Close(db, _) => CloseConserves(s, db, r);
  }

  ghost function TotalAccepted(run: seq<Event>, r: Reg): nat {
    if run == [] then 0
    else TotalAccepted(run[..|run| - 1], r) + Accepted(run[|run| - 1].op, run[|run| - 1].out, r)
  }

  ghost function TotalDelivered(run: seq<Event>, r: Reg): nat {
    if run == [] then 0
    else TotalDelivered(run[..|run| - 1], r) + Count(Delivered(run[|run| - 1].out.calls), r)
  }

  ghost function TotalDropped(run: seq<Event>, r: Reg): nat {
    if run == [] then 0
    else TotalDropped(run[..|run| - 1], r) + Dropped(Last(run[..|run| - 1]), run[|run| - 1].op, run[|run| - 1].out, r)
  }

  /**
   Over every run and for every callback and context pointer, what was accepted was delivered once,
   or dropped once, or is still pending.
   */
  lemma {:induction false} RunConserves(run: seq<Event>, r: Reg)
    requires IsRun(run)
    ensures Inv(Last(run))
    ensures TotalAccepted(run, r)
         == TotalDelivered(run, r) + TotalDropped(run, r) + Pending(Last(run).list, Last(run).entry, r)
  {
    ReachableInv(run);
    if run != [] {
      var e := run[|run| - 1];
      RunConserves(run[..|run| - 1], r);
      StepConserves(Last(run[..|run| - 1]), e.op, e.out, e.after, r);
    }
  }
}
