/**
 The unlock-notify protocol told from the calls and their answers alone: which connection a run has recorded
 as the blocker of another one, which registrations are pending, and what every call answers.
 */
module UnlockHistory {
  import opened BlockedList
  import opened Lists
  import opened UnlockNotifyRuns

  /** What has been recorded or registered is forgotten when x ends its transaction or closes, or db closes. */
  predicate Concludes(op: Op, db: Connection, x: Connection) {
    match op
    case EndTransaction(c, _) => c == x
    case Close(c, _) => c == x || c == db
    case _ => false
  }

  /** The record that x blocks db is replaced or forgotten. */
  predicate ForgetsBlocker(e: Event, db: Connection, x: Connection) {
    match e.op
    case Lock(c, _) => c == db
    case Notify(c, notify, _) => c == db && notify == NO_CALLBACK
    case _ => Concludes(e.op, db, x)
  }

  predicate Locks(e: Event, db: Connection, x: Connection) { e.op == Lock(db, x) }

  /** After n events: x is the blocker in the latest SQLITE_LOCKED of db, and nothing has concluded that since. */
  ghost predicate Blocks(run: seq<Event>, n: nat, db: Connection, x: Connection)
    requires n <= |run|
  {
    exists k {:trigger Locks(run[k], db, x)} ::
      0 <= k < n && Locks(run[k], db, x)
      && forall j {:trigger ForgetsBlocker(run[j], db, x)} :: k < j < n ==> !ForgetsBlocker(run[j], db, x)
  }

  lemma BlocksNext(run: seq<Event>, n: nat, db: Connection, x: Connection)
    requires n < |run|
    ensures Blocks(run, n + 1, db, x) <==>
              Locks(run[n], db, x) || (Blocks(run, n, db, x) && !ForgetsBlocker(run[n], db, x))
  {
    if Blocks(run, n + 1, db, x) && !Locks(run[n], db, x) {
      var k :| 0 <= k < n + 1 && Locks(run[k], db, x)
        && forall j {:trigger ForgetsBlocker(run[j], db, x)} :: k < j < n + 1 ==> !ForgetsBlocker(run[j], db, x);
      assert !ForgetsBlocker(run[n], db, x);
    }
    if Blocks(run, n, db, x) && !ForgetsBlocker(run[n], db, x) {
      var k :| 0 <= k < n && Locks(run[k], db, x)
        && forall j {:trigger ForgetsBlocker(run[j], db, x)} :: k < j < n ==> !ForgetsBlocker(run[j], db, x);
      assert forall j {:trigger ForgetsBlocker(run[j], db, x)} :: k < j < n + 1 ==> !ForgetsBlocker(run[j], db, x);
    }
  }

  /** A call that is accepted without calling back at once registers its callback. */
  predicate Registers(e: Event, db: Connection, r: Reg) {
    e.op == Notify(db, r.0, r.1) && r.0 != NO_CALLBACK && e.out == Outcome(SQLITE_OK, [])
  }

  /** A registration of db on x is replaced, cancelled, honoured or lost. */
  predicate EndsWait(e: Event, db: Connection, x: Connection) {
    match e.op
    case Notify(c, notify, _) => c == db && (notify == NO_CALLBACK || e.out == Outcome(SQLITE_OK, []))
    case _ => Concludes(e.op, db, x)
  }

  /** Event k registers r for the end of the transaction of x. */
  ghost predicate RegistersOn(run: seq<Event>, k: nat, db: Connection, x: Connection, r: Reg)
    requires k < |run|
  {
    Registers(run[k], db, r) && Blocks(run, k, db, x)
  }

  /** After n events db waits for x with r. */
  ghost predicate Waits(run: seq<Event>, n: nat, db: Connection, x: Connection, r: Reg)
    requires n <= |run|
  {
    exists k {:trigger RegistersOn(run, k, db, x, r)} ::
      0 <= k < n && RegistersOn(run, k, db, x, r)
      && forall j {:trigger EndsWait(run[j], db, x)} :: k < j < n ==> !EndsWait(run[j], db, x)
  }

  lemma WaitsNext(run: seq<Event>, n: nat, db: Connection, x: Connection, r: Reg)
    requires n < |run|
    ensures Waits(run, n + 1, db, x, r) <==>
              RegistersOn(run, n, db, x, r) || (Waits(run, n, db, x, r) && !EndsWait(run[n], db, x))
  {
    if Waits(run, n + 1, db, x, r) && !RegistersOn(run, n, db, x, r) {
      var k :| 0 <= k < n + 1 && RegistersOn(run, k, db, x, r)
        && forall j {:trigger EndsWait(run[j], db, x)} :: k < j < n + 1 ==> !EndsWait(run[j], db, x);
      assert !EndsWait(run[n], db, x);
    }
    if Waits(run, n, db, x, r) && !EndsWait(run[n], db, x) {
      var k :| 0 <= k < n && RegistersOn(run, k, db, x, r)
        && forall j {:trigger EndsWait(run[j], db, x)} :: k < j < n ==> !EndsWait(run[j], db, x);
      assert forall j {:trigger EndsWait(run[j], db, x)} :: k < j < n + 1 ==> !EndsWait(run[j], db, x);
    }
  }

  // ----- the states of the run -----

  ghost function StateAt(run: seq<Event>, n: nat): State
    requires n <= |run|
  {
    if n == 0 then EMPTY else run[n - 1].after
  }

  lemma {:induction false} StepAt(run: seq<Event>, n: nat)
    requires IsRun(run) && n < |run|
    ensures Next(StateAt(run, n), run[n].op, run[n].out, run[n].after)
    decreases |run|
  {
    if n < |run| - 1 {
      StepAt(run[..|run| - 1], n);
    }
  }

  lemma {:induction false} InvAt(run: seq<Event>, n: nat)
    requires IsRun(run) && n <= |run|
    ensures Inv(StateAt(run, n))
  {
    if n > 0 {
      InvAt(run, n - 1);
      StepAt(run, n - 1);
      StepKeepsInv(StateAt(run, n - 1), run[n - 1].op, run[n - 1].out, run[n - 1].after);
    } else {
      ReachableInv([]);
    }
  }

  predicate IsBlocked(s: State, db: Connection, x: Connection) { At(s.entry, db).blocking == x }

  lemma BlockedNext(s: State, e: Event, db: Connection, x: Connection)
    requires Inv(s) && Next(s, e.op, e.out, e.after)
    ensures IsBlocked(e.after, db, x) <==>
              Locks(e, db, x) || (IsBlocked(s, db, x) && !ForgetsBlocker(e, db, x))
  {
  }

  /**
   Over every run, the recorded blocker of db is the connection that its latest SQLITE_LOCKED was due to, as
   long as db has not cancelled, that connection has not ended its transaction, and neither has closed.
   */
  lemma {:induction false} BlockerIff(run: seq<Event>, n: nat, db: Connection, x: Connection)
    requires IsRun(run) && n <= |run|
    ensures At(StateAt(run, n).entry, db).blocking == x <==> Blocks(run, n, db, x)
  {
    if n > 0 {
      BlockerIff(run, n - 1, db, x);
      BlockerNext(run, n - 1, db, x);
    }
  }

  lemma BlockerNext(run: seq<Event>, n: nat, db: Connection, x: Connection)
    requires IsRun(run) && n < |run|
    requires IsBlocked(StateAt(run, n), db, x) <==> Blocks(run, n, db, x)
    ensures IsBlocked(StateAt(run, n + 1), db, x) <==> Blocks(run, n + 1, db, x)
  {
    var s, e := StateAt(run, n), run[n];
    var was, forgets := IsBlocked(s, db, x), ForgetsBlocker(e, db, x);
    assert IsBlocked(e.after, db, x) <==> Locks(e, db, x) || (was && !forgets) by {
      InvAt(run, n);
      StepAt(run, n);
      BlockedNext(s, e, db, x);
    }
    assert Blocks(run, n + 1, db, x) <==> Locks(e, db, x) || (was && !forgets) by { BlocksNext(run, n, db, x); }
  }

  predicate IsWaiting(s: State, db: Connection, x: Connection, r: Reg) {
    At(s.entry, db).unlock == x && (At(s.entry, db).notify, At(s.entry, db).arg) == r
  }

  lemma WaitingNext(s: State, e: Event, db: Connection, x: Connection, r: Reg)
    requires Inv(s) && Next(s, e.op, e.out, e.after)
    ensures IsWaiting(e.after, db, x, r) <==>
              (Registers(e, db, r) && IsBlocked(s, db, x)) || (IsWaiting(s, db, x, r) && !EndsWait(e, db, x))
  {
  }

  /** Over every run, db waits for just the connection that was recorded when its last registration was accepted. */
  lemma {:induction false} WaiterIff(run: seq<Event>, n: nat, db: Connection, x: Connection, r: Reg)
    requires IsRun(run) && n <= |run|
    ensures IsWaiting(StateAt(run, n), db, x, r) <==> Waits(run, n, db, x, r)
  {
    if n > 0 {
      WaiterIff(run, n - 1, db, x, r);
      WaiterNext(run, n - 1, db, x, r);
    }
  }

  lemma WaiterNext(run: seq<Event>, n: nat, db: Connection, x: Connection, r: Reg)
    requires IsRun(run) && n < |run|
    requires IsWaiting(StateAt(run, n), db, x, r) <==> Waits(run, n, db, x, r)
    ensures IsWaiting(StateAt(run, n + 1), db, x, r) <==> Waits(run, n + 1, db, x, r)
  {
    var s, e := StateAt(run, n), run[n];
    var was, blocks, ends := IsWaiting(s, db, x, r), IsBlocked(s, db, x), EndsWait(e, db, x);
    assert IsWaiting(e.after, db, x, r) <==> (Registers(e, db, r) && blocks) || (was && !ends) by {
      InvAt(run, n);
      StepAt(run, n);
      WaitingNext(s, e, db, x, r);
    }
    assert RegistersOn(run, n, db, x, r) <==> Registers(e, db, r) && blocks by { BlockerIff(run, n, db, x); }
    assert Waits(run, n + 1, db, x, r) <==> (Registers(e, db, r) && blocks) || (was && !ends) by {
      WaitsNext(run, n, db, x, r);
    }
  }

  // ----- what the calls answer -----

  /** The connections that wait for x with r. */
  ghost function Waiters(run: seq<Event>, n: nat, x: Connection, r: Reg): set<Connection>
    requires n <= |run|
  {
    set c | c in StateAt(run, n).entry && Waits(run, n, c, x, r)
  }

  ghost function WaitersIn(list: seq<Connection>, entry: Entries, x: Connection, r: Reg): set<Connection> {
    set c | c in list && At(entry, c).unlock == x && (At(entry, c).notify, At(entry, c).arg) == r
  }

  lemma {:induction false} DueCounts(list: seq<Connection>, entry: Entries, x: Connection, r: Reg)
    requires NoDuplicates(list)
    ensures Count(Due(list, entry, x), r) == |WaitersIn(list, entry, x, r)|
  {
    if list == [] {
      assert WaitersIn(list, entry, x, r) == {};
    } else {
      var front, e := list[..|list| - 1], At(entry, list[|list| - 1]);
      DueCounts(front, entry, x, r);
      OneMoreWaiter(list, entry, x, r);
      CountSnoc(Due(front, entry, x), (e.notify, e.arg), r);
    }
  }

  lemma OneMoreWaiter(list: seq<Connection>, entry: Entries, x: Connection, r: Reg)
    requires NoDuplicates(list) && list != []
    ensures var front, e := list[..|list| - 1], At(entry, list[|list| - 1]);
            |WaitersIn(list, entry, x, r)|
              == |WaitersIn(front, entry, x, r)| + if e.unlock == x && (e.notify, e.arg) == r then 1 else 0
  {
    var front, last := list[..|list| - 1], list[|list| - 1];
    assert list == front + [last] && last !in front;
    if At(entry, last).unlock == x && (At(entry, last).notify, At(entry, last).arg) == r {
      assert WaitersIn(list, entry, x, r) == WaitersIn(front, entry, x, r) + {last};
    } else {
      assert WaitersIn(list, entry, x, r) == WaitersIn(front, entry, x, r);
    }
  }

  /**
   Over every run, the end of a transaction delivers a callback with a context pointer just as often as there
   are connections waiting for it with both.
   */
  lemma DeliversToWaiters(run: seq<Event>, n: nat, x: Connection, r: Reg)
    requires IsRun(run) && n < |run|
    requires run[n].op == EndTransaction(x, true) || run[n].op == EndTransaction(x, false)
          || run[n].op == Close(x, true) || run[n].op == Close(x, false)
    ensures Count(Delivered(run[n].out.calls), r) == |Waiters(run, n, x, r)|
  {
    var s := StateAt(run, n);
    InvAt(run, n);
    StepAt(run, n);
    DueCounts(s.list, s.entry, x, r);
    forall c | c in s.entry
      ensures c in Waiters(run, n, x, r) <==> c in WaitersIn(s.list, s.entry, x, r)
    {
      WaiterIff(run, n, c, x, r);
    }
    assert forall c :: c in WaitersIn(s.list, s.entry, x, r) ==> c in s.entry;
    assert Waiters(run, n, x, r) == WaitersIn(s.list, s.entry, x, r);
  }

  /** A callback is invoked within the call exactly if no connection is recorded as the blocker. */
  lemma ImmediateIff(run: seq<Event>, n: nat, db: Connection, notify: Callback, arg: Arg)
    requires IsRun(run) && n < |run| && run[n].op == Notify(db, notify, arg)
    ensures run[n].out.calls == (if notify != NO_CALLBACK && (forall x :: !Blocks(run, n, db, x))
                                 then [Call(notify, [arg])] else [])
  {
    StepAt(run, n);
    var b := StateAt(run, n).entry[db].blocking;
    if b != null {
      BlockerIff(run, n, db, b);
    }
    forall x | Blocks(run, n, db, x)
      ensures b == x
    {
      BlockerIff(run, n, db, x);
    }
  }

  ghost predicate WaitsOn(run: seq<Event>, n: nat, a: Connection, b: Connection)
    requires n <= |run|
  {
    exists r :: Waits(run, n, a, b, r)
  }

  /** Each connection on the path waits for the next one. */
  ghost predicate IsWaitPath(run: seq<Event>, n: nat, path: seq<Connection>)
    requires n <= |run|
  {
    path != [] && forall i {:trigger path[i]} :: 0 <= i < |path| - 1 ==> WaitsOn(run, n, path[i], path[i + 1])
  }

  lemma HopIff(run: seq<Event>, n: nat, a: Connection, b: Connection)
    requires IsRun(run) && n <= |run|
    ensures Hop(StateAt(run, n).entry, a) == b <==> WaitsOn(run, n, a, b)
  {
    var e := At(StateAt(run, n).entry, a);
    WaiterIff(run, n, a, b, (e.notify, e.arg));
    forall r | Waits(run, n, a, b, r)
      ensures e.unlock == b
    {
      WaiterIff(run, n, a, b, r);
    }
  }

  lemma {:induction false} ChainIsPath(run: seq<Event>, n: nat, a: Connection, b: Connection, k: nat)
      returns (path: seq<Connection>)
    requires IsRun(run) && n <= |run| && Chain(StateAt(run, n).entry, a, k) == b
    ensures IsWaitPath(run, n, path) && path[0] == a && path[|path| - 1] == b
  {
    if k == 0 {
      path := [a];
    } else {
      var c := Chain(StateAt(run, n).entry, a, k - 1);
      var front := ChainIsPath(run, n, a, c, k - 1);
      HopIff(run, n, c, b);
      path := front + [b];
    }
  }

  lemma {:induction false} PathIsChain(run: seq<Event>, n: nat, path: seq<Connection>, k: nat)
    requires IsRun(run) && n <= |run| && IsWaitPath(run, n, path) && k < |path|
    ensures Chain(StateAt(run, n).entry, path[0], k) == path[k]
  {
    if k > 0 {
      PathIsChain(run, n, path, k - 1);
      assert WaitsOn(run, n, path[k - 1], path[k - 1 + 1]);
      HopIff(run, n, path[k - 1], path[k]);
    }
  }

  /** A path of waiting connections from a blocker of db back to db. */
  ghost predicate ClosesCycle(run: seq<Event>, n: nat, db: Connection, path: seq<Connection>)
    requires n <= |run|
  {
    IsWaitPath(run, n, path) && Blocks(run, n, db, path[0]) && path[|path| - 1] == db
  }

  /**
   Over every run, a registration is refused exactly if the blocker of the connection waits, through any number
   of others, for the connection itself.
   */
  lemma RefusedIffWaitsBack(run: seq<Event>, n: nat, db: Connection, notify: Callback, arg: Arg)
    requires IsRun(run) && n < |run| && run[n].op == Notify(db, notify, arg)
    ensures run[n].out.rc == SQLITE_LOCKED <==> notify != NO_CALLBACK && exists path :: ClosesCycle(run, n, db, path)
    ensures run[n].out.rc == SQLITE_LOCKED || run[n].out.rc == SQLITE_OK
  {
    StepAt(run, n);
    var entry := StateAt(run, n).entry;
    var b := entry[db].blocking;
    if path :| ClosesCycle(run, n, db, path) {
      BlockerIff(run, n, db, path[0]);
      PathIsChain(run, n, path, |path| - 1);
    }
    if b != null && WouldDeadlock(entry, db) {
      BlockerIff(run, n, db, b);
      var k: nat :| Chain(entry, b, k) == db;
      var path := ChainIsPath(run, n, b, db, k);
      assert ClosesCycle(run, n, db, path);
    }
  }
}
