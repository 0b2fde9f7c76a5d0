/**
 The waits-for relation built by sqlite3_unlock_notify(): when a new edge closes a cycle, and where
 a wait chain ends.
 */
module WaitsFor {
  import opened BlockedList

  lemma {:induction false} ChainFrom(entry: Entries, p: Connection?, i: nat, j: nat)
    ensures Chain(entry, Chain(entry, p, i), j) == Chain(entry, p, i + j)
  {
    if j > 0 {
      ChainFrom(entry, p, i, j - 1);
    }
  }

  /** Chains that do not pass through db do not see a change of db's entry. */
  lemma {:induction false} ChainAvoids(entry: Entries, db: Connection, e: Entry, p: Connection?, k: nat)
    requires db in entry
    requires forall j: nat :: j < k ==> Chain(entry, p, j) != db
    ensures Chain(entry[db := e], p, k) == Chain(entry, p, k)
  {
    if k > 0 {
      ChainAvoids(entry, db, e, p, k - 1);
    }
  }

  /** A chain that visits db has a first visit. */
  lemma {:induction false} FirstVisit(entry: Entries, p: Connection?, db: Connection, m: nat) returns (k: nat)
    requires Chain(entry, p, m) == db
    ensures k <= m && Chain(entry, p, k) == db
    ensures forall j: nat :: j < k ==> Chain(entry, p, j) != db
  {
    if j: nat :| j < m && Chain(entry, p, j) == db {
      k := FirstVisit(entry, p, db, j);
    } else {
      k := m;
    }
  }

  lemma HopFirst(entry: Entries, p: Connection, k: nat)
    requires p in entry
    ensures Chain(entry, p, k + 1) == Chain(entry, entry[p].unlock, k)
  {
    ChainFrom(entry, p, 1, k);
    assert Chain(entry, p, 0) == p;
  }

  /** Once db's edge leads to a connection that does not reach db, no chain returns to db. */
  lemma NoReturn(entry: Entries, db: Connection, e: Entry, k: nat)
    requires db in entry && k >= 1
    requires forall j: nat :: Chain(entry, e.unlock, j) != db
    ensures Chain(entry[db := e], db, k) != db
  {
    HopFirst(entry[db := e], db, k - 1);
    ChainAvoids(entry, db, e, e.unlock, k - 1);
  }

  /** A cycle can be entered at any of its members. */
  lemma RotateCycle(entry: Entries, c: Connection, i: nat, k: nat)
    requires Chain(entry, c, k) == c
    ensures Chain(entry, Chain(entry, c, i), k) == Chain(entry, c, i)
  {
    ChainFrom(entry, c, i, k);
    ChainFrom(entry, c, k, i);
  }

  /** A new edge from db closes no cycle when its target does not reach db. */
  lemma NewEdgeKeepsAcyclic(entry: Entries, db: Connection, e: Entry)
    requires db in entry && Acyclic(entry)
    requires forall k: nat :: Chain(entry, e.unlock, k) != db
    ensures Acyclic(entry[db := e])
  {
    var after := entry[db := e];
    forall c, k: nat | c in after && k >= 1
      ensures Chain(after, c, k) != c
    {
      if m: nat :| m < k && Chain(entry, c, m) == db {
        // a cycle through c would be one through db
        var i := FirstVisit(entry, c, db, m);
        ChainAvoids(entry, db, e, c, i);
        NoReturn(entry, db, e, k);
        if Chain(after, c, k) == c {
          RotateCycle(after, c, i, k);
        }
      } else {
        ChainAvoids(entry, db, e, c, k);
      }
    }
  }

  /** The chain walk refuses exactly the registrations that would close a cycle, of any length. */
  lemma DeadlockIsCycle(entry: Entries, db: Connection, e: Entry)
    requires db in entry && Acyclic(entry)
    requires entry[db].blocking != null && e.unlock == entry[db].blocking
    ensures WouldDeadlock(entry, db) <==> !Acyclic(entry[db := e])
  {
    var b := entry[db].blocking;
    if WouldDeadlock(entry, db) {
      var m: nat :| Chain(entry, b, m) == db;
      var k := FirstVisit(entry, b, db, m);
      ChainAvoids(entry, db, e, b, k);
      HopFirst(entry[db := e], db, k);
    } else {
      NewEdgeKeepsAcyclic(entry, db, e);
    }
  }

  lemma {:induction false} ChainWithin(entry: Entries, after: Entries, p: Connection?, k: nat)
    requires forall c :: c in after ==> c in entry && (after[c].unlock == null || after[c].unlock == entry[c].unlock)
    ensures Chain(after, p, k) == null || Chain(after, p, k) == Chain(entry, p, k)
  {
    if k > 0 {
      ChainWithin(entry, after, p, k - 1);
    }
  }

  /** Taking edges away closes no cycle. */
  lemma FewerEdgesKeepAcyclic(entry: Entries, after: Entries)
    requires Acyclic(entry)
    requires forall c :: c in after ==> c in entry && (after[c].unlock == null || after[c].unlock == entry[c].unlock)
    ensures Acyclic(after)
  {
    forall c, k: nat | c in after && k >= 1
      ensures Chain(after, c, k) != c
    {
      ChainWithin(entry, after, c, k);
    }
  }

  /** In an acyclic relation no connection is met twice along a chain. */
  lemma ChainDistinct(entry: Entries, p: Connection?, i: nat, j: nat)
    requires Acyclic(entry) && i < j && Chain(entry, p, i) != null && Chain(entry, p, i) in entry
    ensures Chain(entry, p, i) != Chain(entry, p, j)
  {
    ChainFrom(entry, p, i, j - i);
    assert Chain(entry, Chain(entry, p, i), j - i) != Chain(entry, p, i);
  }

  ghost predicate PointersOpen(entry: Entries) {
    forall c :: c in entry ==> entry[c].unlock == null || entry[c].unlock in entry
  }

  lemma {:induction false} ChainOpen(entry: Entries, p: Connection?, k: nat)
    requires PointersOpen(entry) && (p == null || p in entry)
    ensures Chain(entry, p, k) == null || Chain(entry, p, k) in entry
  {
    if k > 0 {
      ChainOpen(entry, p, k - 1);
    }
  }

  /** The connections met in the first k hops. */
  ghost function Visited(entry: Entries, p: Connection?, k: nat): set<Connection?> {
    set i: nat | i < k :: Chain(entry, p, i)
  }

  /** As long as a chain goes on, each hop meets a new open connection. */
  lemma {:induction false} VisitedGrows(entry: Entries, p: Connection?, k: nat)
    requires Acyclic(entry) && PointersOpen(entry) && (p == null || p in entry)
    requires forall i: nat :: i < k ==> Chain(entry, p, i) != null
    ensures |Visited(entry, p, k)| == k <= |entry|
  {
    if k > 0 {
      VisitedGrows(entry, p, k - 1);
      var c := Chain(entry, p, k - 1);
      forall i: nat | i < k - 1
        ensures Chain(entry, p, i) != c
      {
        ChainOpen(entry, p, i);
        ChainDistinct(entry, p, i, k - 1);
      }
      assert Visited(entry, p, k) == Visited(entry, p, k - 1) + {c};
    }
    forall i: nat | i < k
      ensures Chain(entry, p, i) in entry
    {
      ChainOpen(entry, p, i);
    }
    SubsetSize(Visited(entry, p, k), entry.Keys);
  }

  lemma {:induction false} SubsetSize(a: set<Connection?>, b: set<Connection>)
    requires forall c :: c in a ==> c != null && c in b
    ensures |a| <= |b|
  {
    if a != {} {
      var c :| c in a;
      SubsetSize(a - {c}, b - {c});
    }
  }

  /** The chain goes on for k hops. */
  ghost predicate GoesOn(entry: Entries, p: Connection?, k: nat) {
    forall i: nat :: i <= k ==> Chain(entry, p, i) != null
  }

  lemma GoesOnLonger(entry: Entries, p: Connection, k: nat)
    requires Acyclic(entry) && PointersOpen(entry) && p in entry && GoesOn(entry, p, k)
    requires Chain(entry, p, k) in entry && entry[Chain(entry, p, k)].Registered()
    ensures GoesOn(entry, p, k + 1) && Chain(entry, p, k + 1) in entry && k + 1 < |entry|
  {
    ChainOpen(entry, p, k + 1);
    VisitedGrows(entry, p, k + 2);
  }

  /**
   From any waiting connection the chain ends, within as many hops as there are connections, at an
   open connection that waits for nobody.
   */
  lemma SomeoneCanProceed(s: State, c: Connection) returns (k: nat)
    requires Inv(s) && c in s.entry
    ensures k < |s.entry|
    ensures Chain(s.entry, c, k) != null && Chain(s.entry, c, k) in s.entry
    ensures !s.entry[Chain(s.entry, c, k)].Registered()
    ensures Chain(s.entry, c, k + 1) == null
  {
    k := 0;
    assert Chain(s.entry, c, 0) == c;
    VisitedGrows(s.entry, c, 1);
    while s.entry[Chain(s.entry, c, k)].Registered()
      invariant GoesOn(s.entry, c, k) && Chain(s.entry, c, k) in s.entry && k < |s.entry|
      decreases |s.entry| - k
    {
      GoesOnLonger(s.entry, c, k);
      k := k + 1;
    }
  }
}
