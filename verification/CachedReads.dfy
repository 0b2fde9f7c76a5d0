/**
 A client of the page cache beside a client without one. The cached client fills a new page from the
 disk, saves a page before it unpins it, and makes sure that a key is free before it moves a page
 there. For every cache that keeps the contract, whatever it evicts, both read the same.
 */
module CachedReads {
  import opened Options
  import opened PageTable
  import opened PageContract

  /** What the client does and sees. */
  datatype Event =
    | Read(key: nat, value: Buf)
    | Miss(key: nat)              // xFetch() gave no page
    | Write(p: Ptr, value: Buf)
    | Save(p: Ptr)
    | Release(p: Ptr, discard: bool)
    | Forget(p: Ptr)              // discards a page that will not be needed
    | Move(p: Ptr, newKey: nat)
    | Cut(iLimit: nat)
    | Idle                        // the cache works on its own

  datatype Client = Client(cache: Cache, disk: map<nat, Buf>)

  type Store = map<nat, Buf>

  function Filled(page: Pages, p: Ptr, disk: map<nat, Buf>): Pages
    requires p in page
  {
    if page[p].isInit || page[p].iKey !in disk then page[p := page[p].(isInit := true)]
    else page[p := page[p].(pBuf := disk[page[p].iKey], isInit := true)]
  }

  function Saved(page: Pages, p: Ptr, disk: map<nat, Buf>): map<nat, Buf>
    requires p in page
  {
    disk[page[p].iKey := page[p].pBuf]
  }

  ghost predicate Next(s: Client, e: Event, t: Client) {
    match e
    case Read(key, value) =>
      exists p, c :: ReadStep(s, key, value, p, c, t)
    case Miss(key) =>
      FetchOk(s.cache, key, None, t.cache) && t.disk == s.disk
    case Write(p, value) =>
      && p in s.cache.pinned && p in s.cache.page
      && t == s.(cache := s.cache.(page := s.cache.page[p := s.cache.page[p].(pBuf := value)]))
    case Save(p) =>
      && p in s.cache.pinned && p in s.cache.page
      && t == s.(disk := Saved(s.cache.page, p, s.disk))
    case Release(p, discard) =>
      && p in s.cache.pinned && p in s.cache.page
      && UnpinOk(s.cache, p, discard, t.cache) && t.disk == Saved(s.cache.page, p, s.disk)
    case Forget(p) =>
      && p in s.cache.pinned && p in s.cache.page
      && UnpinOk(s.cache, p, true, t.cache) && t.disk == s.disk
    case Move(p, newKey) =>
      && p in s.cache.pinned && p in s.cache.page
      && (s.cache.page[p].iKey == newKey || !HasKey(s.cache.page, newKey))
      && RekeyOk(s.cache, p, newKey, t.cache) && t.disk == s.disk
    case Cut(iLimit) =>
      TruncateOk(s.cache, iLimit, t.cache) && t.disk == s.disk
    case Idle =>
      && t.cache.pinned == s.cache.pinned && Evicted(s.cache.page, s.cache.pinned, t.cache.page)
      && t.disk == s.disk
  }

  ghost predicate ReadStep(s: Client, key: nat, value: Buf, p: Ptr, c: Cache, t: Client) {
    && FetchOk(s.cache, key, Some(p), c) && p in c.page
    && t == Client(c.(page := Filled(c.page, p, s.disk)), s.disk)
    && value == t.cache.page[p].pBuf
  }

  // ----- the client without a cache -----

  /** The page an event is about. */
  function Key(s: Client, p: Ptr): nat {
    if p in s.cache.page then s.cache.page[p].iKey else 0
  }

  /** Keys outside the store have no agreed content: they were forgotten, moved away or cut off. */
  function Uncached(store: Store, s: Client, e: Event): Store {
    match e
    case Write(p, value) => store[Key(s, p) := value]
    case Forget(p) => store - {Key(s, p)}
    case Move(p, newKey) =>
      var iOld := Key(s, p);
      if iOld in store then (store - {iOld})[newKey := store[iOld]] else store - {iOld, newKey}
    case Cut(iLimit) => map k | k in store && k < iLimit :: store[k]
    case _ => store
  }

  /** What a read may return without a cache. */
  predicate Answers(store: Store, e: Event) {
    e.Read? && e.key in store ==> e.value == store[e.key]
  }

  ghost predicate Run(states: seq<Client>, events: seq<Event>) {
    && |states| == |events| + 1
    && forall i {:trigger events[i]} :: 0 <= i < |events| ==> Next(states[i], events[i], states[i + 1])
  }

  /** The store after the first n events. */
  function StoreAt(store: Store, states: seq<Client>, events: seq<Event>, n: nat): Store
    requires n <= |events| < |states|
  {
    if n == 0 then store else Uncached(StoreAt(store, states, events, n - 1), states[n - 1], events[n - 1])
  }

  // ----- the invariant -----

  /** The page agrees with the store, and unless it is pinned so does the disk. */
  predicate PageAgrees(s: Client, store: Store, p: Ptr)
    requires p in s.cache.page
  {
    var h := s.cache.page[p];
    && h.isInit
    && (h.iKey in store ==>
        && h.pBuf == store[h.iKey]
        && (p !in s.cache.pinned ==> h.iKey in s.disk && s.disk[h.iKey] == store[h.iKey]))
  }

  /** A key without a page is found on the disk. */
  ghost predicate KeyAgrees(s: Client, store: Store, key: nat) {
    key in store ==> HasKey(s.cache.page, key) || (key in s.disk && s.disk[key] == store[key])
  }

  ghost predicate Coherent(s: Client, store: Store) {
    && UniqueKeys(s.cache.page)
    && s.cache.pinned <= s.cache.page.Keys
    && (forall p {:trigger PageAgrees(s, store, p)} :: p in s.cache.page ==> PageAgrees(s, store, p))
    && (forall key: nat {:trigger KeyAgrees(s, store, key)} :: KeyAgrees(s, store, key))
  }

  /** Evicting pages that are not pinned keeps the invariant, because they have been saved. */
  lemma EvictedCoherent(s: Client, store: Store, t: Client)
    requires Coherent(s, store) && t.disk == s.disk && t.cache.pinned <= s.cache.pinned * t.cache.page.Keys
    requires forall p :: p in t.cache.page ==> p in s.cache.page && t.cache.page[p] == s.cache.page[p]
    requires forall p :: p in s.cache.page && p !in t.cache.page ==> Clean(s, store, p)
    requires forall p :: p in t.cache.page && p !in t.cache.pinned ==> Clean(s, store, p)
    ensures Coherent(t, store)
  {
    forall p | p in t.cache.page
      ensures PageAgrees(t, store, p)
    {
      assert PageAgrees(s, store, p);
    }
    forall key: nat
      ensures KeyAgrees(t, store, key)
    {
      assert KeyAgrees(s, store, key);
      if HasKey(s.cache.page, key) {
        var p :| p in s.cache.page && s.cache.page[p].iKey == key;
        if p in t.cache.page { assert t.cache.page[p].iKey == key; } else { assert Clean(s, store, p); }
      }
    }
  }

  /** The content of the page is on the disk if anyone still needs it. */
  predicate Clean(s: Client, store: Store, p: Ptr)
    requires p in s.cache.page
  {
    var h := s.cache.page[p];
    h.iKey in store ==> h.iKey in s.disk && s.disk[h.iKey] == store[h.iKey]
  }

  lemma UnpinnedClean(s: Client, store: Store)
    requires Coherent(s, store)
    ensures forall p :: p in s.cache.page && p !in s.cache.pinned ==> Clean(s, store, p)
  {
    forall p | p in s.cache.page && p !in s.cache.pinned
      ensures Clean(s, store, p)
    {
      assert PageAgrees(s, store, p);
    }
  }

  /** A page enters the cache under a key that had none, filled from the disk. */
  lemma FilledCoherent(s: Client, store: Store, p: Ptr, c: Cache)
    requires Coherent(s, store) && p in c.page && !HasKey(s.cache.page, c.page[p].iKey) && !c.page[p].isInit
    requires c.pinned == s.cache.pinned + {p} && p !in s.cache.pinned
    requires Evicted(s.cache.page, s.cache.pinned, c.page - {p})
    ensures Coherent(Client(c.(page := Filled(c.page, p, s.disk)), s.disk), store)
  {
    var t := Client(c.(page := Filled(c.page, p, s.disk)), s.disk);
    var key := c.page[p].iKey;
    assert KeyAgrees(s, store, key);
    UnpinnedClean(s, store);
    forall q | q in t.cache.page
      ensures PageAgrees(t, store, q)
      ensures q != p ==> q in s.cache.page && t.cache.page[q] == s.cache.page[q]
    {
      if q != p {
        assert q in c.page - {p};
        assert PageAgrees(s, store, q);
      }
    }
    forall k: nat
      ensures KeyAgrees(t, store, k)
    {
      assert KeyAgrees(s, store, k);
      if k == key {
        assert t.cache.page[p].iKey == k;
      } else if HasKey(s.cache.page, k) {
        var q :| q in s.cache.page && s.cache.page[q].iKey == k;
        if q in c.page - {p} {
          assert t.cache.page[q].iKey == k;
        } else {
          assert Clean(s, store, q);
        }
      }
    }
  }

  lemma ReadCoherent(s: Client, store: Store, key: nat, value: Buf, p: Ptr, c: Cache, t: Client)
    requires Coherent(s, store) && ReadStep(s, key, value, p, c, t)
    ensures Coherent(t, store) && Answers(store, Read(key, value))
  {
    if HasKey(s.cache.page, key) {
      UnpinnedClean(s, store);
      assert PageAgrees(s, store, p);
      assert t.cache.page == c.page;
      PinnedCoherent(s, store, p, t);
    } else {
      FilledCoherent(s, store, p, c);
      assert PageAgrees(t, store, p);
    }
  }

  lemma PinnedCoherent(s: Client, store: Store, p: Ptr, t: Client)
    requires Coherent(s, store) && p in s.cache.page && t.disk == s.disk
    requires t.cache.pinned == s.cache.pinned + {p} && Evicted(s.cache.page, t.cache.pinned, t.cache.page)
    ensures Coherent(t, store)
  {
    UnpinnedClean(s, store);
    var s' := s.(cache := s.cache.(pinned := t.cache.pinned));
    forall q | q in s'.cache.page
      ensures PageAgrees(s', store, q)
    {
      assert PageAgrees(s, store, q);
    }
    forall k: nat
      ensures KeyAgrees(s', store, k)
    {
      assert KeyAgrees(s, store, k);
    }
    forall q | q in s'.cache.page
      ensures q !in t.cache.pinned ==> Clean(s', store, q)
    {
      assert q !in s.cache.pinned ==> Clean(s, store, q);
    }
    EvictedCoherent(s', store, t);
  }

  lemma WriteCoherent(s: Client, store: Store, p: Ptr, value: Buf, t: Client)
    requires Coherent(s, store) && Next(s, Write(p, value), t)
    ensures Coherent(t, Uncached(store, s, Write(p, value)))
  {
    var after := Uncached(store, s, Write(p, value));
    assert t.cache.page.Keys == s.cache.page.Keys;
    forall q | q in t.cache.page
      ensures PageAgrees(t, after, q)
    {
      assert PageAgrees(s, store, q);
    }
    forall k: nat
      ensures KeyAgrees(t, after, k)
    {
      assert KeyAgrees(s, store, k);
      assert t.cache.page[p].iKey == Key(s, p);
      if HasKey(s.cache.page, k) {
        var q :| q in s.cache.page && s.cache.page[q].iKey == k;
        assert t.cache.page[q].iKey == k;
      }
    }
  }

  lemma SaveCoherent(s: Client, store: Store, p: Ptr, t: Client)
    requires Coherent(s, store) && p in s.cache.page && t == s.(disk := Saved(s.cache.page, p, s.disk))
    ensures Coherent(t, store) && Clean(t, store, p)
  {
    assert PageAgrees(s, store, p);
    forall q | q in t.cache.page
      ensures PageAgrees(t, store, q)
    {
      assert PageAgrees(s, store, q);
    }
    forall k: nat
      ensures KeyAgrees(t, store, k)
    {
      assert KeyAgrees(s, store, k);
    }
  }

  lemma ReleaseCoherent(s: Client, store: Store, p: Ptr, discard: bool, t: Client)
    requires Coherent(s, store) && Next(s, Release(p, discard), t)
    ensures Coherent(t, store)
  {
    var m := s.(disk := Saved(s.cache.page, p, s.disk));
    SaveCoherent(s, store, p, m);
    UnpinnedClean(m, store);
    EvictedCoherent(m, store, t);
  }

  /** A store that has lost some keys asks for less. */
  lemma FewerKeys(s: Client, store: Store, less: Store)
    requires Coherent(s, store)
    requires forall k :: k in less ==> k in store && less[k] == store[k]
    ensures Coherent(s, less)
  {
    forall p | p in s.cache.page
      ensures PageAgrees(s, less, p)
    {
      assert PageAgrees(s, store, p);
    }
    forall k: nat
      ensures KeyAgrees(s, less, k)
    {
      assert KeyAgrees(s, store, k);
    }
  }

  lemma ForgetCoherent(s: Client, store: Store, p: Ptr, t: Client)
    requires Coherent(s, store) && Next(s, Forget(p), t)
    ensures Coherent(t, Uncached(store, s, Forget(p)))
  {
    var after := Uncached(store, s, Forget(p));
    FewerKeys(s, store, after);
    UnpinnedClean(s, after);
    EvictedCoherent(s, after, t);
  }

  lemma CutCoherent(s: Client, store: Store, iLimit: nat, t: Client)
    requires Coherent(s, store) && Next(s, Cut(iLimit), t)
    ensures Coherent(t, Uncached(store, s, Cut(iLimit)))
  {
    var after := Uncached(store, s, Cut(iLimit));
    FewerKeys(s, store, after);
    UnpinnedClean(s, after);
    EvictedCoherent(s, after, t);
  }

  lemma MoveUnique(s: Client, p: Ptr, newKey: nat, t: Client)
    requires UniqueKeys(s.cache.page) && Next(s, Move(p, newKey), t)
    ensures UniqueKeys(t.cache.page) && t.cache.page.Keys <= s.cache.page.Keys
  {
    forall q | q in t.cache.page
      ensures q in s.cache.page && (q != p ==> t.cache.page[q] == s.cache.page[q])
    {
      assert q != p ==> q in t.cache.page - {p};
    }
    forall q, r | q in t.cache.page && r in t.cache.page && t.cache.page[q].iKey == t.cache.page[r].iKey
      ensures q == r
    {
      assert q != p && r != p ==> s.cache.page[q].iKey == s.cache.page[r].iKey;
    }
  }

  lemma MoveCoherent(s: Client, store: Store, p: Ptr, newKey: nat, t: Client)
    requires Coherent(s, store) && Next(s, Move(p, newKey), t)
    ensures Coherent(t, Uncached(store, s, Move(p, newKey)))
  {
    var after := Uncached(store, s, Move(p, newKey));
    UnpinnedClean(s, store);
    MoveUnique(s, p, newKey, t);
    forall q | q in t.cache.page
      ensures PageAgrees(t, after, q)
    {
      if q != p {
        assert q in t.cache.page - {p};
        assert q in s.cache.page && t.cache.page[q] == s.cache.page[q];
      }
      assert PageAgrees(s, store, q);
    }
    forall k: nat
      ensures KeyAgrees(t, after, k)
    {
      assert KeyAgrees(s, store, k);
      assert t.cache.page[p].iKey == newKey;
      if k != newKey && k in after && HasKey(s.cache.page, k) {
        var q :| q in s.cache.page && s.cache.page[q].iKey == k;
        assert q != p;
        if q in t.cache.page - {p} { assert t.cache.page[q].iKey == k; } else { assert Clean(s, store, q); }
      }
    }
  }

  /** Every event keeps the invariant, and every read answers as the store does. */
  lemma StepCoherent(s: Client, store: Store, e: Event, t: Client)
    requires Coherent(s, store) && Next(s, e, t)
    ensures Coherent(t, Uncached(store, s, e)) && Answers(store, e)
  {
    match e
    case Read(key, value) =>
      var p, c :| ReadStep(s, key, value, p, c, t);
      ReadCoherent(s, store, key, value, p, c, t);
    case Miss(key) =>
      UnpinnedClean(s, store);
      EvictedCoherent(s, store, t);
    case Write(p, value) => WriteCoherent(s, store, p, value, t);
    case Save(p) => SaveCoherent(s, store, p, t);
    case Release(p, discard) => ReleaseCoherent(s, store, p, discard, t);
    case Forget(p) => ForgetCoherent(s, store, p, t);
    case Move(p, newKey) => MoveCoherent(s, store, p, newKey, t);
    case Cut(iLimit) => CutCoherent(s, store, iLimit, t);
    case Idle =>
      UnpinnedClean(s, store);
      EvictedCoherent(s, store, t);
  }

  lemma StepAt(store: Store, states: seq<Client>, events: seq<Event>, n: nat)
    requires Run(states, events) && n < |events|
    requires Coherent(states[n], StoreAt(store, states, events, n))
    ensures Coherent(states[n + 1], StoreAt(store, states, events, n + 1))
    ensures Answers(StoreAt(store, states, events, n), events[n])
  {
    assert Next(states[n], events[n], states[n + 1]);
    StepCoherent(states[n], StoreAt(store, states, events, n), events[n], states[n + 1]);
  }

  lemma {:induction false} RunCoherent(disk: map<nat, Buf>, states: seq<Client>, events: seq<Event>, n: nat)
    requires Run(states, events) && states[0] == Client(Cache(map[], {}), disk) && n <= |events|
    ensures Coherent(states[n], StoreAt(disk, states, events, n))
  {
    if n == 0 {
    } else {
      RunCoherent(disk, states, events, n - 1);
      StepAt(disk, states, events, n - 1);
    }
  }

  /** Over every run, from an empty cache, every read returns what the client without a cache reads. */
  lemma ReadsAgree(disk: map<nat, Buf>, states: seq<Client>, events: seq<Event>, i: nat)
    requires Run(states, events) && states[0] == Client(Cache(map[], {}), disk) && i < |events|
    ensures Answers(StoreAt(disk, states, events, i), events[i])
  {
    RunCoherent(disk, states, events, i);
    StepAt(disk, states, events, i);
  }

  // ----- what a read returns, told from the writes -----

  /** Before event n the page p is under the key. */
  ghost predicate Under(states: seq<Client>, n: nat, p: Ptr, key: nat)
    requires n < |states|
  {
    p in states[n].cache.page && states[n].cache.page[p].iKey == key
  }

  /**
   After n events v was the last content given to the key: by the disk at first, by a write to the page under it,
   or with a page moved there; and it has not been forgotten, moved away or cut off since.
   */
  ghost predicate LastGiven(disk: map<nat, Buf>, states: seq<Client>, events: seq<Event>, n: nat, key: nat, v: Buf)
    requires n <= |events| < |states|
  {
    if n == 0 then key in disk && disk[key] == v
    else match events[n - 1]
      case Write(p, value) =>
        if Under(states, n - 1, p, key) then v == value else LastGiven(disk, states, events, n - 1, key, v)
      case Forget(p) => !Under(states, n - 1, p, key) && LastGiven(disk, states, events, n - 1, key, v)
      case Move(p, newKey) =>
        if key == newKey
        then p in states[n - 1].cache.page
             && LastGiven(disk, states, events, n - 1, states[n - 1].cache.page[p].iKey, v)
        else !Under(states, n - 1, p, key) && LastGiven(disk, states, events, n - 1, key, v)
      case Cut(iLimit) => key < iLimit && LastGiven(disk, states, events, n - 1, key, v)
      case _ => LastGiven(disk, states, events, n - 1, key, v)
  }

  lemma {:induction false} StoreIsLastGiven(disk: map<nat, Buf>, states: seq<Client>, events: seq<Event>, n: nat,
                                            key: nat, v: Buf)
    requires Run(states, events) && n <= |events|
    ensures LastGiven(disk, states, events, n, key, v) <==>
              key in StoreAt(disk, states, events, n) && StoreAt(disk, states, events, n)[key] == v
  {
    if n > 0 {
      var s, e := states[n - 1], events[n - 1];
      assert Next(s, e, states[n - 1 + 1]);
      StoreIsLastGiven(disk, states, events, n - 1, key, v);
      if e.Move? {
        StoreIsLastGiven(disk, states, events, n - 1, Key(s, e.p), v);
      }
    }
  }

  /** Over every run, from an empty cache, a read returns the last content given to its key. */
  lemma ReadReturnsLastGiven(disk: map<nat, Buf>, states: seq<Client>, events: seq<Event>, i: nat, v: Buf)
    requires Run(states, events) && states[0] == Client(Cache(map[], {}), disk) && i < |events| && events[i].Read?
    requires LastGiven(disk, states, events, i, events[i].key, v)
    ensures events[i].value == v
  {
    StoreIsLastGiven(disk, states, events, i, events[i].key, v);
    ReadsAgree(disk, states, events, i);
  }
}
