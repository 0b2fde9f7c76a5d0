/**
 The data of the built-in page cache (pcache1.c) as values: page objects, the hash table that finds
 them by key, and the list of unpinned pages. A cache has its own page group (the default in
 multi-threaded builds), so recycled pages are always its own.
 */
module PageTable {
  import opened Lists

  /** The address of a page object. */
  type Ptr = nat

  /** The content of a page buffer. */
  type Buf = int

  /** struct PgHdr1. `isInit` is the first word of pExtra, which a new page has cleared. */
  datatype PgHdr1 = PgHdr1(iKey: nat, pBuf: Buf, isInit: bool)

  type Pages = map<Ptr, PgHdr1>
  type Table = seq<seq<Ptr>>

  function Bucket(key: nat, n: nat): (h: nat)
    requires n > 0
    ensures h < n
  {
    key % n
  }

  // ----- placement -----

  predicate InBucket(page: Pages, tab: Table, p: Ptr)
    requires p in page
  {
    |tab| > 0 && p in tab[Bucket(page[p].iKey, |tab|)]
  }

  predicate BucketOf(page: Pages, tab: Table, h: nat, p: Ptr)
    requires h < |tab|
  {
    p in page && Bucket(page[p].iKey, |tab|) == h
  }

  /** The table holds exactly the pages, each in the chain of its key and once. */
  ghost predicate Placed(page: Pages, tab: Table) {
    && (forall p {:trigger InBucket(page, tab, p)} :: p in page ==> InBucket(page, tab, p))
    && (forall h: nat, p {:trigger BucketOf(page, tab, h, p)} :: h < |tab| && p in tab[h] ==> BucketOf(page, tab, h, p))
    && (forall h: nat {:trigger NoDuplicates(tab[h])} :: h < |tab| ==> NoDuplicates(tab[h]))
  }

  lemma PlacedPage(page: Pages, tab: Table, p: Ptr)
    requires Placed(page, tab) && p in page
    ensures |tab| > 0 && p in tab[Bucket(page[p].iKey, |tab|)]
  {
    assert InBucket(page, tab, p);
  }

  lemma TableForPages(page: Pages, tab: Table)
    requires Placed(page, tab)
    ensures page != map[] ==> |tab| > 0
  {
    if p :| p in page {
      PlacedPage(page, tab, p);
    }
  }

  /** Exactly the pages in `gone` have left memory. */
  ghost predicate Lost(before: Pages, after: Pages, gone: seq<Ptr>) {
    && (forall p :: p in after ==> p in before && after[p] == before[p] && p !in gone)
    && (forall p :: p in before && p !in gone ==> p in after)
  }

  ghost predicate UniqueKeys(page: Pages) {
    forall p, q :: p in page && q in page && page[p].iKey == page[q].iKey ==> p == q
  }

  function Dropped(page: Pages, p: Ptr): Pages { page - {p} }

  function Unhashed(tab: Table, h: nat, p: Ptr): Table
    requires h < |tab|
  {
    tab[h := Without(tab[h], p)]
  }

  lemma DropPlaced(page: Pages, tab: Table, p: Ptr)
    requires Placed(page, tab) && p in page
    ensures |tab| > 0 && Placed(Dropped(page, p), Unhashed(tab, Bucket(page[p].iKey, |tab|), p))
  {
    assert InBucket(page, tab, p);
    var h := Bucket(page[p].iKey, |tab|);
    var rest, after := Dropped(page, p), Unhashed(tab, h, p);
    assert NoDuplicates(tab[h]);
    WithoutMembers(tab[h], p);
    forall g: nat | g < |after|
      ensures NoDuplicates(after[g])
    {
      assert NoDuplicates(tab[g]);
    }
    forall q | q in rest
      ensures InBucket(rest, after, q)
    {
      assert InBucket(page, tab, q);
    }
    forall g: nat, q | g < |after| && q in after[g]
      ensures BucketOf(rest, after, g, q)
    {
      assert BucketOf(page, tab, g, q);
    }
  }

  function Hashed(tab: Table, h: nat, p: Ptr): Table
    requires h < |tab|
  {
    tab[h := [p] + tab[h]]
  }

  lemma AddPlaced(page: Pages, tab: Table, p: Ptr, hdr: PgHdr1)
    requires Placed(page, tab) && p !in page && |tab| > 0
    ensures Placed(page[p := hdr], Hashed(tab, Bucket(hdr.iKey, |tab|), p))
  {
    var h := Bucket(hdr.iKey, |tab|);
    var more, after := page[p := hdr], Hashed(tab, h, p);
    forall q | q in more
      ensures InBucket(more, after, q)
    {
      if q != p { assert InBucket(page, tab, q); }
    }
    forall g: nat, q | g < |after| && q in after[g]
      ensures BucketOf(more, after, g, q)
    {
      if q in tab[g] { assert BucketOf(page, tab, g, q); }
    }
    assert p in tab[h] ==> BucketOf(page, tab, h, p);
    forall g: nat | g < |after|
      ensures NoDuplicates(after[g])
    {
      assert NoDuplicates(tab[g]);
    }
  }

  /** A change of buffers only does not move pages. */
  lemma SameKeysPlaced(page: Pages, after: Pages, tab: Table)
    requires Placed(page, tab) && after.Keys == page.Keys
    requires forall p :: p in page ==> after[p].iKey == page[p].iKey
    ensures Placed(after, tab)
  {
    forall p | p in after
      ensures InBucket(after, tab, p)
    {
      assert InBucket(page, tab, p);
    }
    forall h: nat, p | h < |tab| && p in tab[h]
      ensures BucketOf(after, tab, h, p)
    {
      assert BucketOf(page, tab, h, p);
    }
  }

  // ----- a larger table -----

  /** The pages in `done` are placed in the new table, the others still only in the old one. */
  function Moved(page: Pages, done: set<Ptr>): Pages {
    map p | p in page && p in done :: page[p]
  }

  lemma MoveOneMore(page: Pages, done: set<Ptr>, tab: Table, p: Ptr)
    requires Placed(Moved(page, done), tab) && |tab| > 0
    requires p in page && p !in done
    ensures Placed(Moved(page, done + {p}), Hashed(tab, Bucket(page[p].iKey, |tab|), p))
  {
    AddPlaced(Moved(page, done), tab, p, page[p]);
    assert Moved(page, done + {p}) == Moved(page, done)[p := page[p]];
  }

  /** The pages in the chains before h, and the first k of chain h. */
  function Visited(tab: Table, h: nat, k: nat): set<Ptr>
    requires h <= |tab| && (h < |tab| ==> k <= |tab[h]|)
  {
    (set g: nat, p | g < h && p in tab[g] :: p) + (if h < |tab| then set p | p in tab[h][..k] else {})
  }

  lemma OneChain(page: Pages, tab: Table, h: nat, p: Ptr)
    requires Placed(page, tab) && h < |tab| && p in tab[h]
    ensures p in page && h == Bucket(page[p].iKey, |tab|)
  {
    assert BucketOf(page, tab, h, p);
  }

  lemma VisitNext(page: Pages, tab: Table, h: nat, k: nat)
    requires Placed(page, tab) && h < |tab| && k < |tab[h]|
    ensures tab[h][k] in page && tab[h][k] !in Visited(tab, h, k)
    ensures Visited(tab, h, k + 1) == Visited(tab, h, k) + {tab[h][k]}
  {
    var p := tab[h][k];
    OneChain(page, tab, h, p);
    assert NoDuplicates(tab[h]);
    forall g: nat | g < |tab| && p in tab[g]
      ensures g == h
    {
      OneChain(page, tab, g, p);
    }
    assert tab[h][..k + 1] == tab[h][..k] + [p];
  }

  lemma VisitChain(tab: Table, h: nat)
    requires h < |tab|
    ensures Visited(tab, h + 1, 0) == Visited(tab, h, |tab[h]|)
  {
    assert tab[h][..|tab[h]|] == tab[h];
  }

  lemma VisitedAll(page: Pages, tab: Table)
    requires Placed(page, tab)
    ensures Visited(tab, |tab|, 0) >= page.Keys
    ensures Moved(page, Visited(tab, |tab|, 0)) == page
  {
    forall p | p in page
      ensures p in Visited(tab, |tab|, 0)
    {
      PlacedPage(page, tab, p);
    }
  }

  // ----- the recency list -----

  /** The elements of s that belong to `keep`, in order. */
  function Filter(s: seq<Ptr>, keep: set<Ptr>): seq<Ptr> {
    if s == [] then []
    else
      var rest := Filter(s[..|s| - 1], keep);
      if s[|s| - 1] in keep then rest + [s[|s| - 1]] else rest
  }

  lemma {:induction false} FilterMembers(s: seq<Ptr>, keep: set<Ptr>)
    ensures forall p :: p in Filter(s, keep) <==> p in s && p in keep
  {
    if s != [] {
      var front := s[..|s| - 1];
      FilterMembers(front, keep);
      assert s == front + [s[|s| - 1]];
    }
  }

  lemma {:induction false} FilterAll(s: seq<Ptr>, keep: set<Ptr>)
    requires forall p :: p in s ==> p in keep
    ensures Filter(s, keep) == s
  {
    if s != [] {
      FilterAll(s[..|s| - 1], keep);
      assert s == s[..|s| - 1] + [s[|s| - 1]];
    }
  }

  lemma {:induction false} FilterWithout(s: seq<Ptr>, keep: set<Ptr>, p: Ptr)
    requires NoDuplicates(s)
    ensures Filter(s, keep - {p}) == Without(Filter(s, keep), p)
  {
    if s != [] {
      var front, last := s[..|s| - 1], s[|s| - 1];
      FilterWithout(front, keep, p);
      if last == p {
        assert p !in Filter(front, keep) by { FilterMembers(front, keep); }
        WithoutAbsent(Filter(front, keep), p);
      } else if last in keep {
        WithoutLast(Filter(front, keep), last, p);
      }
    }
  }

  lemma WithoutAbsent(f: seq<Ptr>, p: Ptr)
    requires p !in f
    ensures Without(f, p) == f && Without(f + [p], p) == f
  {
    assert (f + [p])[..|f|] == f && f[..|f|] == f;
    PositionAt(f + [p], p, |f|);
    PositionAt(f, p, |f|);
  }

  lemma WithoutLast(f: seq<Ptr>, last: Ptr, p: Ptr)
    requires last != p
    ensures Without(f + [last], p) == Without(f, p) + [last]
  {
    var i := Position(f, p);
    if i < |f| {
      assert (f + [last])[..i] == f[..i];
      PositionAt(f + [last], p, i);
    } else {
      assert f[..i] == f && (f + [last])[..|f| + 1] == f + [last];
      PositionAt(f + [last], p, |f| + 1);
    }
  }
}
