/**
 The built-in page cache: the methods of sqlite3_pcache_methods2 as pcache1.c implements them, for a
 cache with its own page group.
 */
module PageCache {
  import opened Lists
  import opened Options
  import opened PageTable
  import opened PageContract

  const TWO_32 := 0x1_0000_0000

  class PCache1 {
    const bPurgeable: bool

    // the cache
    var nMin: nat
    var nMax: nat
    var n90pct: nat
    var iMaxKey: nat
    var nRecyclable: nat
    var nPage: nat
    var apHash: Table

    // its page group
    var nMaxPage: nat
    var nMinPage: nat
    var mxPinned: nat
    var nCurrentPage: nat
    var lru: seq<Ptr>  // unpinned pages, the one unpinned last first

    // the page objects in memory
    var page: Pages

    /** The table, the list and the counters agree. Nothing is said about two pages with the same key. */
    ghost predicate Consistent()
      reads this
    {
      && Placed(page, apHash)
      && NoDuplicates(lru) && (forall p :: p in lru ==> p in page)
      && nRecyclable == |lru| && nPage == |page|
      && nCurrentPage == (if bPurgeable then nPage else 0)
      && (forall p :: p in page ==> page[p].iKey <= iMaxKey) && iMaxKey < TWO_32
    }

    /** In addition, unpinned pages are kept only while the cache is within its size. */
    ghost predicate Structure()
      reads this
    {
      Consistent() && Limits() && (lru != [] ==> nCurrentPage <= nMaxPage)
    }

    ghost predicate Limits()
      reads this
    {
      && (if bPurgeable then nMin == 10 && nMaxPage == nMax else nMin == 0 && nMax == 0 && nMaxPage == 0)
      && nMinPage == nMin
      && mxPinned == nMaxPage + 10 - nMinPage
      && n90pct == nMax * 9 / 10
    }

    ghost predicate Valid()
      reads this
    {
      Structure() && UniqueKeys(page)
    }

    /** pcache1Create(). */
    constructor (bPurgeable: bool)
      ensures Valid() && page == map[] && this.bPurgeable == bPurgeable
    {
      this.bPurgeable := bPurgeable;
      nMin := if bPurgeable then 10 else 0;
      nMax, n90pct, iMaxKey, nRecyclable, nPage, apHash := 0, 0, 0, 0, 0, [];
      nMaxPage, nMinPage, nCurrentPage, lru, page := 0, if bPurgeable then 10 else 0, 0, [], map[];
      mxPinned := if bPurgeable then 0 else 10;
    }

    /** pcache1Pagecount(). */
    method Pagecount() returns (n: nat)
      requires Structure()
      ensures n == |page|
    {
      n := nPage;
    }

    /** The search of one hash chain. */
    method Find(iKey: nat) returns (pPage: Option<Ptr>)
      requires Structure()
      ensures pPage.Some? <==> HasKey(page, iKey)
      ensures pPage.Some? ==> pPage.value in page && page[pPage.value].iKey == iKey
    {
      TableForPages(page, apHash);
      if |apHash| == 0 {
        return None;
      }
      var h := Bucket(iKey, |apHash|);
      var k := 0;
      while k < |apHash[h]|
        invariant k <= |apHash[h]|
        invariant forall i :: 0 <= i < k ==> apHash[h][i] in page && page[apHash[h][i]].iKey != iKey
      {
        assert apHash[h][k] in apHash[h] && BucketOf(page, apHash, h, apHash[h][k]);
        if page[apHash[h][k]].iKey == iKey {
          return Some(apHash[h][k]);
        }
        k := k + 1;
      }
      forall p | p in page
        ensures page[p].iKey != iKey
      {
        PlacedPage(page, apHash, p);
      }
      return None;
    }

    /** pcache1PinPage(): takes the page off the list of unpinned pages if it is there. */
    method PinPage(p: Ptr)
      requires Consistent() && p in page
      modifies this`lru, this`nRecyclable
      ensures Consistent() && lru == Without(old(lru), p)
    {
      WithoutMembers(lru, p);
      var k := FindIn(lru, p);
      if k < |lru| {
        lru := lru[..k] + lru[k + 1..];
        nRecyclable := nRecyclable - 1;
      }
    }

    /** pcache1RemoveFromHash() and pcache1FreePage(). */
    method FreePage(p: Ptr)
      requires Consistent() && p in page && p !in lru
      modifies this`apHash, this`nPage, this`nCurrentPage, this`page
      ensures Consistent() && page == old(page) - {p}
      ensures |old(apHash)| > 0 && apHash == Unhashed(old(apHash), Bucket(old(page)[p].iKey, |old(apHash)|), p)
    {
      DropPlaced(page, apHash, p);
      var h := Bucket(page[p].iKey, |apHash|);
      var k := FindIn(apHash[h], p);
      PlacedPage(page, apHash, p);
      apHash := apHash[h := apHash[h][..k] + apHash[h][k + 1..]];
      assert apHash == Unhashed(old(apHash), h, p);
      page := page - {p};
      nPage := nPage - 1;
      if bPurgeable {
        nCurrentPage := nCurrentPage - 1;
      }
    }

    /** pcache1EnforceMaxPage(): recycles unpinned pages, the longest unpinned first, down to the limit. */
    method EnforceMaxPage()
      requires Consistent()
      modifies this`apHash, this`nPage, this`nCurrentPage, this`page, this`lru, this`nRecyclable
      ensures Consistent()
      ensures nCurrentPage <= nMaxPage || lru == []
      ensures lru <= old(lru)
      ensures Lost(old(page), page, old(lru)[|lru|..])
    {
      ghost var all, before := lru, page;
      while nCurrentPage > nMaxPage && lru != []
        invariant Consistent() && lru <= all
        invariant Lost(before, page, all[|lru|..])
        decreases |lru|
      {
        ghost var now, gone := page, all[|lru|..];
        var p := RecycleLast();
        LongerTail(all, |lru|);
      }
    }

    /** pcache1ResizeHash(): a larger table if there is memory for it; fails only if there is no table at all. */
    method ResizeHash(memory: bool) returns (ok: bool)
      requires Consistent()
      modifies this`apHash
      ensures Consistent()
      ensures ok <==> memory || |old(apHash)| > 0
      ensures ok <==> |apHash| > 0
    {
      var nNew := if 2 * |apHash| < 256 then 256 else 2 * |apHash|;
      if memory {
        apHash := Rehash(page, apHash, nNew);
      }
      ok := |apHash| > 0;
    }

    /** The cache as its client knows it: every page that is not on the list is pinned. */
    ghost function Abs(): Cache
      reads this
    {
      View(page, lru)
    }

    lemma NoMoreRecyclable()
      requires Consistent()
      ensures nRecyclable <= nPage
    {
      PinnedPages();
    }

    /** createFlag 1: a new page is refused when pinned pages or memory are close to their limits. */
    predicate Refused(pressure: bool)
      reads this`nPage, this`nRecyclable, this`mxPinned, this`n90pct
    {
      var nPinned: int := nPage - nRecyclable;
      nPinned >= mxPinned || nPinned >= n90pct || pressure
    }

    /** The cache is at its size, so that an unpinned page is taken before a new one is allocated. */
    predicate Recycles(pressure: bool)
      reads this`lru, this`nPage, this`nMax, this`nCurrentPage, this`nMaxPage
    {
      bPurgeable && lru != [] && (nPage + 1 >= nMax || nCurrentPage >= nMaxPage || pressure)
    }

    /** The pinned pages are those that are not on the list. */
    lemma PinnedPages()
      requires Consistent()
      ensures |Abs().pinned| == nPage - nRecyclable
    {
      ListSize(lru);
      assert Elements(lru) <= page.Keys;
      assert |page.Keys - Elements(lru)| == |page.Keys| - |Elements(lru)|;
    }

    /** Refusal in terms of pinned pages and the size of the cache. */
    lemma RefusedIff(pressure: bool)
      requires Structure() && bPurgeable
      ensures Refused(pressure) <==> |Abs().pinned| >= nMax || |Abs().pinned| >= nMax * 9 / 10 || pressure
    {
      PinnedPages();
    }

    /** Recycling in terms of the number of entries, the unpinned ones and the size of the cache. */
    lemma RecyclesIff(pressure: bool)
      requires Structure()
      ensures Recycles(pressure) <==> bPurgeable && lru != [] && (|page| + 1 >= nMax || pressure)
    {
    }

    /**
     pcache1Fetch(). `malloc` is the page that an allocation would give, `table` whether there is memory
     for a larger hash table, `pressure` the answer of pcache1UnderMemoryPressure().
     */
    method Fetch(iKey: nat, createFlag: nat, malloc: Option<Ptr>, buf: Buf, table: bool, pressure: bool)
      returns (r: Option<Ptr>)
      requires Structure() && iKey < TWO_32 && createFlag <= 2 && (createFlag == 1 ==> bPurgeable)
      requires malloc.Some? ==> malloc.value !in page
      modifies this`page, this`apHash, this`nPage, this`nCurrentPage, this`iMaxKey, this`lru, this`nRecyclable
      ensures Structure()
      ensures FetchAnswer(bPurgeable, nMax, old(page), old(lru), |old(apHash)| > 0 || table, iKey, createFlag, malloc,
                          buf, pressure, r, page, lru)
    {
      r := Find(iKey);
      if r.Some? {
        FetchHit(iKey, r.value);
        HitAnswer(bPurgeable, nMax, page, old(lru), |apHash| > 0 || table, iKey, createFlag, malloc, buf, pressure,
                  r.value);
      } else {
        r := FetchMiss(iKey, createFlag, malloc, buf, table, pressure);
      }
    }

    /** A hit pins the page. */
    method FetchHit(iKey: nat, p: Ptr)
      requires Structure() && p in page && page[p].iKey == iKey
      modifies this`lru, this`nRecyclable
      ensures Structure() && lru == Without(old(lru), p)
    {
      WithoutMembers(lru, p);
      PinPage(p);
    }

    /** A miss, as the client sees it. */
    method FetchMiss(iKey: nat, createFlag: nat, malloc: Option<Ptr>, buf: Buf, table: bool, pressure: bool)
      returns (r: Option<Ptr>)
      requires Structure() && iKey < TWO_32 && !HasKey(page, iKey) && (createFlag == 1 ==> bPurgeable)
      requires malloc.Some? ==> malloc.value !in page
      modifies this`page, this`apHash, this`nPage, this`nCurrentPage, this`iMaxKey, this`lru, this`nRecyclable
      ensures Structure()
      ensures FetchAnswer(bPurgeable, nMax, old(page), old(lru), |old(apHash)| > 0 || table, iKey, createFlag, malloc,
                          buf, pressure, r, page, lru)
    {
      if bPurgeable {
        RefusedIff(pressure);
      }
      RecyclesIff(pressure);
      r := None;
      if createFlag != 0 {
        r := FetchNew(iKey, createFlag, malloc, buf, table, pressure);
      }
      NewPageMeetsContract(old(page), old(lru), iKey, r, page, lru);
    }

    /** Steps 3 to 5 of pcache1Fetch(). */
    method FetchNew(iKey: nat, createFlag: nat, malloc: Option<Ptr>, buf: Buf, table: bool, pressure: bool)
      returns (r: Option<Ptr>)
      requires Structure() && iKey < TWO_32 && !HasKey(page, iKey)
      requires malloc.Some? ==> malloc.value !in page
      modifies this`page, this`apHash, this`nPage, this`nCurrentPage, this`iMaxKey, this`lru, this`nRecyclable
      ensures Structure()
      ensures r == None ==> page == old(page) && lru == old(lru)
      ensures r.Some? <==>
        && (createFlag == 1 ==> !old(Refused(pressure)))
        && (old(nPage) < |old(apHash)| || table || |old(apHash)| > 0)
        && (old(Recycles(pressure)) || malloc.Some?)
      ensures r.Some? && old(Recycles(pressure)) ==>
        && r.value == old(lru)[|old(lru)| - 1] && lru == old(lru)[..|old(lru)| - 1]
        && page == old(page)[r.value := PgHdr1(iKey, old(page)[r.value].pBuf, false)]
      ensures r.Some? && !old(Recycles(pressure)) ==>
        && r == malloc && lru == old(lru)
        && page == old(page)[r.value := PgHdr1(iKey, buf, false)]
    {
      r := None;
      if createFlag == 1 && Refused(pressure) {
        return;
      }
      if nPage >= |apHash| {
        var ok := ResizeHash(table);
        if !ok {
          return;
        }
      }
      r := Obtain(iKey, malloc, buf, pressure);
    }

    /** Steps 4 and 5 of pcache1Fetch(): takes the page unpinned longest or a new one. */
    method Obtain(iKey: nat, malloc: Option<Ptr>, buf: Buf, pressure: bool) returns (r: Option<Ptr>)
      requires Structure() && iKey < TWO_32 && |apHash| > 0
      requires malloc.Some? ==> malloc.value !in page
      modifies this`page, this`apHash, this`nPage, this`nCurrentPage, this`iMaxKey, this`lru, this`nRecyclable
      ensures Structure()
      ensures r.Some? <==> old(Recycles(pressure)) || malloc.Some?
      ensures r == None ==> page == old(page) && lru == old(lru)
      ensures r.Some? && old(Recycles(pressure)) ==>
        && r.value == old(lru)[|old(lru)| - 1] && lru == old(lru)[..|old(lru)| - 1]
        && page == old(page)[r.value := PgHdr1(iKey, old(page)[r.value].pBuf, false)]
      ensures r.Some? && !old(Recycles(pressure)) ==>
        r == malloc && lru == old(lru) && page == old(page)[r.value := PgHdr1(iKey, buf, false)]
    {
      var pBuf := buf;
      if Recycles(pressure) {
        ghost var pg := page;
        pBuf := page[lru[|lru| - 1]].pBuf;
        var p := RecycleLast();
        r := Some(p);
        assert page[p := PgHdr1(iKey, pBuf, false)] == pg[p := PgHdr1(iKey, pBuf, false)];
      } else {
        r := malloc;
      }
      if r.Some? {
        Insert(r.value, PgHdr1(iKey, pBuf, false));
      }
    }

    /** The last part of pcache1Fetch(): the new page enters the table, and is pinned. */
    method Insert(p: Ptr, hdr: PgHdr1)
      requires Consistent() && hdr.iKey < TWO_32 && p !in page && |apHash| > 0
      modifies this`page, this`apHash, this`nPage, this`nCurrentPage, this`iMaxKey
      ensures Consistent() && page == old(page)[p := hdr]
      ensures nCurrentPage == old(nCurrentPage) + if bPurgeable then 1 else 0
    {
      AddPlaced(page, apHash, p, hdr);
      var h := Bucket(hdr.iKey, |apHash|);
      apHash := apHash[h := [p] + apHash[h]];
      page := page[p := hdr];
      assert page.Keys == old(page).Keys + {p};
      nPage := nPage + 1;
      if bPurgeable {
        nCurrentPage := nCurrentPage + 1;
      }
      if hdr.iKey > iMaxKey {
        iMaxKey := hdr.iKey;
      }
    }

    /** pcache1Unpin(). */
    method Unpin(p: Ptr, discard: bool)
      requires Structure() && p in page && p !in lru
      modifies this`page, this`apHash, this`nPage, this`nCurrentPage, this`lru, this`nRecyclable
      ensures Structure()
      ensures old(UniqueKeys(page)) ==> UniqueKeys(page)
      ensures if discard || (bPurgeable && |old(page)| > old(nMax))
              then page == old(page) - {p} && lru == old(lru)
              else page == old(page) && lru == [p] + old(lru)
      ensures UnpinOk(old(Abs()), p, discard, Abs())
    {
      if discard || nCurrentPage > nMaxPage {
        FreePage(p);
      } else {
        lru := [p] + lru;
        nRecyclable := nRecyclable + 1;
      }
    }

    /** pcache1Rekey(). An entry that is already under iNew is not looked for. */
    method Rekey(p: Ptr, iOld: nat, iNew: nat)
      requires Structure() && p in page && page[p].iKey == iOld && iNew < TWO_32
      modifies this`page, this`apHash, this`iMaxKey
      ensures Structure()
      ensures page == Rekeyed(old(page), p, iNew)
    {
      ghost var pg := page;
      DropPlaced(page, apHash, p);
      PlacedPage(page, apHash, p);
      var n := |apHash|;
      var h := Bucket(iOld, n);
      var k := FindIn(apHash[h], p);
      apHash := apHash[h := apHash[h][..k] + apHash[h][k + 1..]];
      assert apHash == Unhashed(old(apHash), h, p);
      AddPlaced(page - {p}, apHash, p, page[p].(iKey := iNew));
      assert (page - {p})[p := page[p].(iKey := iNew)] == page[p := page[p].(iKey := iNew)];
      h := Bucket(iNew, n);
      apHash := apHash[h := [p] + apHash[h]];
      page := page[p := page[p].(iKey := iNew)];
      assert page.Keys == pg.Keys;
      if iNew > iMaxKey {
        iMaxKey := iNew;
      }
    }

    /** The client changes the content of a page, and marks it as filled. */
    method SetContent(p: Ptr, buf: Buf)
      requires Structure() && p in page
      modifies this`page
      ensures Structure()
      ensures page == old(page)[p := old(page)[p].(pBuf := buf, isInit := true)]
    {
      SameKeysPlaced(page, page[p := page[p].(pBuf := buf, isInit := true)], apHash);
      page := page[p := page[p].(pBuf := buf, isInit := true)];
      assert page.Keys == old(page).Keys;
    }

    method SetMax(nMax: nat)
      requires bPurgeable && Consistent() && Limits()
      modifies this`nMax, this`nMaxPage, this`mxPinned, this`n90pct
      ensures Consistent() && Limits() && this.nMax == nMax
    {
      nMaxPage := nMaxPage + nMax - this.nMax;
      mxPinned := nMaxPage + 10 - nMinPage;
      this.nMax := nMax;
      n90pct := nMax * 9 / 10;
    }

    /** pcache1Cachesize(). */
    method Cachesize(nMax: nat)
      requires Structure()
      modifies this`page, this`apHash, this`nPage, this`nCurrentPage, this`lru, this`nRecyclable
      modifies this`nMax, this`nMaxPage, this`mxPinned, this`n90pct
      ensures Structure()
      ensures bPurgeable ==> this.nMax == nMax && (nCurrentPage <= nMax || lru == [])
      ensures !bPurgeable ==> page == old(page)
      ensures lru <= old(lru) && Lost(old(page), page, old(lru)[|lru|..])
      ensures Abs().pinned == old(Abs()).pinned && Evicted(old(page), old(Abs()).pinned, page)
    {
      if bPurgeable {
        SetMax(nMax);
        EnforceMaxPage();
      } else {
        assert lru[|lru|..] == [];
      }
    }

    /** pcache1Shrink(): a purgeable cache is left with its pinned pages. */
    method Shrink()
      requires Structure()
      modifies this`page, this`apHash, this`nPage, this`nCurrentPage, this`lru, this`nRecyclable, this`nMaxPage
      ensures Structure() && nMaxPage == old(nMaxPage)
      ensures bPurgeable ==> Abs() == Cache(Moved(old(page), old(Abs()).pinned), old(Abs()).pinned)
      ensures !bPurgeable ==> Abs() == old(Abs())
    {
      if bPurgeable {
        var savedMaxPage := nMaxPage;
        assert lru[0..] == lru;
        nMaxPage := 0;
        EnforceMaxPage();
        nMaxPage := savedMaxPage;
        AllUnpinnedGone(old(page), page, old(lru));
      }
    }

    /** pcache1Truncate(): a limit above every key that was ever used needs no search. */
    method Truncate(iLimit: nat)
      requires Structure()
      modifies this`page, this`apHash, this`nPage, this`nCurrentPage, this`lru, this`nRecyclable, this`iMaxKey
      ensures Structure()
      ensures page == Below(old(page), iLimit)
      ensures forall p :: p in page <==> p in old(page) && old(page)[p].iKey < iLimit
      ensures lru == Filter(old(lru), page.Keys)
      ensures TruncateOk(old(Abs()), iLimit, Abs())
    {
      TruncateMeetsContract(page, lru, iLimit);
      FilterAll(lru, page.Keys);
      if iLimit <= iMaxKey {
        TruncateUnsafe(iLimit);
        SetMaxKey((iLimit - 1) % TWO_32);
      }
      assert page == Below(old(page), iLimit);
    }

    method SetMaxKey(key: nat)
      requires Consistent() && key < TWO_32 && forall p :: p in page ==> page[p].iKey <= key
      modifies this`iMaxKey
      ensures Consistent() && iMaxKey == key
    {
      iMaxKey := key;
    }

    /** pcache1TruncateUnsafe(): walks every chain of the table and unlinks as it goes. */
    method TruncateUnsafe(iLimit: nat)
      requires Consistent()
      modifies this`apHash, this`nPage, this`nCurrentPage, this`page, this`lru, this`nRecyclable
      ensures Consistent()
      ensures page == Below(old(page), iLimit)
      ensures lru == Filter(old(lru), page.Keys)
      ensures nCurrentPage <= old(nCurrentPage)
    {
      ghost var before, list := page, lru;
      FilterAll(lru, page.Keys);
      var h := 0;
      while h < |apHash|
        invariant h <= |apHash|
        invariant Consistent() && nCurrentPage <= old(nCurrentPage)
        invariant Trimmed(before, page, iLimit) && lru == Filter(list, page.Keys)
        invariant forall g: nat {:trigger Low(page, apHash[g], iLimit)} :: g < h ==> Low(page, apHash[g], iLimit)
      {
        ghost var pg, tab := page, apHash;
        TrimChain(h, iLimit, list);
        assert forall g: nat :: g < h ==> Low(pg, tab[g], iLimit) && apHash[g] == tab[g];
        h := h + 1;
      }
      AllLow(page, apHash, iLimit);
    }

    /** One chain of pcache1TruncateUnsafe(). */
    method TrimChain(h: nat, iLimit: nat, ghost list: seq<Ptr>)
      requires Consistent() && h < |apHash|
      requires NoDuplicates(list) && lru == Filter(list, page.Keys)
      modifies this`apHash, this`nPage, this`nCurrentPage, this`page, this`lru, this`nRecyclable
      ensures Consistent() && nCurrentPage <= old(nCurrentPage)
      ensures Trimmed(old(page), page, iLimit) && lru == Filter(list, page.Keys)
      ensures |apHash| == |old(apHash)| && apHash == old(apHash)[h := apHash[h]]
      ensures Low(page, apHash[h], iLimit)
    {
      ghost var before, tab := page, apHash;
      var k := 0;
      while k < |apHash[h]|
        invariant |apHash| == |tab| && apHash == tab[h := apHash[h]] && k <= |apHash[h]|
        invariant Consistent() && nCurrentPage <= old(nCurrentPage)
        invariant Trimmed(before, page, iLimit) && lru == Filter(list, page.Keys)
        invariant Low(page, apHash[h][..k], iLimit)
        decreases |apHash[h]| - k
      {
        OneChain(page, apHash, h, apHash[h][k]);
        if page[apHash[h][k]].iKey >= iLimit {
          ghost var chain := apHash[h];
          RemoveAt(h, k, list);
          assert apHash[h][..k] == chain[..k];
        } else {
          assert apHash[h][..k + 1] == apHash[h][..k] + [apHash[h][k]];
          k := k + 1;
        }
      }
      assert apHash[h][..k] == apHash[h];
    }

    /** Unlinks the page at position k of chain h. */
    method RemoveAt(h: nat, k: nat, ghost list: seq<Ptr>)
      requires Consistent() && h < |apHash| && k < |apHash[h]|
      requires NoDuplicates(list) && lru == Filter(list, page.Keys)
      modifies this`apHash, this`nPage, this`nCurrentPage, this`page, this`lru, this`nRecyclable
      ensures Consistent() && nCurrentPage <= old(nCurrentPage)
      ensures old(apHash)[h][k] in old(page) && page == old(page) - {old(apHash)[h][k]}
      ensures apHash == old(apHash)[h := old(apHash)[h][..k] + old(apHash)[h][k + 1..]]
      ensures lru == Filter(list, page.Keys)
    {
      var p := apHash[h][k];
      OneChain(page, apHash, h, p);
      assert NoDuplicates(apHash[h]);
      PositionAt(apHash[h], p, k);
      FilterWithout(list, page.Keys, p);
      WithoutMembers(lru, p);
      assert (page - {p}).Keys == page.Keys - {p};
      PinPage(p);
      FreePage(p);
    }

    /** Frees the page that has been unpinned longest. */
    method RecycleLast() returns (p: Ptr)
      requires Consistent() && lru != []
      modifies this`apHash, this`nPage, this`nCurrentPage, this`page, this`lru, this`nRecyclable
      ensures Consistent()
      ensures p == old(lru)[|old(lru)| - 1] && lru == old(lru)[..|old(lru)| - 1]
      ensures page == old(page) - {p} && |apHash| == |old(apHash)|
    {
      p := lru[|lru| - 1];
      PinLast(lru);
      PinPage(p);
      FreePage(p);
    }
  }

  /** The search of a list for a page. */
  method FindIn(s: seq<Ptr>, p: Ptr) returns (k: nat)
    ensures k == Position(s, p)
  {
    k := 0;
    while k < |s| && s[k] != p
      invariant k <= |s| && p !in s[..k]
    {
      k := k + 1;
    }
    PositionAt(s, p, k);
  }

  /** The copying loop of pcache1ResizeHash(). */
  method Rehash(page: Pages, apHash: Table, nNew: nat) returns (apNew: Table)
    requires Placed(page, apHash) && nNew > 0
    ensures |apNew| == nNew && Placed(page, apNew)
  {
    apNew := seq(nNew, _ => []);
    assert Moved(page, Visited(apHash, 0, 0)) == map[];
    var h := 0;
    while h < |apHash|
      invariant h <= |apHash| && |apNew| == nNew
      invariant Placed(Moved(page, Visited(apHash, h, 0)), apNew)
    {
      apNew := RehashChain(page, apHash, h, apNew);
      VisitChain(apHash, h);
      h := h + 1;
    }
    VisitedAll(page, apHash);
  }

  method RehashChain(page: Pages, apHash: Table, h: nat, apIn: Table) returns (apNew: Table)
    requires Placed(page, apHash) && h < |apHash| && |apIn| > 0
    requires Placed(Moved(page, Visited(apHash, h, 0)), apIn)
    ensures |apNew| == |apIn| && Placed(Moved(page, Visited(apHash, h, |apHash[h]|)), apNew)
  {
    apNew := apIn;
    var k := 0;
    while k < |apHash[h]|
      invariant k <= |apHash[h]| && |apNew| == |apIn|
      invariant Placed(Moved(page, Visited(apHash, h, k)), apNew)
    {
      var pPage := apHash[h][k];
      VisitNext(page, apHash, h, k);
      MoveOneMore(page, Visited(apHash, h, k), apNew, pPage);
      var b := Bucket(page[pPage].iKey, |apNew|);
      apNew := apNew[b := [pPage] + apNew[b]];
      k := k + 1;
    }
  }

  lemma LongerTail(s: seq<Ptr>, k: nat)
    requires k < |s|
    ensures s[k..] == [s[k]] + s[k + 1..]
  {
  }

  /**
   What a client gets for a key that the cache does not have. With createFlag 1 a page is given only while fewer
   than nMax pages and than nine tenths of nMax are pinned and memory is not short. In a full cache the page
   unpinned longest is used again; otherwise memory is asked for.
   */
  ghost predicate MissAnswer(bPurgeable: bool, nMax: nat, page: Pages, lru: seq<Ptr>, table: bool, iKey: nat,
                             createFlag: nat, malloc: Option<Ptr>, buf: Buf, pressure: bool,
                             r: Option<Ptr>, after: Pages, left: seq<Ptr>)
  {
    var nPinned := |View(page, lru).pinned|;
    var full := bPurgeable && lru != [] && (|page| + 1 >= nMax || pressure);
    && (r.Some? <==>
          && createFlag != 0
          && (createFlag == 1 ==> nPinned < nMax && nPinned < nMax * 9 / 10 && !pressure)
          && table && (full || malloc.Some?))
    && (r == None ==> after == page && left == lru)
    && (r.Some? && full ==>
          && r.value == lru[|lru| - 1] && r.value in page && left == lru[..|lru| - 1]
          && after == page[r.value := PgHdr1(iKey, page[r.value].pBuf, false)])
    && (r.Some? && !full ==> r == malloc && left == lru && after == page[r.value := PgHdr1(iKey, buf, false)])
  }

  /**
   What a client gets for a key: the page that is under it, pinned, or what MissAnswer says; in either case as
   the interface asks, and without a second page under the same key.
   */
  ghost predicate FetchAnswer(bPurgeable: bool, nMax: nat, page: Pages, lru: seq<Ptr>, table: bool, iKey: nat,
                              createFlag: nat, malloc: Option<Ptr>, buf: Buf, pressure: bool,
                              r: Option<Ptr>, after: Pages, left: seq<Ptr>)
  {
    && (UniqueKeys(page) ==> UniqueKeys(after))
    && FetchOk(View(page, lru), iKey, r, View(after, left))
    && if HasKey(page, iKey)
       then r.Some? && r.value in page && page[r.value].iKey == iKey && after == page && left == Without(lru, r.value)
       else MissAnswer(bPurgeable, nMax, page, lru, table, iKey, createFlag, malloc, buf, pressure, r, after, left)
  }

  lemma HitAnswer(bPurgeable: bool, nMax: nat, page: Pages, lru: seq<Ptr>, table: bool, iKey: nat, createFlag: nat,
                  malloc: Option<Ptr>, buf: Buf, pressure: bool, p: Ptr)
    requires NoDuplicates(lru) && p in page && page[p].iKey == iKey
    ensures FetchAnswer(bPurgeable, nMax, page, lru, table, iKey, createFlag, malloc, buf, pressure,
                        Some(p), page, Without(lru, p))
  {
  }

  function Elements(s: seq<Ptr>): set<Ptr> { set p | p in s }

  lemma {:induction false} ListSize(s: seq<Ptr>)
    requires NoDuplicates(s)
    ensures |Elements(s)| == |s|
  {
    if s == [] {
      assert Elements(s) == {};
    } else {
      var front, last := s[..|s| - 1], s[|s| - 1];
      ListSize(front);
      assert s == front + [last] && last !in front;
      assert Elements(s) == Elements(front) + {last};
    }
  }

  lemma PinLast(s: seq<Ptr>)
    requires s != [] && NoDuplicates(s)
    ensures Without(s, s[|s| - 1]) == s[..|s| - 1]
  {
    PositionAt(s, s[|s| - 1], |s| - 1);
  }

  ghost function View(page: Pages, lru: seq<Ptr>): Cache {
    Cache(page, page.Keys - Elements(lru))
  }

  /** Nothing new, or a new page that takes the place of the page unpinned longest or of none. */
  ghost predicate Added(page: Pages, lru: seq<Ptr>, key: nat, r: Option<Ptr>, after: Pages, left: seq<Ptr>) {
    match r
    case None => after == page && left == lru
    case Some(p) =>
      && p in after && after[p].iKey == key && !after[p].isInit && after == page[p := after[p]]
      && if p in page then lru != [] && p == lru[|lru| - 1] && left == lru[..|lru| - 1]
         else p !in lru && left == lru
  }

  lemma NewPageMeetsContract(page: Pages, lru: seq<Ptr>, key: nat, r: Option<Ptr>, after: Pages, left: seq<Ptr>)
    requires NoDuplicates(lru) && !HasKey(page, key) && Added(page, lru, key, r, after, left)
    ensures FetchOk(View(page, lru), key, r, View(after, left))
    ensures UniqueKeys(page) ==> UniqueKeys(after)
  {
    if r.Some? {
      assert r.value in page ==> lru == left + [r.value];
    }
  }

  lemma TruncateMeetsContract(page: Pages, lru: seq<Ptr>, iLimit: nat)
    ensures TruncateOk(View(page, lru), iLimit, View(Below(page, iLimit), Filter(lru, Below(page, iLimit).Keys)))
  {
    FilterMembers(lru, Below(page, iLimit).Keys);
  }

  lemma AllUnpinnedGone(before: Pages, after: Pages, lru: seq<Ptr>)
    requires Lost(before, after, lru)
    ensures View(after, []) == Cache(Moved(before, View(before, lru).pinned), View(before, lru).pinned)
  {
  }

  /** Some of the pages at or above the limit are gone. */
  ghost predicate Trimmed(before: Pages, page: Pages, iLimit: nat) {
    && (forall p :: p in page ==> p in before && page[p] == before[p])
    && (forall p :: p in before && before[p].iKey < iLimit ==> p in page)
  }

  ghost predicate Low(page: Pages, s: seq<Ptr>, iLimit: nat) {
    forall p :: p in s ==> p in page && page[p].iKey < iLimit
  }

  lemma AllLow(page: Pages, tab: Table, iLimit: nat)
    requires Placed(page, tab)
    requires forall g: nat {:trigger Low(page, tab[g], iLimit)} :: g < |tab| ==> Low(page, tab[g], iLimit)
    ensures forall p :: p in page ==> page[p].iKey < iLimit
  {
    forall p | p in page
      ensures page[p].iKey < iLimit
    {
      PlacedPage(page, tab, p);
      assert Low(page, tab[Bucket(page[p].iKey, |tab|)], iLimit);
    }
  }

  // ----- xRekey -----

  ghost function Rekeyed(page: Pages, p: Ptr, iNew: nat): Pages
    requires p in page
  {
    page[p := page[p].(iKey := iNew)]
  }

  /** The cache drops what was under the new key, as the interface asks, exactly if nothing was there. */
  lemma RekeyMeetsContractIff(page: Pages, lru: seq<Ptr>, p: Ptr, iNew: nat)
    requires UniqueKeys(page) && p in page
    ensures RekeyOk(View(page, lru), p, iNew, View(Rekeyed(page, p, iNew), lru))
       <==> page[p].iKey == iNew || !HasKey(page, iNew)
    ensures UniqueKeys(Rekeyed(page, p, iNew)) <==> page[p].iKey == iNew || !HasKey(page, iNew)
    ensures HasKey(Rekeyed(page, p, iNew), iNew)
    ensures page[p].iKey != iNew ==> !HasKey(Rekeyed(page, p, iNew), page[p].iKey)
  {
    var after := Rekeyed(page, p, iNew);
    assert after.Keys == page.Keys;
    assert p in after && after[p].iKey == iNew;
    if HasKey(page, iNew) && page[p].iKey != iNew {
      var q :| q in page && page[q].iKey == iNew;
      assert q in after && after[q].iKey == iNew && q != p;
    } else {
      assert forall q :: q in page && page[q].iKey == iNew ==> q == p;
    }
  }

  /** Otherwise the entry that was there comes back with its stale content once the moved page is gone. */
  lemma StaleAfterRekey(page: Pages, lru: seq<Ptr>, p: Ptr, q: Ptr, iNew: nat, r: Option<Ptr>, d: Cache)
    requires UniqueKeys(page) && p in page && q in page && page[q].iKey == iNew && page[p].iKey != iNew
    requires FetchOk(View(Rekeyed(page, p, iNew) - {p}, lru), iNew, r, d)
    ensures r == Some(q) && d.page[q].pBuf == page[q].pBuf
  {
    var left := Rekeyed(page, p, iNew) - {p};
    assert q in left && left[q].iKey == iNew;
    assert forall x :: x in left ==> left[x] == page[x];
  }
}
