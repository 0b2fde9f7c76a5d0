/**
 What the interface of sqlite3_pcache_methods2 asks of any page cache, whatever its policy: pinned
 pages stay, unpinned pages may vanish during any call, and no page changes by itself.
 */
module PageContract {
  import opened Options
  import opened PageTable

  datatype Cache = Cache(page: Pages, pinned: set<Ptr>)

  ghost predicate HasKey(page: Pages, key: nat) {
    exists p :: p in page && page[p].iKey == key
  }

  /** The pages with keys below the limit. */
  function Below(page: Pages, iLimit: nat): Pages {
    map p | p in page && page[p].iKey < iLimit :: page[p]
  }

  /** Nothing has changed, except that pages outside `pinned` may be gone. */
  ghost predicate Evicted(before: Pages, pinned: set<Ptr>, after: Pages) {
    && (forall p :: p in after ==> p in before && after[p] == before[p])
    && (forall p :: p in before && p in pinned ==> p in after)
  }

  /** A hit returns the page under the key as it is; a new page says that it has no content yet. */
  ghost predicate FetchOk(c: Cache, key: nat, r: Option<Ptr>, d: Cache) {
    match r
    case None => !HasKey(c.page, key) && d.pinned == c.pinned && Evicted(c.page, c.pinned, d.page)
    case Some(p) =>
      && d.pinned == c.pinned + {p}
      && p in d.page && d.page[p].iKey == key
      && if HasKey(c.page, key)
         then p in c.page && Evicted(c.page, c.pinned + {p}, d.page)
         else p !in c.pinned && !d.page[p].isInit && Evicted(c.page, c.pinned, d.page - {p})
  }

  ghost predicate UnpinOk(c: Cache, p: Ptr, discard: bool, d: Cache) {
    && d.pinned == c.pinned - {p}
    && Evicted(c.page, d.pinned, d.page)
    && (discard ==> p !in d.page)
  }

  /** The page is now under the new key, and no other page is. */
  ghost predicate RekeyOk(c: Cache, p: Ptr, newKey: nat, d: Cache)
    requires p in c.page
  {
    && d.pinned == c.pinned
    && p in d.page && d.page[p] == c.page[p].(iKey := newKey)
    && Evicted(c.page - {p}, c.pinned, d.page - {p})
    && (forall q :: q in d.page && d.page[q].iKey == newKey ==> q == p)
  }

  ghost predicate TruncateOk(c: Cache, iLimit: nat, d: Cache) {
    && d.pinned == c.pinned * Below(c.page, iLimit).Keys
    && Evicted(Below(c.page, iLimit), c.pinned, d.page)
  }
}
