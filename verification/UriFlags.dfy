/** The groups of flags that the parameters of a URI filename set, as bits of a 32-bit word. */
module UriFlags {

  const SQLITE_OPEN_READONLY: bv32 := 0x00000001
  const SQLITE_OPEN_READWRITE: bv32 := 0x00000002
  const SQLITE_OPEN_CREATE: bv32 := 0x00000004
  const SQLITE_OPEN_MEMORY: bv32 := 0x00000080
  const SQLITE_OPEN_SHAREDCACHE: bv32 := 0x00020000
  const SQLITE_OPEN_PRIVATECACHE: bv32 := 0x00040000

  const ACCESS_MASK: bv32 := 0x00000087  // the first four
  const CACHE_MASK: bv32 := 0x00060000   // the last two

  function SetMode(flags: bv32, mask: bv32, mode: bv32): bv32 {
    (flags & !mask) | mode
  }

  predicate IsMode(mode: bv32) { mode == 1 || mode == 2 || mode == 6 || mode == 0x80 }

  predicate IsCache(mode: bv32) { mode == 0x20000 || mode == 0x40000 }

  /** The flags that say how the database is accessed, which cache it has, and all others. */
  function AccessFlags(flags: bv32): bv32 { flags & 0x87 }

  function CacheFlags(flags: bv32): bv32 { flags & 0x60000 }

  function OtherFlags(flags: bv32): bv32 { flags & 0xFFF9FF78 }

  /** A mode replaces the access flags and nothing else. */
  lemma ModeBits(flags: bv32, mode: bv32)
    requires IsMode(mode)
    ensures AccessFlags(SetMode(flags, ACCESS_MASK, mode)) == mode
    ensures CacheFlags(SetMode(flags, ACCESS_MASK, mode)) == CacheFlags(flags)
    ensures OtherFlags(SetMode(flags, ACCESS_MASK, mode)) == OtherFlags(flags)
  {
  }

  /** A cache mode replaces the cache flags and nothing else. */
  lemma CacheBits(flags: bv32, mode: bv32)
    requires IsCache(mode)
    ensures CacheFlags(SetMode(flags, CACHE_MASK, mode)) == mode
    ensures AccessFlags(SetMode(flags, CACHE_MASK, mode)) == AccessFlags(flags)
    ensures OtherFlags(SetMode(flags, CACHE_MASK, mode)) == OtherFlags(flags)
  {
  }

  const SQLITE_OPEN_URI: bv32 := 0x00000040

  function WithoutUri(flags: bv32): bv32 { flags & !SQLITE_OPEN_URI }

  /** Exactly the flag for URIs is cleared. */
  lemma WithoutUriIs(flags: bv32)
    ensures WithoutUri(flags) & 0x40 == 0 && WithoutUri(flags) | 0x40 == flags | 0x40
  {
  }
}
