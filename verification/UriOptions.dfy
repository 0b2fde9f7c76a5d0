/**
 sqlite3ParseUri(), second part: the parameters vfs, mode and cache.
 */
module UriOptions {
  import opened Options
  import opened UriDecoding
  import opened UriFlags

  datatype OpenMode = OpenMode(z: string, mode: bv32)

  const aCacheMode: seq<OpenMode> :=
    [OpenMode("shared", SQLITE_OPEN_SHAREDCACHE), OpenMode("private", SQLITE_OPEN_PRIVATECACHE)]

  const aOpenMode: seq<OpenMode> :=
    [OpenMode("ro", SQLITE_OPEN_READONLY), OpenMode("rw", SQLITE_OPEN_READWRITE),
     OpenMode("rwc", SQLITE_OPEN_READWRITE | SQLITE_OPEN_CREATE), OpenMode("memory", SQLITE_OPEN_MEMORY)]

  /** SQLITE_ERROR for an unknown mode or VFS, SQLITE_PERM for a mode that is not allowed. */
  datatype Parsed =
    | Opening(flags: bv32, zVfs: Option<string>)
    | NoSuchMode(value: string)
    | NotAllowed(value: string)

  function ModeOf(aMode: seq<OpenMode>, zVal: string): bv32 {
    if aMode == [] then 0 else if aMode[0].z == zVal then aMode[0].mode else ModeOf(aMode[1..], zVal)
  }

  /** The loop over a table of modes. */
  method FindMode(aMode: seq<OpenMode>, zVal: string) returns (mode: bv32)
    ensures mode == ModeOf(aMode, zVal)
  {
    var i := 0;
    while i < |aMode|
      invariant i <= |aMode| && ModeOf(aMode, zVal) == ModeOf(aMode[i..], zVal)
    {
      assert aMode[i..][1..] == aMode[i + 1..];
      if aMode[i].z == zVal {
        return aMode[i].mode;
      }
      i := i + 1;
    }
    return 0;
  }

  /** A mode is compared with the limit as a number, and without the bit for memory. */
  predicate Allowed(mode: bv32, limit: bv32) {
    (mode & !SQLITE_OPEN_MEMORY) <= limit
  }

  /** A parameter whose value is looked up in a table. */
  function Select(aMode: seq<OpenMode>, mask: bv32, limit: bv32, zVal: string, flags: bv32, zVfs: Option<string>)
    : Parsed
  {
    var mode := ModeOf(aMode, zVal);
    if mode == 0 then NoSuchMode(zVal)
    else if !Allowed(mode, limit) then NotAllowed(zVal)
    else Opening(SetMode(flags, mask, mode), zVfs)
  }

  /** One parameter. */
  function Interpret(o: Parameter, flags: bv32, zVfs: Option<string>): Parsed {
    if o.name == "vfs" then Opening(flags, Some(o.value))
    else if o.name == "cache" then Select(aCacheMode, CACHE_MASK, CACHE_MASK, o.value, flags, zVfs)
    else if o.name == "mode" then Select(aOpenMode, ACCESS_MASK, ACCESS_MASK & flags, o.value, flags, zVfs)
    else Opening(flags, zVfs)
  }

  function InterpretAll(os: seq<Parameter>, flags: bv32, zVfs: Option<string>): Parsed {
    if os == [] then Opening(flags, zVfs)
    else
      var r := Interpret(os[0], flags, zVfs);
      if r.Opening? then InterpretAll(os[1..], r.flags, r.zVfs) else r
  }

  /** The common part of mode and cache. */
  method ReadMode(aMode: seq<OpenMode>, mask: bv32, limit: bv32, zVal: string, flags: bv32, zVfs: Option<string>)
    returns (r: Parsed)
    ensures r == Select(aMode, mask, limit, zVal, flags, zVfs)
  {
    var mode := FindMode(aMode, zVal);
    if mode == 0 {
      return NoSuchMode(zVal);
    }
    if !Allowed(mode, limit) {
      return NotAllowed(zVal);
    }
    return Opening(SetMode(flags, mask, mode), zVfs);
  }

  /** The body of the loop over the parameters. */
  method ReadOption(zOpt: string, zVal: string, flags: bv32, zVfs: Option<string>) returns (r: Parsed)
    ensures r == Interpret(Parameter(zOpt, zVal), flags, zVfs)
  {
    if zOpt == "vfs" {
      r := Opening(flags, Some(zVal));
    } else if zOpt == "cache" {
      r := ReadMode(aCacheMode, CACHE_MASK, CACHE_MASK, zVal, flags, zVfs);
    } else if zOpt == "mode" {
      r := ReadMode(aOpenMode, ACCESS_MASK, ACCESS_MASK & flags, zVal, flags, zVfs);
    } else {
      r := Opening(flags, zVfs);
    }
  }

  // ----- which access is allowed -----

  /** 1 for read-only, 2 for read-write, 6 for read-write and create. */
  function Access(flags: bv32): bv32 { flags & 7 }

  predicate InMemory(flags: bv32) { flags & SQLITE_OPEN_MEMORY != 0 }

  lemma ModeNames(zVal: string)
    ensures ModeOf(aOpenMode, zVal)
         == if zVal == "ro" then 1 else if zVal == "rw" then 2 else if zVal == "rwc" then 6
            else if zVal == "memory" then 0x80 else 0
  {
    var a := aOpenMode[1..];
    var b := a[1..];
    var c := b[1..];
    assert a[0] == aOpenMode[1] && b[0] == aOpenMode[2] && c[0] == aOpenMode[3] && c[1..] == [];
    assert ModeOf(aOpenMode, zVal) == if zVal == "ro" then 1 else ModeOf(a, zVal);
    assert ModeOf(a, zVal) == if zVal == "rw" then 2 else ModeOf(b, zVal);
    assert ModeOf(b, zVal) == if zVal == "rwc" then 6 else ModeOf(c, zVal);
    assert ModeOf(c, zVal) == if zVal == "memory" then 0x80 else 0;
  }

  lemma AccessBits(flags: bv32, mode: bv32)
    requires mode == 1 || mode == 2 || mode == 6 || mode == 0x80
    ensures Access(SetMode(flags, ACCESS_MASK, mode)) == Access(mode)
    ensures InMemory(SetMode(flags, ACCESS_MASK, mode)) <==> mode == 0x80
    ensures Allowed(mode, ACCESS_MASK & flags) <==> InMemory(flags) || Access(mode) <= Access(flags)
  {
  }

  /** A mode with wider access than the flags have is accepted exactly if the flags say in-memory. */
  lemma WiderModeIff(zVal: string, flags: bv32, zVfs: Option<string>)
    requires Access(ModeOf(aOpenMode, zVal)) > Access(flags)
    ensures Interpret(Parameter("mode", zVal), flags, zVfs).Opening? <==> InMemory(flags)
    ensures InMemory(flags) ==>
      Access(Interpret(Parameter("mode", zVal), flags, zVfs).flags) == Access(ModeOf(aOpenMode, zVal))
  {
    ModeNames(zVal);
    AccessBits(flags, ModeOf(aOpenMode, zVal));
  }

  /** One of the parameters sets a mode while the flags say in-memory. */
  predicate ModeAfterMemory(os: seq<Parameter>, memory: bool) {
    os != [] &&
    if os[0].name == "mode" then memory || ModeAfterMemory(os[1..], os[0].value == "memory")
    else ModeAfterMemory(os[1..], memory)
  }

  lemma StepKeepsAccess(o: Parameter, flags: bv32, zVfs: Option<string>)
    requires o.name == "mode" ==> !InMemory(flags)
    requires Interpret(o, flags, zVfs).Opening?
    ensures Access(Interpret(o, flags, zVfs).flags) <= Access(flags)
    ensures InMemory(Interpret(o, flags, zVfs).flags)
       <==> if o.name == "mode" then o.value == "memory" else InMemory(flags)
  {
    if o.name == "mode" {
      ModeNames(o.value);
      AccessBits(flags, ModeOf(aOpenMode, o.value));
    } else if o.name == "cache" {
      CacheNames(o.value);
    }
  }

  lemma CacheNames(zVal: string)
    ensures ModeOf(aCacheMode, zVal) == if zVal == "shared" then 0x20000 else if zVal == "private" then 0x40000 else 0
  {
    var a := aCacheMode[1..];
    assert a[0] == aCacheMode[1] && a[1..] == [];
    assert ModeOf(aCacheMode, zVal) == if zVal == "shared" then 0x20000 else ModeOf(a, zVal);
    assert ModeOf(a, zVal) == if zVal == "private" then 0x40000 else 0;
  }

  /** The value of the last mode parameter, if there is one. */
  function LastMode(os: seq<Parameter>, found: Option<string>): Option<string> {
    if os == [] then found else LastMode(os[1..], if os[0].name == "mode" then Some(os[0].value) else found)
  }

  function AccessOf(mode: Option<string>, otherwise: bv32): bv32 {
    if mode.Some? then Access(ModeOf(aOpenMode, mode.value)) else Access(otherwise)
  }

  lemma StepSetsAccess(o: Parameter, flags: bv32, zVfs: Option<string>)
    requires Interpret(o, flags, zVfs).Opening?
    ensures Access(Interpret(o, flags, zVfs).flags) == AccessOf(if o.name == "mode" then Some(o.value) else None, flags)
  {
    if o.name == "mode" {
      ModeNames(o.value);
      AccessBits(flags, ModeOf(aOpenMode, o.value));
    } else if o.name == "cache" {
      CacheNames(o.value);
    }
  }

  /** The access of an accepted URI is that of its last mode parameter, and the caller's if there is none. */
  lemma {:induction false} LastModeDecides(os: seq<Parameter>, flags: bv32, zVfs: Option<string>, caller: bv32,
                                           found: Option<string>)
    requires InterpretAll(os, flags, zVfs).Opening? && Access(flags) == AccessOf(found, caller)
    ensures Access(InterpretAll(os, flags, zVfs).flags) == AccessOf(LastMode(os, found), caller)
  {
    if os != [] {
      var r := Interpret(os[0], flags, zVfs);
      StepSetsAccess(os[0], flags, zVfs);
      LastModeDecides(os[1..], r.flags, r.zVfs, caller, if os[0].name == "mode" then Some(os[0].value) else found);
    }
  }

  /**
   The documented limit, that a mode is never less restrictive than the caller's flags, is met by an
   accepted URI exactly if it has no mode parameter or the last one is no wider than the flags.
   */
  lemma NotWiderIff(os: seq<Parameter>, flags: bv32, zVfs: Option<string>)
    requires InterpretAll(os, flags, zVfs).Opening?
    ensures Access(InterpretAll(os, flags, zVfs).flags) <= Access(flags)
       <==> LastMode(os, None) == None || Access(ModeOf(aOpenMode, LastMode(os, None).value)) <= Access(flags)
  {
    LastModeDecides(os, flags, zVfs, flags, None);
  }

  /** In particular if none of them sets a mode while the flags say in-memory. */
  lemma {:induction false} NeverWider(os: seq<Parameter>, flags: bv32, zVfs: Option<string>)
    requires !ModeAfterMemory(os, InMemory(flags))
    requires InterpretAll(os, flags, zVfs).Opening?
    ensures Access(InterpretAll(os, flags, zVfs).flags) <= Access(flags)
  {
    if os != [] {
      var r := Interpret(os[0], flags, zVfs);
      StepKeepsAccess(os[0], flags, zVfs);
      NeverWider(os[1..], r.flags, r.zVfs);
    }
  }

  /** And a mode can be wider: two mode parameters turn read-only flags into read-write and create. */
  lemma MemoryThenCreate(zVfs: Option<string>)
    ensures var os := [Parameter("mode", "memory"), Parameter("mode", "rwc")];
            InterpretAll(os, SQLITE_OPEN_READONLY, zVfs) == Opening(SQLITE_OPEN_READWRITE | SQLITE_OPEN_CREATE, zVfs)
  {
    ModeNames("memory");
    ModeNames("rwc");
    var os := [Parameter("mode", "memory"), Parameter("mode", "rwc")];
    assert os[1..] == [Parameter("mode", "rwc")] && os[1..][1..] == [];
    var r := Interpret(os[0], SQLITE_OPEN_READONLY, zVfs);
    assert r == Opening(SQLITE_OPEN_MEMORY, zVfs);
    assert Interpret(os[1], r.flags, r.zVfs) == Opening(SQLITE_OPEN_READWRITE | SQLITE_OPEN_CREATE, zVfs);
    assert InterpretAll(os[1..][1..], SQLITE_OPEN_READWRITE | SQLITE_OPEN_CREATE, zVfs)
        == Opening(SQLITE_OPEN_READWRITE | SQLITE_OPEN_CREATE, zVfs);
    assert InterpretAll(os[1..], r.flags, r.zVfs)
        == InterpretAll(os[1..][1..], SQLITE_OPEN_READWRITE | SQLITE_OPEN_CREATE, zVfs);
  }

  /** The last vfs parameter decides; sqlite3_vfs_find() then looks for that very name, even an empty one. */
  function LastVfs(os: seq<Parameter>, zVfs: Option<string>): Option<string> {
    if os == [] then zVfs else LastVfs(os[1..], if os[0].name == "vfs" then Some(os[0].value) else zVfs)
  }

  lemma {:induction false} VfsIsLast(os: seq<Parameter>, flags: bv32, zVfs: Option<string>)
    requires InterpretAll(os, flags, zVfs).Opening?
    ensures InterpretAll(os, flags, zVfs).zVfs == LastVfs(os, zVfs)
  {
    if os != [] {
      var r := Interpret(os[0], flags, zVfs);
      VfsIsLast(os[1..], r.flags, r.zVfs);
    }
  }
}
