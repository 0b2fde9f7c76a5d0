/**
 What the parameters of a URI filename do to the flags and the VFS, one by one and over whole lists, in terms
 of their names and values.
 */
module UriEffects {
  import opened Options
  import opened UriDecoding
  import opened UriFlags
  import opened UriOptions

  /** The access flags that a mode stands for. */
  function ModeNamed(zVal: string): Option<bv32> {
    if zVal == "ro" then Some(0x01)
    else if zVal == "rw" then Some(0x02)
    else if zVal == "rwc" then Some(0x06)
    else if zVal == "memory" then Some(0x80)
    else None
  }

  function CacheNamed(zVal: string): Option<bv32> {
    if zVal == "shared" then Some(0x20000) else if zVal == "private" then Some(0x40000) else None
  }

  /**
   The cache parameter: a known value replaces the two cache flags by its own and leaves every other flag and
   the VFS alone; any other value is an error.
   */
  lemma CacheParameter(zVal: string, flags: bv32, zVfs: Option<string>)
    ensures var r := Interpret(Parameter("cache", zVal), flags, zVfs);
            match CacheNamed(zVal)
            case None => r == NoSuchMode(zVal)
            case Some(mode) =>
              && r.Opening? && r.zVfs == zVfs && CacheFlags(r.flags) == mode
              && AccessFlags(r.flags) == AccessFlags(flags) && OtherFlags(r.flags) == OtherFlags(flags)
  {
    CacheNames(zVal);
    if CacheNamed(zVal).Some? {
      CacheBits(flags, CacheNamed(zVal).value);
    }
  }

  /**
   The mode parameter: a known value that is no wider than the flags, or any known value under the in-memory
   flag, replaces the access flags by its own and leaves every other flag and the VFS alone.
   */
  lemma ModeParameter(zVal: string, flags: bv32, zVfs: Option<string>)
    ensures var r := Interpret(Parameter("mode", zVal), flags, zVfs);
            match ModeNamed(zVal)
            case None => r == NoSuchMode(zVal)
            case Some(mode) =>
              if InMemory(flags) || Access(mode) <= Access(flags)
              then && r.Opening? && r.zVfs == zVfs && AccessFlags(r.flags) == mode
                   && CacheFlags(r.flags) == CacheFlags(flags) && OtherFlags(r.flags) == OtherFlags(flags)
              else r == NotAllowed(zVal)
  {
    ModeNames(zVal);
    if ModeNamed(zVal).Some? {
      var mode := ModeNamed(zVal).value;
      AccessBits(flags, mode);
      ModeBits(flags, mode);
      ModeSelected(zVal, mode, flags, zVfs);
    }
  }

  lemma ModeSelected(zVal: string, mode: bv32, flags: bv32, zVfs: Option<string>)
    requires ModeOf(aOpenMode, zVal) == mode && mode != 0
    ensures Interpret(Parameter("mode", zVal), flags, zVfs)
         == if Allowed(mode, ACCESS_MASK & flags) then Opening(SetMode(flags, ACCESS_MASK, mode), zVfs)
            else NotAllowed(zVal)
  {
  }

  /** Any other parameter changes no flag, and only vfs changes the VFS. */
  lemma OtherParameter(o: Parameter, flags: bv32, zVfs: Option<string>)
    requires o.name != "cache" && o.name != "mode"
    ensures Interpret(o, flags, zVfs) == Opening(flags, if o.name == "vfs" then Some(o.value) else zVfs)
  {
  }

  /** The value of the last parameter of that name, if there is one. */
  function LastOf(os: seq<Parameter>, name: string, found: Option<string>): Option<string> {
    if os == [] then found
    else LastOf(os[1..], name, if os[0].name == name then Some(os[0].value) else found)
  }

  function Either(o: Option<bv32>, otherwise: bv32): bv32 { if o.Some? then o.value else otherwise }

  function ModeFound(found: Option<string>): Option<bv32> {
    if found.Some? then ModeNamed(found.value) else None
  }

  function CacheFound(found: Option<string>): Option<bv32> {
    if found.Some? then CacheNamed(found.value) else None
  }

  /** How far the parameters read so far have changed the caller's flags. */
  predicate Tracks(flags: bv32, caller: bv32, mode: Option<string>, cache: Option<string>) {
    && AccessFlags(flags) == Either(ModeFound(mode), AccessFlags(caller))
    && CacheFlags(flags) == Either(CacheFound(cache), CacheFlags(caller))
    && OtherFlags(flags) == OtherFlags(caller)
  }

  lemma StepTracks(o: Parameter, flags: bv32, zVfs: Option<string>, caller: bv32,
                   mode: Option<string>, cache: Option<string>)
    requires Tracks(flags, caller, mode, cache) && Interpret(o, flags, zVfs).Opening?
    ensures Tracks(Interpret(o, flags, zVfs).flags, caller,
                   if o.name == "mode" then Some(o.value) else mode, if o.name == "cache" then Some(o.value) else cache)
  {
    if o.name == "cache" {
      CacheParameter(o.value, flags, zVfs);
    } else if o.name == "mode" {
      ModeParameter(o.value, flags, zVfs);
    } else {
      OtherParameter(o, flags, zVfs);
    }
  }

  lemma {:induction false} AllTrack(os: seq<Parameter>, flags: bv32, zVfs: Option<string>, caller: bv32,
                                    mode: Option<string>, cache: Option<string>)
    requires Tracks(flags, caller, mode, cache) && InterpretAll(os, flags, zVfs).Opening?
    ensures Tracks(InterpretAll(os, flags, zVfs).flags, caller, LastOf(os, "mode", mode), LastOf(os, "cache", cache))
  {
    if os != [] {
      var r := Interpret(os[0], flags, zVfs);
      StepTracks(os[0], flags, zVfs, caller, mode, cache);
      AllTrack(os[1..], r.flags, r.zVfs, caller, if os[0].name == "mode" then Some(os[0].value) else mode,
               if os[0].name == "cache" then Some(os[0].value) else cache);
    }
  }

  /**
   The flags of an accepted URI: the access flags are those of its last mode parameter, the cache flags those of
   its last cache parameter, and all else is the caller's.
   */
  lemma FlagsOfUri(os: seq<Parameter>, flags: bv32, zVfs: Option<string>)
    requires InterpretAll(os, flags, zVfs).Opening?
    ensures var after := InterpretAll(os, flags, zVfs).flags;
            && AccessFlags(after) == Either(ModeFound(LastOf(os, "mode", None)), AccessFlags(flags))
            && CacheFlags(after) == Either(CacheFound(LastOf(os, "cache", None)), CacheFlags(flags))
            && OtherFlags(after) == OtherFlags(flags)
  {
    AllTrack(os, flags, zVfs, flags, None, None);
  }
}
