/**
 sqlite3ParseUri() as a whole, for every filename: the buffer always has the format that a VFS expects,
 whatever the URI, so that reading it back stays inside.
 */
module UriOpen {
  import opened CStrings
  import opened Options
  import opened UriDecoding
  import opened UriParser
  import opened UriBuffer
  import opened UriFlags
  import opened UriOptions

  // ----- every buffer has the format -----

  /** What has been read so far: the path, complete parameters, and the name and value in progress. */
  datatype Progress = Progress(path: string, os: seq<Parameter>, n: string, v: string)

  predicate Good(p: Part, s: Progress) {
    && CString(s.path) && Readable(s.os) && CString(s.n) && CString(s.v)
    && (p == Value ==> s.n != "")
  }

  function Done(p: Part, s: Progress): string {
    match p
    case Path => s.path
    case Name => s.path + [NUL] + Fields(s.os) + s.n
    case Value => s.path + [NUL] + Fields(s.os) + s.n + [NUL] + s.v
  }

  /** One character of the part in progress. */
  function Longer(p: Part, s: Progress, c: char): Progress {
    match p
    case Path => s.(path := s.path + [c])
    case Name => s.(n := s.n + [c])
    case Value => s.(v := s.v + [c])
  }

  /** The parameter in progress is complete. */
  function Complete(s: Progress): Progress {
    Progress(s.path, s.os + [Parameter(s.n, s.v)], "", "")
  }

  lemma LongerDone(p: Part, s: Progress, c: char)
    requires Good(p, s) && c != NUL
    ensures Good(p, Longer(p, s, c)) && Done(p, Longer(p, s, c)) == Done(p, s) + [c]
  {
  }

  lemma {:induction false} FieldsSnoc(os: seq<Parameter>, o: Parameter)
    ensures Fields(os + [o]) == Fields(os) + (o.name + [NUL] + o.value + [NUL])
  {
    if os == [] {
      assert os + [o] == [o];
      assert [o][1..] == [];
    } else {
      assert (os + [o])[1..] == os[1..] + [o];
      FieldsSnoc(os[1..], o);
    }
  }

  lemma {:induction false} ReadableSnoc(os: seq<Parameter>, o: Parameter)
    requires Readable(os) && o.name != "" && CString(o.name) && CString(o.value)
    ensures Readable(os + [o])
  {
    if os == [] {
      assert os + [o] == [o] && [o][1..] == [];
    } else {
      assert (os + [o])[1..] == os[1..] + [o];
      ReadableSnoc(os[1..], o);
    }
  }

  /** An ampersand after a value, or two zeros after a name without one, complete the parameter. */
  lemma CompleteDone(s: Progress)
    requires Good(Value, s)
    ensures Good(Name, Complete(s)) && Done(Name, Complete(s)) == Done(Value, s) + [NUL]
    ensures s.v == "" ==> Done(Name, Complete(s)) == Done(Name, s) + [NUL, NUL]
  {
    ReadableSnoc(s.os, Parameter(s.n, s.v));
    FieldsSnoc(s.os, Parameter(s.n, s.v));
  }

  predicate HasLayout(buffer: string, path: string, os: seq<Parameter>) {
    CString(path) && Readable(os) && Layout(path, os) <= buffer
  }

  /** The end of the URI. */
  lemma EndHasLayout(z: string, p: Part, s: Progress) returns (os: seq<Parameter>)
    requires Ends(z) && Good(p, s) && (p == Name ==> s.v == "")
    ensures HasLayout(Decode(z, p, Done(p, s)), s.path, os)
  {
    if p == Path {
      os := [];
      assert Layout(s.path, []) == s.path + [NUL, NUL];
    } else if p == Name && s.n == "" {
      os := s.os;
      assert Done(p, s) + [NUL] + [NUL, NUL] == Layout(s.path, s.os) + [NUL, NUL];
    } else {
      os := Complete(s).os;
      CompleteDone(s);
      assert Done(Name, Complete(s)) + [NUL] == Layout(s.path, os);
      if p == Name {
        assert Done(p, s) + [NUL] + [NUL, NUL] == Done(p, s) + [NUL, NUL] + [NUL];
      } else {
        assert Done(p, s) + [NUL, NUL] == Done(p, s) + [NUL] + [NUL];
      }
    }
  }

  /** The character after which a name or a value begins, or which ends them. */
  lemma Separator(z: string, p: Part, s: Progress) returns (rest: string, q: Part, t: Progress)
    requires CString(z) && !Ends(z) && !IsEscape(z) && EndsPart(p, z[0]) && Good(p, s)
    requires (p == Path ==> s.os == []) && (p != Value ==> s.v == "") && (p == Path ==> s.n == "")
    ensures |rest| < |z| && CString(rest) && Good(q, t) && q != Path && (q != Value ==> t.v == "")
    ensures t.path == s.path
    ensures Decode(z, p, Done(p, s)) == Decode(rest, q, Done(q, t))
  {
    if p == Path {
      rest, q, t := z[1..], Name, s;
      assert Done(Name, s) == s.path + [NUL];
    } else if p == Value {
      rest, q, t := z[1..], Name, Complete(s);
      CompleteDone(s);
    } else {
      rest, q, t := AfterName(z, s);
    }
  }

  lemma AfterName(z: string, s: Progress) returns (rest: string, q: Part, t: Progress)
    requires CString(z) && !Ends(z) && !IsEscape(z) && EndsPart(Name, z[0]) && Good(Name, s) && s.v == ""
    ensures |rest| < |z| && CString(rest) && Good(q, t) && q != Path && (q != Value ==> t.v == "")
    ensures t.path == s.path
    ensures Decode(z, Name, Done(Name, s)) == Decode(rest, q, Done(q, t))
  {
    var done := Done(Name, s);
    if s.n == "" {
      BeforeName(s);
      SkipOptionPart(z[1..]);
      rest, q, t := if z[0] == '&' then z[1..] else SkipOption(z[1..]), Name, s;
    } else {
      assert done[|done| - 1] == s.n[|s.n| - 1];
      if z[0] == '&' {
        CompleteDone(s);
        rest, q, t := z[1..], Name, Complete(s);
      } else {
        rest, q, t := z[1..], Value, s;
        assert Done(Value, s) == done + [NUL];
      }
    }
  }

  /** Without a name in progress the buffer ends with a zero. */
  lemma BeforeName(s: Progress)
    requires s.n == ""
    ensures Terminated(Done(Name, s))
  {
    FieldsTerminated(s.path, s.os);
    assert s.path + [NUL] + Fields(s.os) + "" == s.path + [NUL] + Fields(s.os);
  }

  lemma {:induction false} FieldsTerminated(path: string, os: seq<Parameter>)
    ensures Terminated(path + [NUL] + Fields(os))
  {
    if os != [] {
      var last, front := os[|os| - 1], os[..|os| - 1];
      assert os == front + [last];
      FieldsSnoc(front, last);
    }
  }

  lemma {:induction false} SkipOptionPart(z: string)
    requires CString(z)
    ensures CString(SkipOption(z))
  {
    if z != "" && z[0] != '#' && z[0] != '&' {
      SkipOptionPart(z[1..]);
    }
  }

  lemma {:induction false} SkipPartPart(z: string, p: Part)
    requires CString(z)
    ensures CString(SkipPart(z, p))
  {
    if z != "" && z[0] != '#' && !EndsPart(p, z[0]) {
      SkipPartPart(z[1..], p);
    }
  }

  /** Whatever the URI is, the buffer has the format. */
  lemma {:induction false} DecodeHasLayout(z: string, p: Part, s: Progress) returns (path: string, os: seq<Parameter>)
    requires CString(z) && Good(p, s)
    requires (p == Path ==> s.os == [] && s.n == "") && (p != Value ==> s.v == "")
    ensures HasLayout(Decode(z, p, Done(p, s)), path, os)
    decreases |z|
  {
    if Ends(z) {
      path := s.path;
      os := EndHasLayout(z, p, s);
    } else if IsEscape(z) {
      var c := Octet(z[1], z[2]);
      if c == NUL {
        SkipPartPart(z[3..], p);
        path, os := DecodeHasLayout(SkipPart(z[3..], p), p, s);
      } else {
        LongerDone(p, s, c);
        path, os := DecodeHasLayout(z[3..], p, Longer(p, s, c));
      }
    } else if EndsPart(p, z[0]) {
      var rest, q, t := Separator(z, p, s);
      path, os := DecodeHasLayout(rest, q, t);
    } else {
      LongerDone(p, s, z[0]);
      path, os := DecodeHasLayout(z[1..], p, Longer(p, s, z[0]));
    }
  }

  /** The file name of every "file:" URI that is accepted has the format. */
  lemma FileNameHasLayout(z: string) returns (path: string, os: seq<Parameter>)
    requires CString(z) && FileName(z).Ok?
    ensures HasLayout(FileName(z).buffer, path, os)
  {
    var rest := if HasAuthority(z) then z[2 + |Authority(z[2..])|..] else z;
    path, os := DecodeHasLayout(rest, Path, Progress("", [], "", ""));
  }

  // ----- a buffer holds one list of options -----

  /** The option that the walk over the buffer reads at some position, and where it goes on. */
  function NameAt(z: string, at: nat): string { if at <= |z| then StringAt(z, at) else "" }

  function ValueAt(z: string, at: nat): string { NameAt(z, at + |NameAt(z, at)| + 1) }

  function NextAt(z: string, at: nat): nat { at + |NameAt(z, at)| + 1 + |ValueAt(z, at)| + 1 }

  lemma OptionIsRead(z: string, i: nat, n: string, v: string, more: string)
    requires Stands(z, i, (n + [NUL]) + ((v + [NUL]) + more)) && CString(n) && CString(v)
    ensures NameAt(z, i) == n && ValueAt(z, i) == v && Stands(z, NextAt(z, i), more)
  {
    OptionParts(z, i, n, v, more);
    StringStands(z, i, n);
    StringStands(z, i + |n| + 1, v);
  }

  lemma FirstOption(z: string, at: nat, os: seq<Parameter>)
    requires Readable(os) && os != [] && Stands(z, at, Fields(os) + [NUL])
    ensures os[0] == Parameter(NameAt(z, at), ValueAt(z, at)) && Stands(z, NextAt(z, at), Fields(os[1..]) + [NUL])
  {
    var n, v, f := os[0].name, os[0].value, Fields(os[1..]);
    RegroupOption(n, v, f, [NUL]);
    OptionIsRead(z, at, n, v, f + [NUL]);
    assert os[0] == Parameter(n, v);
  }

  lemma {:induction false} OptionsUnique(z: string, at: nat, a: seq<Parameter>, b: seq<Parameter>)
    requires Readable(a) && Readable(b) && Stands(z, at, Fields(a) + [NUL]) && Stands(z, at, Fields(b) + [NUL])
    ensures a == b
    decreases |a|
  {
    OptionBegins(z, at, a);
    OptionBegins(z, at, b);
    if a != [] {
      FirstOption(z, at, a);
      FirstOption(z, at, b);
      OptionsUnique(z, NextAt(z, at), a[1..], b[1..]);
      assert a == [a[0]] + a[1..] && b == [b[0]] + b[1..];
    }
  }

  lemma LayoutUnique(buffer: string, path: string, os: seq<Parameter>, path': string, os': seq<Parameter>)
    requires HasLayout(buffer, path, os) && HasLayout(buffer, path', os')
    ensures path == path' && os == os'
  {
    LayoutStands(buffer, path, os);
    LayoutStands(buffer, path', os');
    StringStands(buffer, 0, path);
    StringStands(buffer, 0, path');
    OptionsUnique(buffer, |path| + 1, os, os');
  }

  /** So a URI written out by the rules is opened with just the path and the parameters it was written from. */
  lemma WrittenUriIsOpened(u: Uri, path: string, os: seq<Parameter>)
    requires LegalUri(u) && FileName(UriText(u)).Ok? && HasLayout(FileName(UriText(u)).buffer, path, os)
    ensures path == Bytes(u.path, Path) && os == Parameters(u)
  {
    UriIsParsed(u);
    LayoutUnique(FileName(UriText(u)).buffer, path, os, Bytes(u.path, Path), Parameters(u));
  }

  // ----- the options in the buffer -----

  /** One option of the buffer, and where the next one begins. */
  method OptionAt(zFile: string, at: nat, flags: bv32, zVfs: Option<string>, ghost left: seq<Parameter>)
    returns (r: Parsed, next: nat)
    requires Readable(left) && left != [] && Stands(zFile, at, Fields(left) + [NUL])
    ensures r == Interpret(left[0], flags, zVfs)
    ensures Stands(zFile, next, Fields(left[1..]) + [NUL])
  {
    var nOpt, nVal := OptionLengths(zFile, at, left);
    var zVal := at + nOpt + 1;
    r := ReadOption(zFile[at..at + nOpt], zFile[zVal..zVal + nVal], flags, zVfs);
    next := zVal + nVal + 1;
  }

  /** The loop over the options in the buffer. */
  method ReadOptions(zFile: string, pFlags: bv32, zDefaultVfs: Option<string>,
                     ghost path: string, ghost os: seq<Parameter>)
    returns (r: Parsed)
    requires HasLayout(zFile, path, os)
    ensures r == InterpretAll(os, pFlags, zDefaultVfs)
  {
    r := Opening(pFlags, zDefaultVfs);
    ghost var left := os;
    var at := ReadString(zFile, 0, path);
    at := at + 1;
    OptionBegins(zFile, at, left);
    while At(zFile, at) != NUL
      invariant 0 <= at && Readable(left) && Stands(zFile, at, Fields(left) + [NUL])
      invariant At(zFile, at) == NUL <==> left == []
      invariant r.Opening? && InterpretAll(os, pFlags, zDefaultVfs) == InterpretAll(left, r.flags, r.zVfs)
      decreases |left|
    {
      r, at := OptionAt(zFile, at, r.flags, r.zVfs, left);
      if !r.Opening? {
        return;
      }
      left := left[1..];
      OptionBegins(zFile, at, left);
    }
  }

  // ----- the whole -----

  datatype Outcome =
    | Opened(zFile: string, flags: bv32, zVfs: Option<string>)
    | NoMem
    | BadAuthority
    | BadOption(why: Parsed)
    | NoSuchVfs

  predicate IsUri(zUri: string, flags: bv32, bOpenUri: bool) {
    (flags & SQLITE_OPEN_URI != 0 || bOpenUri) && "file:" <= zUri
  }

  /** A name is a URI exactly if it begins with the scheme, and URIs are enabled for the call or globally. */
  lemma IsUriIff(zUri: string, flags: bv32, bOpenUri: bool)
    ensures IsUri(zUri, flags, bOpenUri)
       <==> (bOpenUri || flags & 0x40 == 0x40) && |zUri| >= 5 && zUri[0] == 'f' && zUri[1] == 'i' && zUri[2] == 'l'
            && zUri[3] == 'e' && zUri[4] == ':'
  {
    assert flags & 0x40 != 0 <==> flags & 0x40 == 0x40;
  }

  /** sqlite3_vfs_find(): no name stands for the default, but an empty name is a name. */
  predicate VfsFound(zVfs: Option<string>, vfsList: set<string>) {
    match zVfs case None => vfsList != {} case Some(z) => z in vfsList
  }

  /** The outcome for a filename that is not taken as a URI. */
  function Plainly(zUri: string, flags: bv32, zVfs: Option<string>, vfsList: set<string>): Outcome {
    if VfsFound(zVfs, vfsList) then Opened(zUri + [NUL, NUL], WithoutUri(flags), zVfs) else NoSuchVfs
  }

  /**
   It is opened under that very name, followed by two zeros so that it has no parameters, exactly if its VFS is
   there: the one that is named, or any if none is.
   */
  lemma PlainNameIsOpened(zUri: string, flags: bv32, zVfs: Option<string>, vfsList: set<string>)
    requires CString(zUri)
    ensures var r := Plainly(zUri, flags, zVfs, vfsList);
            && (r.Opened? <==> (zVfs == None && vfsList != {}) || (zVfs.Some? && zVfs.value in vfsList))
            && (!r.Opened? ==> r == NoSuchVfs)
            && (r.Opened? ==> HasLayout(r.zFile, zUri, []) && r.zVfs == zVfs && r.flags == WithoutUri(flags))
  {
    assert Layout(zUri, []) == zUri + [NUL, NUL];
  }

  /** The outcome for a URI whose buffer holds these options. */
  function AsUri(buffer: string, os: seq<Parameter>, flags: bv32, zVfs: Option<string>, vfsList: set<string>): Outcome {
    var r := InterpretAll(os, flags | SQLITE_OPEN_URI, zVfs);
    if !r.Opening? then BadOption(r)
    else if VfsFound(r.zVfs, vfsList) then Opened(buffer, r.flags, r.zVfs)
    else NoSuchVfs
  }

  /** The loop over the authority. */
  method SkipAuthority(zUri: string, start: nat) returns (iIn: nat)
    requires CString(zUri) && start <= |zUri|
    ensures start <= iIn <= |zUri| && zUri[start..iIn] == Authority(zUri[start..])
  {
    iIn := start;
    while At(zUri, iIn) != NUL && At(zUri, iIn) != '/'
      invariant start <= iIn <= |zUri|
      invariant forall k :: start <= k < iIn ==> zUri[k] != '/'
      decreases |zUri| - iIn
    {
      iIn := iIn + 1;
    }
    AuthorityUpTo(zUri, start, iIn);
  }

  lemma AuthorityUpTo(z: string, start: nat, end: nat)
    requires start <= end <= |z| && (forall k :: start <= k < end ==> z[k] != '/') && (end < |z| ==> z[end] == '/')
    ensures Authority(z[start..]) == z[start..end]
  {
    var a, rest := z[start..end], z[end..];
    assert z[start..] == a + rest;
    if end == |z| {
      assert a + rest == a;
      AuthorityAll(a);
    } else {
      AuthorityEnds(a, rest);
    }
  }

  /** What follows an authority, and what follows the scheme when there is none. */
  lemma FileNameFrom(z: string, iIn: nat)
    requires 5 <= |z| && 7 <= iIn <= |z| && HasAuthority(z[5..]) && z[7..iIn] == Authority(z[7..])
    ensures FileName(z[5..]).Ok? <==> iIn == 7 || z[7..iIn] == "localhost"
    ensures FileName(z[5..]).Ok? ==> FileName(z[5..]).buffer == Decode(z[iIn..], Path, "")
  {
    assert z[5..][2..] == z[7..];
    assert z[5..][2 + (iIn - 7)..] == z[iIn..];
  }

  /** The buffer of a URI, or None if its authority is not accepted. */
  method FillBuffer(zUri: string) returns (zFile: Option<string>)
    requires CString(zUri) && "file:" <= zUri
    ensures zFile.Some? <==> FileName(zUri[5..]).Ok?
    ensures zFile.Some? ==> zFile.value == FileName(zUri[5..]).buffer
  {
    var nAmp := CountAmpersands(zUri);
    var buffer := new char[|zUri| + 2 + nAmp];
    var iIn := 5;
    if At(zUri, 5) == '/' && At(zUri, 6) == '/' {
      iIn := SkipAuthority(zUri, 7);
      FileNameFrom(zUri, iIn);
      if iIn != 7 && zUri[7..iIn] != "localhost" {
        return None;
      }
    }
    var iOut := DecodeInto(buffer, zUri, iIn);
    zFile := Some(buffer[..iOut]);
  }

  /** The part of sqlite3ParseUri() for other names. */
  method OpenPlainly(zUri: string, pFlags: bv32, zDefaultVfs: Option<string>, vfsList: set<string>) returns (r: Outcome)
    ensures r == Plainly(zUri, pFlags, zDefaultVfs, vfsList)
  {
    if !VfsFound(zDefaultVfs, vfsList) {
      return NoSuchVfs;
    }
    r := Opened(zUri + [NUL, NUL], WithoutUri(pFlags), zDefaultVfs);
  }

  /**
   sqlite3ParseUri(). For a URI it also returns what its buffer holds; the outcome depends on nothing else.
   */
  method ParseUri(zUri: string, pFlags: bv32, bOpenUri: bool, zDefaultVfs: Option<string>, vfsList: set<string>,
                  memory: bool)
    returns (r: Outcome, ghost path: string, ghost os: seq<Parameter>)
    requires CString(zUri)
    ensures r == NoMem <==> !memory
    ensures memory && !IsUri(zUri, pFlags, bOpenUri) ==> r == Plainly(zUri, pFlags, zDefaultVfs, vfsList)
    ensures memory && IsUri(zUri, pFlags, bOpenUri) ==>
      match FileName(zUri[5..])
      case InvalidAuthority(_) => r == BadAuthority
      case Ok(buffer) => HasLayout(buffer, path, os) && r == AsUri(buffer, os, pFlags, zDefaultVfs, vfsList)
  {
    path, os := "", [];
    if !memory {
      return NoMem, path, os;
    }
    if !IsUri(zUri, pFlags, bOpenUri) {
      r := OpenPlainly(zUri, pFlags, zDefaultVfs, vfsList);
      return r, path, os;
    }
    var zFile := FillBuffer(zUri);
    if zFile == None {
      return BadAuthority, path, os;
    }
    path, os := FileNameHasLayout(zUri[5..]);
    var options := ReadOptions(zFile.value, pFlags | SQLITE_OPEN_URI, zDefaultVfs, path, os);
    if !options.Opening? {
      return BadOption(options), path, os;
    }
    r := if VfsFound(options.zVfs, vfsList) then Opened(zFile.value, options.flags, options.zVfs) else NoSuchVfs;
  }

  /**
   A URI with acceptable parameters is opened exactly if the VFS that its last vfs parameter names is there;
   an empty name is looked up like any other and does not stand for the default.
   */
  lemma LastVfsIsOpened(buffer: string, os: seq<Parameter>, flags: bv32, zVfs: Option<string>, vfsList: set<string>)
    requires InterpretAll(os, flags | SQLITE_OPEN_URI, zVfs).Opening?
    ensures var after := InterpretAll(os, flags | SQLITE_OPEN_URI, zVfs).flags;
            AsUri(buffer, os, flags, zVfs, vfsList)
              == match LastVfs(os, zVfs)
                 case None => if vfsList == {} then NoSuchVfs else Opened(buffer, after, None)
                 case Some(z) => if z in vfsList then Opened(buffer, after, Some(z)) else NoSuchVfs
  {
    VfsIsLast(os, flags | SQLITE_OPEN_URI, zVfs);
  }
}
