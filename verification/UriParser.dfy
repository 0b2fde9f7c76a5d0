/**
 Parsing a whole "file:" URI, looking a parameter up in the result, and the round trip of the two.
 */
module UriParser {
  import opened CStrings
  import opened Options
  import opened UriDecoding

  datatype Result = Ok(buffer: string) | InvalidAuthority(name: string)

  /** The authority of a URI: up to the next slash. */
  function Authority(z: string): (a: string)
    ensures a <= z
  {
    if z == "" || z[0] == '/' then "" else [z[0]] + Authority(z[1..])
  }

  predicate HasAuthority(z: string) { |z| >= 2 && z[0] == '/' && z[1] == '/' }

  /** The buffer for what follows "file:". */
  function FileName(z: string): Result {
    if HasAuthority(z) then
      var a := Authority(z[2..]);
      if a == "" || a == "localhost" then Ok(Decode(z[2 + |a|..], Path, "")) else InvalidAuthority(a)
    else Ok(Decode(z, Path, ""))
  }

  // ----- URIs -----

  datatype Host = NoHost | EmptyHost | Localhost

  datatype Uri = Uri(host: Host, path: seq<Unit>, query: Option<seq<Param>>, fragment: Option<string>)

  /** A path after an authority begins with a slash; without one it does not begin with two. */
  predicate LegalUri(u: Uri) {
    && AllLegal(u.path, Path)
    && (u.query.Some? ==> LegalQuery(u.query.value))
    && HostFits(u)
  }

  predicate HostFits(u: Uri) {
    if u.host == NoHost then !HasAuthority(Text(u.path)) else u.path != [] && u.path[0] == Plain('/')
  }

  function FragmentText(u: Uri): string {
    match u.fragment case None => "" case Some(f) => ['#'] + f
  }

  function QueryPart(u: Uri): string {
    match u.query case None => "" case Some(ps) => ['?'] + QueryText(ps)
  }

  function HostText(h: Host): string {
    match h case NoHost => "" case EmptyHost => "//" case Localhost => "//localhost"
  }

  /** The URI after its scheme. */
  function UriText(u: Uri): string {
    HostText(u.host) + (Text(u.path) + (QueryPart(u) + FragmentText(u)))
  }

  function Parameters(u: Uri): seq<Parameter>
    requires LegalUri(u)
  {
    if u.query.Some? then Named(u.query.value) else []
  }

  lemma TailDecodes(u: Uri, path: string)
    requires LegalUri(u)
    ensures Layout(path, Parameters(u)) <= Decode(QueryPart(u) + FragmentText(u), Path, path)
  {
    var rest := FragmentText(u);
    if u.query.Some? {
      var ps := u.query.value;
      var z := QueryPart(u) + rest;
      assert z[1..] == QueryText(ps) + rest;
      assert Decode(z, Path, path) == Decode(QueryText(ps) + rest, Name, path + [NUL]);
      if ps == [] {
        assert QueryText(ps) + rest == rest;
        assert Layout(path, []) == path + [NUL] + [NUL];
      } else {
        QueryDecodes(ps, path + [NUL], rest);
        FieldsOfNamed(ps);
      }
    } else {
      assert QueryPart(u) + rest == rest;
      assert Layout(path, []) == path + [NUL, NUL];
    }
  }

  lemma PathDecodes(u: Uri)
    requires LegalUri(u)
    ensures Layout(Bytes(u.path, Path), Parameters(u))
         <= Decode(Text(u.path) + (QueryPart(u) + FragmentText(u)), Path, "")
  {
    var b := Bytes(u.path, Path);
    UnitsDecode(u.path, Path, "", QueryPart(u) + FragmentText(u));
    assert "" + b == b;
    TailDecodes(u, b);
  }

  lemma {:induction false} AuthorityEnds(a: string, rest: string)
    requires '/' !in a && rest != "" && rest[0] == '/'
    ensures Authority(a + rest) == a
    decreases |a|
  {
    if a == "" {
      assert a + rest == rest;
    } else {
      assert (a + rest)[1..] == a[1..] + rest;
      AuthorityEnds(a[1..], rest);
    }
  }

  lemma AfterHost(a: string, body: string)
    ensures HasAuthority("//" + a + body)
    ensures ("//" + a + body)[2..] == a + body && ("//" + a + body)[2 + |a|..] == body
  {
  }

  function HostName(h: Host): string { if h == Localhost then "localhost" else "" }

  lemma HostTextIs(h: Host)
    requires h != NoHost
    ensures HostText(h) == "//" + HostName(h) && '/' !in HostName(h)
  {
  }

  /** An empty authority and localhost are skipped. */
  lemma AuthorityIsSkipped(a: string, body: string)
    requires '/' !in a && (a == "" || a == "localhost") && body != "" && body[0] == '/'
    ensures FileName("//" + a + body) == Ok(Decode(body, Path, ""))
  {
    AfterHost(a, body);
    AuthorityEnds(a, body);
  }

  /** Every URI is parsed to its path and its named parameters, however its characters are written. */
  lemma UriIsParsed(u: Uri)
    requires LegalUri(u)
    ensures FileName(UriText(u)).Ok?
    ensures Layout(Bytes(u.path, Path), Parameters(u)) <= FileName(UriText(u)).buffer
  {
    var body := Text(u.path) + (QueryPart(u) + FragmentText(u));
    PathDecodes(u);
    if u.host == NoHost {
      assert UriText(u) == body;
    } else {
      HostTextIs(u.host);
      AuthorityIsSkipped(HostName(u.host), body);
    }
  }

  /** Any other authority is an error. */
  lemma OtherAuthority(a: string, rest: string)
    requires '/' !in a && (rest == "" || rest[0] == '/')
    ensures FileName("//" + (a + rest)).Ok? <==> a == "" || a == "localhost"
  {
    assert ("//" + (a + rest))[2..] == a + rest;
    if rest == "" {
      AuthorityAll(a);
      assert a + rest == a;
    } else {
      AuthorityEnds(a, rest);
    }
  }

  lemma {:induction false} AuthorityAll(a: string)
    requires '/' !in a
    ensures Authority(a) == a
    decreases |a|
  {
    if a != "" {
      AuthorityAll(a[1..]);
    }
  }

  // ----- sqlite3_uri_parameter() -----

  /** The value of the first parameter with that name. */
  function Find(os: seq<Parameter>, name: string): Option<string> {
    if os == [] then None else if os[0].name == name then Some(os[0].value) else Find(os[1..], name)
  }

  /** A value is found exactly if a parameter has the name and that value, and no earlier one has the name. */
  lemma {:induction false} FindFirst(os: seq<Parameter>, name: string, value: string)
    ensures Find(os, name) == Some(value) <==> exists i :: IsFirst(os, i, name) && os[i].value == value
    ensures Find(os, name) == None <==> forall i :: 0 <= i < |os| ==> os[i].name != name
  {
    if os != [] {
      FindFirst(os[1..], name, value);
      if os[0].name == name {
        assert IsFirst(os, 0, name);
      } else {
        if i :| IsFirst(os[1..], i, name) && os[1..][i].value == value {
          assert IsFirst(os, i + 1, name);
        }
        if i :| IsFirst(os, i, name) && os[i].value == value {
          assert IsFirst(os[1..], i - 1, name) && os[1..][i - 1] == os[i];
        }
        assert forall i :: 0 <= i < |os| - 1 ==> os[i + 1] == os[1..][i];
      }
    }
  }

  predicate IsFirst(os: seq<Parameter>, i: int, name: string) {
    0 <= i < |os| && os[i].name == name && forall j :: 0 <= j < i ==> os[j].name != name
  }

  /** The zero-terminated string at some position of a buffer. */
  function StringAt(z: string, i: nat): string
    requires i <= |z|
    decreases |z| - i
  {
    if i == |z| || z[i] == NUL then "" else [z[i]] + StringAt(z, i + 1)
  }

  lemma {:induction false} StringStands(z: string, i: nat, s: string)
    requires Stands(z, i, s + [NUL]) && CString(s)
    ensures StringAt(z, i) == s
    decreases |s|
  {
    StandsParts(z, i, s, [NUL]);
    if s == "" {
      assert z[i] == z[i..i + 1][0];
    } else {
      assert s + [NUL] == [s[0]] + (s[1..] + [NUL]);
      StandsParts(z, i, [s[0]], s[1..] + [NUL]);
      assert z[i] == z[i..i + 1][0];
      StringStands(z, i + 1, s[1..]);
    }
  }

  /** The string at that position, which is known to be s. */
  method ReadString(z: string, i: nat, ghost s: string) returns (n: nat)
    requires Stands(z, i, s + [NUL]) && CString(s)
    ensures n == |s| && i + n < |z| && z[i..i + n] == s
  {
    n := 0;
    while i + n < |z| && z[i + n] != NUL
      invariant n <= |s| && i + n < |z|
      invariant z[i + n] == NUL <==> n == |s|
    {
      n := n + 1;
    }
    StandsParts(z, i, s, [NUL]);
  }

  lemma RegroupOption(n: string, v: string, f: string, last: string)
    ensures n + [NUL] + v + [NUL] + f + last == (n + [NUL]) + ((v + [NUL]) + (f + last))
  {
  }

  lemma OptionParts(z: string, i: nat, n: string, v: string, more: string)
    requires Stands(z, i, (n + [NUL]) + ((v + [NUL]) + more))
    ensures Stands(z, i, n + [NUL]) && Stands(z, i + |n| + 1, v + [NUL]) && Stands(z, i + |n| + 1 + |v| + 1, more)
  {
    StandsParts(z, i, n + [NUL], (v + [NUL]) + more);
    StandsParts(z, i + |n| + 1, v + [NUL], more);
  }

  /** The lengths of the name and the value of the option at some position, which is known to be the first of `left`. */
  method OptionLengths(z: string, at: nat, ghost left: seq<Parameter>) returns (nOpt: nat, nVal: nat)
    requires Readable(left) && left != [] && Stands(z, at, Fields(left) + [NUL])
    ensures at + nOpt + 1 + nVal < |z|
    ensures z[at..at + nOpt] == left[0].name && z[at + nOpt + 1..at + nOpt + 1 + nVal] == left[0].value
    ensures Stands(z, at + nOpt + 1 + nVal + 1, Fields(left[1..]) + [NUL])
  {
    ghost var n, v, f := left[0].name, left[0].value, Fields(left[1..]);
    RegroupOption(n, v, f, [NUL]);
    OptionParts(z, at, n, v, f + [NUL]);
    nOpt := ReadString(z, at, n);
    nVal := ReadString(z, at + nOpt + 1, v);
  }

  lemma LayoutStands(z: string, path: string, os: seq<Parameter>)
    requires Layout(path, os) <= z
    ensures Stands(z, 0, path + [NUL]) && Stands(z, |path| + 1, Fields(os) + [NUL])
  {
    Regroup(path + [NUL], Fields(os), [NUL]);
    StandsParts(z, 0, path + [NUL], Fields(os) + [NUL]);
  }

  /** sqlite3_uri_parameter() on a buffer in that format. */
  method UriParameter(zFilename: string, zParam: string, ghost path: string, ghost os: seq<Parameter>)
    returns (r: Option<string>)
    requires CString(path) && Readable(os) && Layout(path, os) <= zFilename
    ensures r == Find(os, zParam)
  {
    ghost var left := os;
    var at := ReadString(zFilename, 0, path);
    at := at + 1;
    OptionBegins(zFilename, at, left);
    while At(zFilename, at) != NUL
      invariant 0 <= at && Readable(left) && Stands(zFilename, at, Fields(left) + [NUL])
      invariant At(zFilename, at) == NUL <==> left == []
      invariant Find(os, zParam) == Find(left, zParam)
      decreases |left|
    {
      var n, nVal := OptionLengths(zFilename, at, left);
      if zFilename[at..at + n] == zParam {
        return Some(zFilename[at + n + 1..at + n + 1 + nVal]);
      }
      at := at + n + 1 + nVal + 1;
      left := left[1..];
      OptionBegins(zFilename, at, left);
    }
    return None;
  }

  lemma OptionBegins(z: string, at: nat, left: seq<Parameter>)
    requires Readable(left) && Stands(z, at, Fields(left) + [NUL])
    ensures at < |z| && (z[at] == NUL <==> left == [])
  {
    var d := Fields(left) + [NUL];
    assert z[at] == z[at..at + |d|][0] == d[0];
    if left != [] {
      assert d[0] == left[0].name[0];
    }
  }

  // ----- every spelling -----

  /** The query says these names and values, in order; a parameter may lack a name, and one without '=' has no value. */
  predicate SpellsQuery(ps: seq<Param>, all: seq<Parameter>) {
    if ps == [] || all == [] then ps == [] && all == []
    else
      && Spells(ps[0].name, all[0].name, Name) && Spells(ps[0].value, all[0].value, Value)
      && (!ps[0].hasValue ==> ps[0].value == []) && SpellsQuery(ps[1..], all[1..])
  }

  function WithNames(all: seq<Parameter>): seq<Parameter> {
    if all == [] then []
    else if all[0].name == "" then WithNames(all[1..]) else [all[0]] + WithNames(all[1..])
  }

  lemma {:induction false} SpelledQuery(ps: seq<Param>, all: seq<Parameter>)
    requires SpellsQuery(ps, all)
    ensures LegalQuery(ps) && Named(ps) == WithNames(all)
  {
    if ps != [] {
      SpellsIff(ps[0].name, all[0].name, Name);
      SpellsIff(ps[0].value, all[0].value, Value);
      SpelledQuery(ps[1..], all[1..]);
      assert all[0] == Parameter(all[0].name, all[0].value);
    }
  }

  /**
   However the bytes of a path and of a query are spelled, plainly or by two digits in either case, the URI is
   parsed to just that path and to the named parameters.
   */
  lemma SpelledUriIsParsed(u: Uri, path: string, all: seq<Parameter>)
    requires Spells(u.path, path, Path) && HostFits(u)
    requires if u.query.Some? then SpellsQuery(u.query.value, all) else all == []
    ensures LegalUri(u) && FileName(UriText(u)).Ok? && Layout(path, WithNames(all)) <= FileName(UriText(u)).buffer
  {
    SpellsIff(u.path, path, Path);
    if u.query.Some? {
      SpelledQuery(u.query.value, all);
    }
    UriIsParsed(u);
  }

  // ----- the round trip -----

  /** A byte string: no character is a zero. */
  predicate ByteString(s: string) {
    forall i :: 0 <= i < |s| ==> 0 < s[i] as int < 256
  }

  /** Every byte as an escape sequence, with digits of either case. */
  function Encode(s: string, lower: bool): seq<Unit>
    requires ByteString(s)
  {
    if s == "" then []
    else
      var digits := if lower then LOWER_DIGITS else UPPER_DIGITS;
      [Escaped(digits[s[0] as int / 16], digits[s[0] as int % 16])] + Encode(s[1..], lower)
  }

  lemma {:induction false} EncodeSpells(s: string, lower: bool, p: Part)
    requires ByteString(s)
    ensures Spells(Encode(s, lower), s, p)
  {
    if s != "" {
      EncodeSpells(s[1..], lower, p);
      assert Encode(s, lower)[1..] == Encode(s[1..], lower);
    }
  }

  predicate Encodable(os: seq<Parameter>) {
    os == [] || (os[0].name != "" && ByteString(os[0].name) && ByteString(os[0].value) && Encodable(os[1..]))
  }

  function EncodeAll(os: seq<Parameter>, lower: bool): seq<Param>
    requires Encodable(os)
  {
    if os == [] then []
    else [Param(Encode(os[0].name, lower), true, Encode(os[0].value, lower))] + EncodeAll(os[1..], lower)
  }

  lemma {:induction false} EncodeAllSpells(os: seq<Parameter>, lower: bool)
    requires Encodable(os)
    ensures SpellsQuery(EncodeAll(os, lower), os) && WithNames(os) == os
  {
    if os != [] {
      EncodeSpells(os[0].name, lower, Name);
      EncodeSpells(os[0].value, lower, Value);
      EncodeAllSpells(os[1..], lower);
      assert EncodeAll(os, lower)[1..] == EncodeAll(os[1..], lower);
      assert os == [os[0]] + os[1..];
    }
  }

  predicate Distinct(os: seq<Parameter>) {
    forall i, j :: 0 <= i < j < |os| ==> os[i].name != os[j].name
  }

  lemma {:induction false} FindEach(os: seq<Parameter>, i: nat)
    requires Distinct(os) && i < |os|
    ensures Find(os, os[i].name) == Some(os[i].value)
  {
    if i > 0 {
      FindEach(os[1..], i - 1);
    }
  }

  /** For every path and parameters there is a URI that is parsed to them, with digits of either case. */
  lemma EveryNameHasUri(path: string, os: seq<Parameter>, lower: bool) returns (u: Uri)
    requires ByteString(path) && Encodable(os)
    ensures u == Uri(NoHost, Encode(path, lower), Some(EncodeAll(os, lower)), None)
    ensures LegalUri(u) && FileName(UriText(u)).Ok? && Layout(path, os) <= FileName(UriText(u)).buffer
  {
    EncodeSpells(path, lower, Path);
    EncodeAllSpells(os, lower);
    u := Uri(NoHost, Encode(path, lower), Some(EncodeAll(os, lower)), None);
    assert Text(u.path) == "" || Text(u.path)[0] == '%';
    SpelledUriIsParsed(u, path, os);
  }
}
