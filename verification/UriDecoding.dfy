/**
 sqlite3ParseUri(), first part: a URI filename becomes a buffer that holds the path and, after it, the
 names and values of the query parameters, each with a terminating zero. Characters stand for bytes.
 */
module UriDecoding {
  import opened CStrings

  predicate IsXDigit(c: char) { '0' <= c <= '9' || 'a' <= c <= 'f' || 'A' <= c <= 'F' }

  function HexToInt(c: char): (h: nat)
    requires IsXDigit(c)
    ensures h < 16
  {
    if c <= '9' then (c - '0') as nat else if c <= 'F' then (c - 'A') as nat + 10 else (c - 'a') as nat + 10
  }

  predicate IsEscape(z: string) {
    |z| >= 3 && z[0] == '%' && IsXDigit(z[1]) && IsXDigit(z[2])
  }

  function Octet(hi: char, lo: char): (c: char)
    requires IsXDigit(hi) && IsXDigit(lo)
  {
    (HexToInt(hi) * 16 + HexToInt(lo)) as char
  }

  /** Where the parser is: in the path, in the name of a parameter or in its value. */
  datatype Part = Path | Name | Value

  predicate EndsPart(p: Part, c: char) {
    match p
    case Path => c == '?'
    case Name => c == '=' || c == '&'
    case Value => c == '&'
  }

  /** After %00 the rest of the path, name or value is ignored. */
  function SkipPart(z: string, p: Part): (r: string)
    ensures |r| <= |z|
  {
    if z == "" || z[0] == '#' || EndsPart(p, z[0]) then z else SkipPart(z[1..], p)
  }

  /** An option without a name is ignored up to the next one. */
  function SkipOption(z: string): (r: string)
    ensures |r| <= |z|
  {
    if z == "" || z[0] == '#' then z else if z[0] == '&' then z[1..] else SkipOption(z[1..])
  }

  /** The buffer, from the rest of the URI and what has been written so far. */
  function Decode(z: string, p: Part, done: string): string
    requires p == Name ==> done != ""
    decreases |z|
  {
    if z == "" || z[0] == '#' then
      done + (if p == Name then [NUL] else "") + [NUL, NUL]
    else if IsEscape(z) then
      if Octet(z[1], z[2]) == NUL then Decode(SkipPart(z[3..], p), p, done)
      else Decode(z[3..], p, done + [Octet(z[1], z[2])])
    else if !EndsPart(p, z[0]) then Decode(z[1..], p, done + [z[0]])
    else if p != Name then Decode(z[1..], Name, done + [NUL])
    else if done[|done| - 1] == NUL then
      Decode(if z[0] == '&' then z[1..] else SkipOption(z[1..]), Name, done)
    else if z[0] == '&' then Decode(z[1..], Name, done + [NUL, NUL])
    else Decode(z[1..], Value, done + [NUL])
  }

  // ----- hexadecimal digits -----

  /** The digits by value, as they are written in either case. */
  const LOWER_DIGITS := "0123456789abcdef"
  const UPPER_DIGITS := "0123456789ABCDEF"

  /** c is the digit h. */
  predicate IsDigit(c: char, h: nat) { h < 16 && (c == LOWER_DIGITS[h] || c == UPPER_DIGITS[h]) }

  /** A character has a value exactly if it is a digit of either case, and then it has the value of that digit. */
  lemma HexToIntIff(c: char, h: nat)
    ensures IsDigit(c, h) <==> IsXDigit(c) && HexToInt(c) == h
  {
    if h < 10 {
      assert LOWER_DIGITS[h] == UPPER_DIGITS[h] == '0' + h as char;
    } else if h < 16 {
      assert LOWER_DIGITS[h] == 'a' + (h - 10) as char && UPPER_DIGITS[h] == 'A' + (h - 10) as char;
    }
  }

  // ----- what a URI says -----

  /** A character as it stands, or a percent sign and two hexadecimal digits. */
  datatype Unit = Plain(c: char) | Escaped(hi: char, lo: char)

  predicate Legal(u: Unit, p: Part) {
    match u
    case Plain(c) => c != NUL && c != '%' && c != '#' && !EndsPart(p, c)
    case Escaped(hi, lo) => IsXDigit(hi) && IsXDigit(lo) && Octet(hi, lo) != NUL
  }

  predicate AllLegal(us: seq<Unit>, p: Part) {
    forall u :: u in us ==> Legal(u, p)
  }

  function UnitText(u: Unit): string {
    match u case Plain(c) => [c] case Escaped(hi, lo) => ['%', hi, lo]
  }

  function Byte(u: Unit, p: Part): (c: char)
    requires Legal(u, p)
    ensures c != NUL
  {
    match u case Plain(c) => c case Escaped(hi, lo) => Octet(hi, lo)
  }

  /** The characters at which a part ends; '=' is an ordinary character in a path and in a value. */
  function Stops(p: Part): string {
    match p case Path => "?#" case Name => "=&#" case Value => "&#"
  }

  /** The unit stands for the character c: plainly, or by the two digits of its code in either case. */
  predicate SpellsByte(u: Unit, c: char, p: Part) {
    match u
    case Plain(x) => x == c && c != NUL && c != '%' && c !in Stops(p)
    case Escaped(hi, lo) => 0 < c as int < 256 && IsDigit(hi, c as int / 16) && IsDigit(lo, c as int % 16)
  }

  lemma SpellsByteIff(u: Unit, c: char, p: Part)
    ensures SpellsByte(u, c, p) <==> Legal(u, p) && Byte(u, p) == c
  {
    if u.Escaped? {
      HexToIntIff(u.hi, c as int / 16);
      HexToIntIff(u.lo, c as int % 16);
      if Legal(u, p) && Byte(u, p) == c {
        assert c as int == HexToInt(u.hi) * 16 + HexToInt(u.lo);
      }
    }
  }

  function Text(us: seq<Unit>): string {
    if us == [] then "" else UnitText(us[0]) + Text(us[1..])
  }

  function Bytes(us: seq<Unit>, p: Part): (s: string)
    requires AllLegal(us, p)
    ensures CString(s) && |s| == |us|
  {
    if us == [] then "" else [Byte(us[0], p)] + Bytes(us[1..], p)
  }

  /** The units stand for the text s, character by character. */
  predicate Spells(us: seq<Unit>, s: string, p: Part) {
    if us == [] || s == "" then us == [] && s == ""
    else SpellsByte(us[0], s[0], p) && Spells(us[1..], s[1..], p)
  }

  /** Decoding gives a text exactly if the units spell it. */
  lemma {:induction false} SpellsIff(us: seq<Unit>, s: string, p: Part)
    ensures Spells(us, s, p) <==> AllLegal(us, p) && Bytes(us, p) == s
  {
    if us != [] {
      if s != "" {
        SpellsByteIff(us[0], s[0], p);
        SpellsIff(us[1..], s[1..], p);
        assert s == [s[0]] + s[1..];
      }
    }
  }

  /** A query parameter; without an equals sign it has no value. */
  datatype Param = Param(name: seq<Unit>, hasValue: bool, value: seq<Unit>)

  predicate LegalParam(q: Param) {
    AllLegal(q.name, Name) && AllLegal(q.value, Value) && (!q.hasValue ==> q.value == [])
  }

  predicate LegalQuery(ps: seq<Param>) {
    ps == [] || (LegalParam(ps[0]) && LegalQuery(ps[1..]))
  }

  function ParamText(q: Param): string {
    Text(q.name) + if q.hasValue then ['='] + Text(q.value) else ""
  }

  function QueryText(ps: seq<Param>): string {
    if ps == [] then ""
    else ParamText(ps[0]) + if |ps| == 1 then "" else ['&'] + QueryText(ps[1..])
  }

  /** A name and a value after decoding. */
  datatype Parameter = Parameter(name: string, value: string)

  predicate Readable(os: seq<Parameter>) {
    os == [] || (os[0].name != "" && CString(os[0].name) && CString(os[0].value) && Readable(os[1..]))
  }

  /** The parameters that count: those with a name. */
  function Named(ps: seq<Param>): (os: seq<Parameter>)
    requires LegalQuery(ps)
    ensures Readable(os)
  {
    if ps == [] then []
    else
      var rest := Named(ps[1..]);
      if ps[0].name == [] then rest
      else
        var o := Parameter(Bytes(ps[0].name, Name), Bytes(ps[0].value, Value));
        assert ([o] + rest)[1..] == rest;
        [o] + rest
  }

  function Fields(os: seq<Parameter>): string {
    if os == [] then "" else os[0].name + [NUL] + os[0].value + [NUL] + Fields(os[1..])
  }

  /** The format in which a VFS gets a filename. */
  function Layout(path: string, os: seq<Parameter>): string {
    path + [NUL] + Fields(os) + [NUL]
  }

  // ----- decoding says the same -----

  predicate Ends(rest: string) { rest == "" || rest[0] == '#' }

  lemma UnitDecodes(u: Unit, p: Part, done: string, more: string)
    requires Legal(u, p) && (p == Name ==> done != "")
    ensures Decode(UnitText(u) + more, p, done) == Decode(more, p, done + [Byte(u, p)])
  {
    var z := UnitText(u) + more;
    match u {
      case Plain(x) =>
        assert z[0] == x && z[1..] == more;
      case Escaped(hi, lo) =>
        assert z[0] == '%' && z[1] == hi && z[2] == lo && z[3..] == more;
    }
  }

  lemma {:induction false} UnitsDecode(us: seq<Unit>, p: Part, done: string, rest: string)
    requires AllLegal(us, p) && (p == Name ==> done != "")
    ensures Decode(Text(us) + rest, p, done) == Decode(rest, p, done + Bytes(us, p))
    decreases |us|
  {
    if us == [] {
      assert Text(us) + rest == rest && done + Bytes(us, p) == done;
    } else {
      var more := Text(us[1..]) + rest;
      Regroup(UnitText(us[0]), Text(us[1..]), rest);
      UnitDecodes(us[0], p, done, more);
      UnitsDecode(us[1..], p, done + [Byte(us[0], p)], rest);
      Regroup(done, [Byte(us[0], p)], Bytes(us[1..], p));
    }
  }

  /** A percent sign that is not followed by two digits stands for itself. */
  lemma PercentStands(z: string, p: Part, done: string)
    requires z != "" && z[0] == '%' && (p == Name ==> done != "")
    requires |z| < 3 || (forall h :: !IsDigit(z[1], h)) || (forall h :: !IsDigit(z[2], h))
    ensures Decode(z, p, done) == Decode(z[1..], p, done + "%")
  {
    if IsEscape(z) {
      HexToIntIff(z[1], HexToInt(z[1]));
      HexToIntIff(z[2], HexToInt(z[2]));
    }
  }

  lemma {:induction false} SkipJunk(junk: string, next: string, p: Part)
    requires (forall c :: c in junk ==> c !in Stops(p)) && (next == "" || next[0] in Stops(p))
    ensures SkipPart(junk + next, p) == next
    decreases |junk|
  {
    if junk == "" {
      assert junk + next == next;
    } else {
      assert junk[0] in junk && (junk + next)[0] == junk[0];
      assert (junk + next)[1..] == junk[1..] + next;
      SkipJunk(junk[1..], next, p);
    }
  }

  /** A zero byte ends what is said of the path, the name or the value; the rest of that part is ignored. */
  lemma ZeroEndsPart(junk: string, next: string, p: Part, done: string)
    requires (forall c :: c in junk ==> c !in Stops(p)) && (next == "" || next[0] in Stops(p))
    requires p == Name ==> done != ""
    ensures Decode("%00" + (junk + next), p, done) == Decode(next, p, done)
  {
    var z := "%00" + (junk + next);
    assert z[1] == '0' && z[2] == '0' && z[3..] == junk + next;
    HexToIntIff('0', 0);
    SkipJunk(junk, next, p);
  }

  lemma SkipUnit(u: Unit, more: string)
    requires Legal(u, Value)
    ensures SkipOption(UnitText(u) + more) == SkipOption(more)
  {
    var z := UnitText(u) + more;
    match u {
      case Plain(x) =>
        assert z[1..] == more;
      case Escaped(hi, lo) =>
        assert z[1..] == [hi, lo] + more && z[1..][1..] == [lo] + more && z[1..][1..][1..] == more;
        assert SkipOption(z) == SkipOption([hi, lo] + more);
        assert SkipOption([hi, lo] + more) == SkipOption([lo] + more);
    }
  }

  lemma {:induction false} SkipUnits(us: seq<Unit>, rest: string)
    requires AllLegal(us, Value)
    ensures SkipOption(Text(us) + rest) == SkipOption(rest)
    decreases |us|
  {
    if us == [] {
      assert Text(us) + rest == rest;
    } else {
      var more := Text(us[1..]) + rest;
      Regroup(UnitText(us[0]), Text(us[1..]), rest);
      SkipUnit(us[0], more);
      SkipUnits(us[1..], rest);
    }
  }

  predicate Terminated(s: string) { s != "" && s[|s| - 1] == NUL }

  /** The name and the value of a parameter in the buffer. */
  function Field(q: Param): string
    requires LegalParam(q)
  {
    if q.name == [] then "" else Bytes(q.name, Name) + ([NUL] + (Bytes(q.value, Value) + [NUL]))
  }

  lemma ValuedText(n: string, v: string, rest: string)
    ensures n + (['='] + v) + rest == n + (['='] + (v + rest))
  {
  }

  lemma ValuedDecodes(q: Param, done: string, rest: string)
    requires LegalParam(q) && q.name != [] && q.hasValue && Terminated(done)
    ensures Decode(ParamText(q) + rest, Name, done)
         == Decode(rest, Value, done + Bytes(q.name, Name) + [NUL] + Bytes(q.value, Value))
  {
    var n := Bytes(q.name, Name);
    var tail := Text(q.value) + rest;
    ValuedText(Text(q.name), Text(q.value), rest);
    UnitsDecode(q.name, Name, done, ['='] + tail);
    SeparatorDecodes(n, done, '=', tail);
    UnitsDecode(q.value, Value, done + n + [NUL], rest);
  }

  lemma NameOnlyDecodes(q: Param, done: string, rest: string)
    requires LegalParam(q) && !q.hasValue && Terminated(done)
    ensures Decode(ParamText(q) + rest, Name, done) == Decode(rest, Name, done + Bytes(q.name, Name))
  {
    assert ParamText(q) + rest == Text(q.name) + rest;
    UnitsDecode(q.name, Name, done, rest);
  }

  lemma NamelessDecodes(q: Param, done: string, rest: string)
    requires LegalParam(q) && q.name == [] && q.hasValue && Terminated(done)
    ensures Decode(ParamText(q) + rest, Name, done) == Decode(SkipOption(rest), Name, done)
  {
    var tail := Text(q.value) + rest;
    ValuedText("", Text(q.value), rest);
    assert "" + (['='] + tail) == ['='] + tail;
    assert done + "" == done;
    SeparatorDecodes("", done, '=', tail);
    SkipUnits(q.value, rest);
  }

  /** After one parameter its fields are written, and the next name begins. */
  lemma ParamDecodes(q: Param, done: string, rest: string)
    requires LegalParam(q) && Terminated(done)
    ensures Decode(ParamText(q) + (['&'] + rest), Name, done) == Decode(rest, Name, done + Field(q))
  {
    if q.name == [] {
      EmptyNameGoesOn(q, done, rest);
    } else if q.hasValue {
      ValueGoesOn(q, done, rest);
    } else {
      NameGoesOn(q, done, rest);
    }
  }

  lemma EmptyNameGoesOn(q: Param, done: string, rest: string)
    requires LegalParam(q) && q.name == [] && Terminated(done)
    ensures Decode(ParamText(q) + (['&'] + rest), Name, done) == Decode(rest, Name, done + Field(q))
  {
    assert done + "" == done;
    if q.hasValue {
      NamelessDecodes(q, done, ['&'] + rest);
    } else {
      NameOnlyDecodes(q, done, ['&'] + rest);
      SeparatorDecodes("", done, '&', rest);
    }
  }

  lemma ValueGoesOn(q: Param, done: string, rest: string)
    requires LegalParam(q) && q.name != [] && q.hasValue && Terminated(done)
    ensures Decode(ParamText(q) + (['&'] + rest), Name, done) == Decode(rest, Name, done + Field(q))
  {
    ValuedDecodes(q, done, ['&'] + rest);
    var so := done + Bytes(q.name, Name) + [NUL] + Bytes(q.value, Value);
    FieldText(done, Bytes(q.name, Name), Bytes(q.value, Value));
  }

  lemma FieldText(done: string, n: string, v: string)
    ensures done + n + [NUL] + v + [NUL] == done + (n + ([NUL] + (v + [NUL])))
  {
  }

  lemma NameGoesOn(q: Param, done: string, rest: string)
    requires LegalParam(q) && q.name != [] && !q.hasValue && Terminated(done)
    ensures Decode(ParamText(q) + (['&'] + rest), Name, done) == Decode(rest, Name, done + Field(q))
  {
    NameOnlyDecodes(q, done, ['&'] + rest);
    SeparatorDecodes(Bytes(q.name, Name), done, '&', rest);
    assert done + Bytes(q.name, Name) + [NUL, NUL] == done + Field(q);
  }

  /** At the last parameter the buffer is finished. */
  lemma LastDecodes(q: Param, done: string, rest: string)
    requires LegalParam(q) && Terminated(done) && Ends(rest)
    ensures done + Field(q) + [NUL] <= Decode(ParamText(q) + rest, Name, done)
  {
    if q.hasValue {
      if q.name == [] {
        NamelessDecodes(q, done, rest);
        assert done + Field(q) + [NUL] == done + [NUL];
      } else {
        ValuedDecodes(q, done, rest);
        FieldText(done, Bytes(q.name, Name), Bytes(q.value, Value));
      }
    } else {
      NameOnlyDecodes(q, done, rest);
      NameEnds(q, done);
    }
  }

  lemma NameEnds(q: Param, done: string)
    requires LegalParam(q) && !q.hasValue
    ensures done + Field(q) + [NUL] <= done + Bytes(q.name, Name) + [NUL] + [NUL, NUL]
  {
    assert q.name != [] ==> done + Field(q) == done + Bytes(q.name, Name) + [NUL, NUL];
  }

  function AllFields(ps: seq<Param>): string
    requires LegalQuery(ps)
  {
    if ps == [] then "" else Field(ps[0]) + AllFields(ps[1..])
  }

  lemma FirstThenMore(ps: seq<Param>, done: string, rest: string)
    requires LegalQuery(ps) && |ps| > 1 && Terminated(done)
    ensures LegalParam(ps[0])
    ensures Decode(QueryText(ps) + rest, Name, done) == Decode(QueryText(ps[1..]) + rest, Name, done + Field(ps[0]))
  {
    assert LegalParam(ps[0]);
    var more := QueryText(ps[1..]) + rest;
    assert QueryText(ps) + rest == ParamText(ps[0]) + (['&'] + more);
    ParamDecodes(ps[0], done, more);
  }

  lemma OnlyOne(ps: seq<Param>)
    requires |ps| == 1 && LegalParam(ps[0])
    ensures QueryText(ps) == ParamText(ps[0]) && AllFields(ps) == Field(ps[0])
  {
    assert AllFields(ps[1..]) == "";
  }

  lemma {:induction false} QueryDecodes(ps: seq<Param>, done: string, rest: string)
    requires LegalQuery(ps)
    requires ps != [] && Terminated(done) && Ends(rest)
    ensures done + AllFields(ps) + [NUL] <= Decode(QueryText(ps) + rest, Name, done)
    decreases |ps|
  {
    if |ps| == 1 {
      OnlyOne(ps);
      LastDecodes(ps[0], done, rest);
    } else {
      FirstThenMore(ps, done, rest);
      QueryDecodes(ps[1..], done + Field(ps[0]), rest);
      Regroup(done, Field(ps[0]), AllFields(ps[1..]));
    }
  }

  /** The fields are those of the named parameters. */
  lemma {:induction false} FieldsOfNamed(ps: seq<Param>)
    requires LegalQuery(ps)
    ensures AllFields(ps) == Fields(Named(ps))
  {
    if ps != [] {
      FieldsOfNamed(ps[1..]);
      if ps[0].name != [] {
        FirstField(Parameter(Bytes(ps[0].name, Name), Bytes(ps[0].value, Value)), Named(ps[1..]));
      }
    }
  }

  lemma FirstField(o: Parameter, rest: seq<Parameter>)
    ensures Fields([o] + rest) == o.name + ([NUL] + (o.value + [NUL])) + Fields(rest)
  {
    assert ([o] + rest)[1..] == rest;
    FieldText("", o.name, o.value);
    assert "" + o.name == o.name;
    assert "" + (o.name + ([NUL] + (o.value + [NUL]))) == o.name + ([NUL] + (o.value + [NUL]));
  }

  /** The character after a name. */
  lemma SeparatorDecodes(n: string, done: string, c: char, rest: string)
    requires Terminated(done) && CString(n) && (c == '=' || c == '&')
    ensures Decode([c] + rest, Name, done + n)
         == if n == "" then Decode(if c == '&' then rest else SkipOption(rest), Name, done)
            else if c == '&' then Decode(rest, Name, done + n + [NUL, NUL])
            else Decode(rest, Value, done + n + [NUL])
  {
    assert ([c] + rest)[1..] == rest;
    assert n == "" ==> done + n == done;
    assert n != "" ==> (done + n)[|done + n| - 1] == n[|n| - 1];
  }
}
