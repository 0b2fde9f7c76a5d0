/**
 Reading a quoted literal back: where the tokenizer ends it, what sqlite3Dequote() makes of it, and
 that both undo %Q.
 */
module Literals {
  import opened CStrings
  import opened Options
  import opened Quoting

  /** The position of the quote that ends a literal whose body starts at i, or the end of the string. */
  function Close(z: string, i: nat, q: char): (end: nat)
    requires i <= |z|
    ensures i <= end <= |z|
    decreases |z| - i
  {
    if i == |z| then i
    else if z[i] != q then Close(z, i + 1, q)
    else if i + 1 < |z| && z[i + 1] == q then Close(z, i + 2, q)
    else i
  }

  /** The text of that body. */
  function Decoded(z: string, i: nat, q: char): string
    requires i <= |z|
    decreases |z| - i
  {
    if i == |z| then ""
    else if z[i] != q then [z[i]] + Decoded(z, i + 1, q)
    else if i + 1 < |z| && z[i + 1] == q then [q] + Decoded(z, i + 2, q)
    else ""
  }

  datatype TokenType = TK_STRING | TK_ID | TK_ILLEGAL

  predicate IsQuote(c: char) { c == '\'' || c == '"' || c == '`' }

  /** The case of a quote character in sqlite3GetToken(). */
  method GetToken(z: string) returns (tokenType: TokenType, length: nat)
    requires CString(z) && z != "" && IsQuote(z[0])
    ensures var end := Close(z, 1, z[0]);
            && length == (if end < |z| then end + 1 else |z|)
            && (tokenType == TK_ILLEGAL <==> end == |z|)
            && (tokenType == TK_STRING <==> end < |z| && z[0] == '\'')
  {
    var delim := z[0];
    var i := 1;
    var c := At(z, i);
    while c != NUL
      invariant i <= |z| && c == At(z, i)
      invariant Close(z, 1, delim) == Close(z, i, delim)
      decreases |z| - i
    {
      if c == delim {
        if At(z, i + 1) == delim {
          i := i + 1;
        } else {
          break;
        }
      }
      i := i + 1;
      c := At(z, i);
    }
    if c == '\'' {
      return TK_STRING, i + 1;
    } else if c != NUL {
      return TK_ID, i + 1;
    } else {
      return TK_ILLEGAL, i;
    }
  }

  function Closing(c: char): Option<char> {
    if IsQuote(c) then Some(c) else if c == '[' then Some(']') else None
  }

  /** Text in the three kinds of quotes ends with the same quote, and text in brackets with the other bracket. */
  lemma ClosingIs(c: char, close: char)
    ensures Closing(c) == Some(close) <==> ([c, close] in ["''", "\"\"", "``", "[]"])
  {
    assert [c, close][0] == c && [c, close][1] == close;
  }

  /** sqlite3Dequote(), in place. `n` is the length of the zero-terminated string in z. */
  method Dequote(z: array<char>, ghost n: nat) returns (r: int)
    requires n < z.Length && z[n] == NUL && CString(z[..n])
    modifies z
    ensures Closing(old(z[0])).None? ==> r == -1 && z[..] == old(z[..])
    ensures Closing(old(z[0])).Some? ==>
      && n > 0 && 0 <= r < n && z[r] == NUL
      && z[..r] == Decoded(old(z[..n]), 1, Closing(old(z[0])).value)
      && (forall m :: r < m < z.Length ==> z[m] == old(z[m]))
  {
    ghost var text, out := z[..n], "";
    assert n > 0 ==> text[0] == z[0];
    var closing := Closing(z[0]);
    if closing == None {
      return -1;
    }
    var quote := closing.value;
    var i, j := 1, 0;
    while z[i] != NUL
      invariant 0 <= j < i <= n && j == |out|
      invariant forall m :: j <= m < z.Length ==> z[m] == old(z[m])
      invariant forall m :: 0 <= m < j ==> z[m] == out[m]
      invariant Decoded(text, 1, quote) == out + Decoded(text, i, quote)
      decreases n - i
    {
      assert z[i] == text[i] && (i + 1 < n ==> z[i + 1] == text[i + 1]);
      ghost var sofar, from := out, i;
      if z[i] == quote {
        if z[i + 1] == quote {
          z[j] := quote;
          j := j + 1;
          i := i + 1;
          out := out + [quote];
        } else {
          break;
        }
      } else {
        z[j] := z[i];
        j := j + 1;
        out := out + [text[i]];
      }
      i := i + 1;
      DecodedStep(text, from, quote, sofar);
    }
    z[j] := NUL;
    r := j;
    assert out + "" == out;
    assert z[..r] == out;
  }

  /** The next character of the body, after what has been read so far. */
  lemma DecodedStep(z: string, i: nat, q: char, sofar: string)
    requires i < |z| && (z[i] == q ==> i + 1 < |z| && z[i + 1] == q)
    ensures sofar + Decoded(z, i, q) == sofar + [z[i]] + Decoded(z, if z[i] == q then i + 2 else i + 1, q)
  {
  }

  // ----- round trips -----

  lemma {:induction false} DoubledConcat(a: string, b: string, q: char)
    ensures Doubled(a + b, q) == Doubled(a, q) + Doubled(b, q)
  {
    if b == "" {
      assert a + b == a;
    } else {
      assert (a + b)[..|a + b| - 1] == a + b[..|b| - 1];
      DoubledConcat(a, b[..|b| - 1], q);
    }
  }

  lemma DoubledHead(s: string, q: char)
    requires s != ""
    ensures Doubled(s, q) == (if s[0] == q then [q, q] else [s[0]]) + Doubled(s[1..], q)
  {
    assert s == [s[0]] + s[1..];
    DoubledConcat([s[0]], s[1..], q);
    assert Doubled([s[0]][..0], q) == "";
  }

  lemma CharIsRead(z: string, i: nat, c: char, q: char)
    requires Stands(z, i, if c == q then [q, q] else [c])
    ensures var k := i + if c == q then 2 else 1;
            Close(z, i, q) == Close(z, k, q) && Decoded(z, i, q) == [c] + Decoded(z, k, q)
  {
    var d := if c == q then [q, q] else [c];
    assert z[i] == z[i..i + |d|][0];
    assert c == q ==> z[i + 1] == z[i..i + |d|][1];
  }

  lemma {:induction false} BodyIsSkipped(z: string, i: nat, s: string, q: char)
    requires Stands(z, i, Doubled(s, q))
    ensures Close(z, i, q) == Close(z, i + |Doubled(s, q)|, q)
    decreases |s|
  {
    if s != "" {
      DoubledHead(s, q);
      var first := if s[0] == q then [q, q] else [s[0]];
      StandsParts(z, i, first, Doubled(s[1..], q));
      CharIsRead(z, i, s[0], q);
      BodyIsSkipped(z, i + |first|, s[1..], q);
    }
  }

  lemma HeadRejoins(s: string, r: string)
    requires s != ""
    ensures [s[0]] + (s[1..] + r) == s + r
  {
    assert s == [s[0]] + s[1..];
  }

  lemma {:induction false} BodyIsDecoded(z: string, i: nat, s: string, q: char, k: nat)
    requires Stands(z, i, Doubled(s, q)) && k == i + |Doubled(s, q)|
    ensures Decoded(z, i, q) == s + Decoded(z, k, q)
    decreases |s|
  {
    if s != "" {
      DoubledHead(s, q);
      var first := if s[0] == q then [q, q] else [s[0]];
      StandsParts(z, i, first, Doubled(s[1..], q));
      CharIsRead(z, i, s[0], q);
      BodyIsDecoded(z, i + |first|, s[1..], q, k);
      HeadRejoins(s, Decoded(z, k, q));
    }
  }

  /** A doubled text is read as that text, whatever stands after it. */
  lemma BodyIsRead(z: string, i: nat, s: string, q: char)
    requires Stands(z, i, Doubled(s, q))
    ensures var k := i + |Doubled(s, q)|;
            Close(z, i, q) == Close(z, k, q) && Decoded(z, i, q) == s + Decoded(z, k, q)
  {
    BodyIsSkipped(z, i, s, q);
    BodyIsDecoded(z, i, s, q, i + |Doubled(s, q)|);
  }

  /** A doubled text between quotes ends at the last quote exactly if no further one follows, and is decoded. */
  lemma LiteralIsRead(body: string, q: char, rest: string)
    ensures var lit := [q] + Doubled(body, q) + [q];
            && (Close(lit + rest, 1, q) == |lit| - 1 <==> (rest == "" || rest[0] != q))
            && (rest == "" || rest[0] != q ==> Decoded(lit + rest, 1, q) == body)
  {
    var lit := [q] + Doubled(body, q) + [q];
    var z := lit + rest;
    var k := |lit| - 1;
    assert z[1..] == Doubled(body, q) + [q] + rest;
    BodyIsRead(z, 1, body, q);
    assert z[k] == q && (rest != "" ==> z[k + 1] == rest[0]);
  }

  /**
   %Q, for every text and precision: the literal is read as the text, and the tokenizer ends it at its
   last quote exactly if no further quote follows it.
   */
  lemma QuotedIsRead(s: string, precision: int, rest: string)
    ensures var lit := Rendered(SqlEscape2, Some(s), precision);
            && |lit| >= 2 && lit[0] == '\''
            && (Close(lit + rest, 1, '\'') == |lit| - 1 <==> (rest == "" || rest[0] != '\''))
            && (rest == "" || rest[0] != '\'' ==> Decoded(lit + rest, 1, '\'') == Allowed(s, precision))
  {
    LiteralIsRead(Allowed(s, precision), '\'', rest);
  }

  /** %q between single quotes and %w between double quotes are read as the text in the same way. */
  lemma InsideQuotesIsRead(x: Escape, s: string, precision: int, rest: string)
    requires x != SqlEscape2 && (rest == "" || rest[0] != (if x == SqlEscape then '\'' else '"'))
    ensures var q := if x == SqlEscape then '\'' else '"';
            var lit := [q] + Rendered(x, Some(s), precision) + [q];
            Close(lit + rest, 1, q) == |lit| - 1 && Decoded(lit + rest, 1, q) == Allowed(s, precision)
  {
    LiteralIsRead(Allowed(s, precision), if x == SqlEscape then '\'' else '"', rest);
  }

  /** %Q stands for NULL without quotes when the pointer is NULL. */
  lemma NullIsNULL()
    ensures Rendered(SqlEscape2, None, -1) == "NULL"
  {
    NoQuoteInside("NULL", '\'');
  }

  /** With %Q a NULL pointer is unlike every text, and different texts are unlike each other. */
  lemma QuotedIsUnique(a: Option<string>, b: Option<string>)
    ensures Rendered(SqlEscape2, a, -1) == Rendered(SqlEscape2, b, -1) <==> a == b
  {
    if a.Some? && b.Some? {
      QuotedIsRead(a.value, -1, "");
      QuotedIsRead(b.value, -1, "");
      assert Rendered(SqlEscape2, a, -1) + "" == Rendered(SqlEscape2, a, -1);
      assert Rendered(SqlEscape2, b, -1) + "" == Rendered(SqlEscape2, b, -1);
    } else {
      NullIsPlain(-1);
    }
  }

  lemma NullIsPlain(precision: int)
    ensures '\'' !in Rendered(SqlEscape2, None, precision)
  {
    NoQuoteInside(Allowed("NULL", precision), '\'');
  }

  lemma {:induction false} NoQuoteInside(s: string, q: char)
    requires q !in s
    ensures Doubled(s, q) == s
  {
    if s != "" {
      NoQuoteInside(s[..|s| - 1], q);
      assert s == s[..|s| - 1] + [s[|s| - 1]];
    }
  }

  /** With %q it is not: NULL and the text (NULL) give the same. */
  lemma NullLooksLikeText(precision: int)
    ensures Rendered(SqlEscape, None, precision) == Rendered(SqlEscape, Some("(NULL)"), precision)
  {
  }

  // ----- literals that did not fit -----

  /** A cut through a doubled text falls after a character of the text or between two quotes. */
  lemma {:induction false} CutDoubled(s: string, m: nat, q: char) returns (n: nat)
    requires m <= |Doubled(s, q)|
    ensures n <= |s|
    ensures Doubled(s, q)[..m] == Doubled(s[..n], q)
      || (n < |s| && s[n] == q && Doubled(s, q)[..m] == Doubled(s[..n], q) + [q])
  {
    if m == |Doubled(s, q)| {
      n := |s|;
      assert s[..n] == s && Doubled(s, q)[..m] == Doubled(s, q);
    } else {
      var front := s[..|s| - 1];
      var d := Doubled(front, q);
      if m <= |d| {
        assert Doubled(s, q)[..m] == d[..m];
        n := CutDoubled(front, m, q);
        assert front[..n] == s[..n];
      } else {
        n := |s| - 1;
        assert Doubled(s, q)[..m] == d + [q];
      }
    }
  }

  /** A literal that was cut short is not accepted, or it reads as a shorter text that ends before a quote. */
  lemma TruncatedLiteral(s: string, m: nat)
    requires 1 <= m < |Rendered(SqlEscape2, Some(s), -1)|
    ensures var cut := Rendered(SqlEscape2, Some(s), -1)[..m]; var text := Decoded(cut, 1, '\'');
            Close(cut, 1, '\'') < |cut| ==> |text| < |s| && text == s[..|text|] && s[|text|] == '\''
  {
    var q := '\'';
    var cut := Rendered(SqlEscape2, Some(s), -1)[..m];
    assert cut[1..] == Doubled(s, q)[..m - 1];
    var n := CutDoubled(s, m - 1, q);
    BodyIsRead(cut, 1, s[..n], q);
  }
}
