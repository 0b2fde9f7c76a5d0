/**
 The %q, %Q and %w conversions of printf.c, and the two routines that read a quoted literal back: the
 tokenizer's scan of a string and sqlite3Dequote().
 */
module Quoting {
  import opened CStrings
  import opened Options

  datatype Escape = SqlEscape | SqlEscape2 | SqlEscape3  // %q, %Q, %w

  function Quote(x: Escape): char {
    if x == SqlEscape3 then '"' else '\''
  }

  /** Every quote character twice. */
  function Doubled(s: string, q: char): string {
    if s == "" then ""
    else Doubled(s[..|s| - 1], q) + (if s[|s| - 1] == q then [q, q] else [s[|s| - 1]])
  }

  /** The first characters that a precision allows; a negative one allows all. */
  function Allowed(s: string, precision: int): string {
    if 0 <= precision < |s| then s[..precision] else s
  }

  /** A precision cuts the text to that many characters. */
  lemma PrecisionLimits(s: string, precision: int)
    ensures Allowed(s, precision) <= s
    ensures |Allowed(s, precision)| == if precision < 0 || precision > |s| then |s| else precision
  {
  }

  /** What the conversion stands for. */
  function Rendered(x: Escape, arg: Option<string>, precision: int): string {
    match arg
    case None => Doubled(Allowed(if x == SqlEscape2 then "NULL" else "(NULL)", precision), Quote(x))
    case Some(s) =>
      var body := Doubled(Allowed(s, precision), Quote(x));
      if x == SqlEscape2 then [Quote(x)] + body + [Quote(x)] else body
  }

  function Count(s: string, q: char): nat {
    if s == "" then 0 else Count(s[..|s| - 1], q) + (if s[|s| - 1] == q then 1 else 0)
  }

  lemma {:induction false} DoubledLength(s: string, q: char)
    ensures |Doubled(s, q)| == |s| + Count(s, q)
  {
    if s != "" {
      DoubledLength(s[..|s| - 1], q);
    }
  }

  /** The first loop of the conversion: how much of the string is used, and the quotes in it. */
  method Measure(escarg: string, precision: int, q: char) returns (i: nat, n: nat)
    requires CString(escarg)
    ensures i <= |escarg| && escarg[..i] == Allowed(escarg, precision)
    ensures n == Count(escarg[..i], q)
  {
    var k := precision;
    i, n := 0, 0;
    while k != 0 && At(escarg, i) != NUL
      invariant i <= |escarg| && k == precision - i && n == Count(escarg[..i], q)
      invariant precision >= 0 ==> i <= precision
      decreases |escarg| - i
    {
      assert escarg[..i + 1][..i] == escarg[..i];
      if At(escarg, i) == q {
        n := n + 1;
      }
      i, k := i + 1, k - 1;
    }
  }

  /** The copying loop. */
  method Fill(bufpt: array<char>, start: nat, text: string, q: char) returns (j: nat)
    requires start + |Doubled(text, q)| <= bufpt.Length
    modifies bufpt
    ensures j == start + |Doubled(text, q)|
    ensures bufpt[..j] == old(bufpt[..start]) + Doubled(text, q)
  {
    ghost var front := bufpt[..start];
    j := start;
    var i := 0;
    assert Doubled(text[..0], q) == "";
    while i < |text|
      invariant i <= |text| && j == start + |Doubled(text[..i], q)| <= bufpt.Length
      invariant bufpt[..j] == front + Doubled(text[..i], q)
    {
      assert text[..i + 1][..i] == text[..i];
      DoubledGrows(text, i + 1, q);
      var ch := text[i];
      ghost var sofar := bufpt[..j];
      bufpt[j] := ch;
      j := j + 1;
      assert bufpt[..j] == sofar + [ch];
      if ch == q {
        bufpt[j] := ch;
        j := j + 1;
        assert bufpt[..j] == sofar + [ch, ch];
      }
      i := i + 1;
    }
    assert text[..i] == text;
  }

  /**
   The case etSQLESCAPE of sqlite3VXPrintf(): the buffer is sized first and then filled, and the size is
   exact.
   */
  method Convert(x: Escape, arg: Option<string>, precision: int) returns (bufpt: array<char>, length: nat)
    requires arg.Some? ==> CString(arg.value)
    ensures length + 1 == bufpt.Length
    ensures bufpt[..length] == Rendered(x, arg, precision)
    ensures bufpt[length] == NUL
  {
    var q := Quote(x);
    var isnull := arg.None?;
    var escarg := if isnull then (if x == SqlEscape2 then "NULL" else "(NULL)") else arg.value;
    var i, n := Measure(escarg, precision, q);
    DoubledLength(escarg[..i], q);
    var needQuote := !isnull && x == SqlEscape2;
    n := n + i + 1 + if needQuote then 2 else 0;
    bufpt := new char[n];
    var j := 0;
    if needQuote {
      bufpt[j] := q;
      j := j + 1;
    }
    assert bufpt[..j] == if needQuote then [q] else [];
    j := Fill(bufpt, j, escarg[..i], q);
    ghost var sofar := bufpt[..j];
    if needQuote {
      bufpt[j] := q;
      j := j + 1;
      assert bufpt[..j] == sofar + [q];
    }
    bufpt[j] := NUL;
    length := j;
    assert bufpt[..length] == if needQuote then sofar + [q] else sofar;
  }

  lemma {:induction false} DoubledGrows(s: string, i: nat, q: char)
    requires i <= |s|
    ensures |Doubled(s[..i], q)| <= |Doubled(s, q)|
  {
    if i < |s| {
      assert s[..|s| - 1][..i] == s[..i];
      DoubledGrows(s[..|s| - 1], i, q);
    } else {
      assert s[..i] == s;
    }
  }
}
