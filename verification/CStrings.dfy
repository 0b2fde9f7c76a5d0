/** Zero-terminated strings. A C string is the sequence of its characters before the terminating zero. */
module CStrings {

  const NUL := '\0'

  predicate CString(s: string) { NUL !in s }

  /** The character at position i of a zero-terminated string. */
  function At(s: string, i: nat): char {
    if i < |s| then s[i] else NUL
  }

  /** The text d stands in z at position i. */
  predicate Stands(z: string, i: nat, d: string) {
    i + |d| <= |z| && z[i..i + |d|] == d
  }

  lemma StandsParts(z: string, i: nat, a: string, b: string)
    requires Stands(z, i, a + b)
    ensures Stands(z, i, a) && Stands(z, i + |a|, b)
  {
    var d := z[i..i + |a + b|];
    assert z[i..i + |a|] == d[..|a|] == a;
    assert z[i + |a|..i + |a| + |b|] == d[|a|..] == b;
  }

  lemma Regroup(a: string, b: string, c: string)
    ensures a + b + c == a + (b + c)
  {
  }
}
