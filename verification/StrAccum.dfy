/**
 The string accumulator of printf.c: what sqlite3_snprintf() leaves in a buffer of n bytes, and what
 sqlite3_mprintf() returns. The pieces are the literal parts of a format and its conversions.
 */
module StrAccum {
  import opened CStrings

  class Accum {
    const zBase: array<char>
    const useMalloc: bool
    const mxAlloc: nat
    ghost const nBase: nat
    var zText: array?<char>
    var nChar: nat
    var nAlloc: nat
    var tooBig: bool
    var mallocFailed: bool
    ghost var wanted: string  // everything that was to be appended

    /** A fixed buffer holds as much as fits; an allocated one holds all of it or is given up. */
    ghost predicate Valid()
      reads this, zText
    {
      && (zText != null ==> nChar < nAlloc <= zText.Length && nChar <= |wanted| && zText[..nChar] == wanted[..nChar])
      && (!useMalloc ==>
            && zText == zBase && !mallocFailed
            && nChar == (if |wanted| < nAlloc then |wanted| else nAlloc - 1)
            && (tooBig <==> |wanted| >= nAlloc))
      && (useMalloc ==>
            && (zText == null <==> tooBig || mallocFailed)
            && (zText != null ==> nChar == |wanted|)
            && nBase <= nAlloc && (zText == zBase ==> nAlloc == nBase)
            && (zText != null && zText != zBase ==> nAlloc <= mxAlloc)
            && (tooBig ==> |wanted| >= mxAlloc && |wanted| >= nBase))
    }

    /** sqlite3StrAccumInit(). */
    constructor (zBase: array<char>, n: nat, mx: nat, useMalloc: bool)
      requires 0 < n <= zBase.Length
      ensures Valid() && wanted == "" && zText == zBase && nAlloc == n
      ensures this.zBase == zBase && this.nBase == n && this.mxAlloc == mx && this.useMalloc == useMalloc
    {
      this.zBase, this.nBase, this.mxAlloc, this.useMalloc := zBase, n, mx, useMalloc;
      zText, nChar, nAlloc, tooBig, mallocFailed, wanted := zBase, 0, n, false, false, "";
    }

    /** memcpy() to the end of the text. */
    method Copy(z: string, n: nat)
      requires zText != null && n <= |z| && nChar + n <= zText.Length
      modifies this`nChar, zText
      ensures nChar == old(nChar) + n
      ensures zText[..nChar] == old(zText[..nChar]) + z[..n]
      ensures forall i :: nChar <= i < zText.Length ==> zText[i] == old(zText[i])
    {
      forall i | 0 <= i < n {
        zText[nChar + i] := z[i];
      }
      nChar := nChar + n;
    }

    /** sqlite3StrAccumAppend(). `memory` tells whether an allocation succeeds. */
    method Append(z: string, memory: bool)
      requires Valid()
      modifies this, zBase, zText
      ensures Valid() && wanted == old(wanted) + z && nAlloc >= old(nAlloc)
      ensures !useMalloc ==> nAlloc == old(nAlloc)
      ensures zText == old(zText) || zText == null || (memory && fresh(zText))
      ensures memory ==> mallocFailed == old(mallocFailed)
    {
      wanted := wanted + z;
      if tooBig || mallocFailed {
        return;
      }
      var n := |z|;
      if n == 0 {
        return;
      }
      if nChar + n >= nAlloc {
        if !useMalloc {
          tooBig := true;
          n := nAlloc - nChar - 1;
          if n <= 0 {
            return;
          }
        } else if nChar + n + 1 > mxAlloc {
          zText, tooBig := null, true;
          return;
        } else if !memory {
          zText, mallocFailed := null, true;
          return;
        } else {
          Grow(nChar + n + 1);
        }
      }
      Copy(z, n);
    }

    /** The realloc() of the text, which keeps what is there. */
    method Grow(n: nat)
      requires zText != null && nChar < nAlloc <= zText.Length && nAlloc <= n
      modifies this`zText, this`nAlloc
      ensures zText != null && fresh(zText) && zText.Length == n == nAlloc
      ensures zText[..nChar] == old(zText[..nChar])
    {
      var zNew := new char[n];
      forall i | 0 <= i < nChar {
        zNew[i] := zText[i];
      }
      zText, nAlloc := zNew, n;
    }

    /** sqlite3AppendSpace(): 29 spaces at a time. */
    method AppendSpace(count: nat, memory: bool)
      requires Valid()
      modifies this, zBase, zText
      ensures Valid() && wanted == old(wanted) + Spaces(count) && nAlloc >= old(nAlloc)
      ensures !useMalloc ==> nAlloc == old(nAlloc)
      ensures zText == old(zText) || zText == null || (memory && fresh(zText))
      ensures memory ==> mallocFailed == old(mallocFailed)
    {
      var zSpaces := "                             ";
      assert zSpaces == Spaces(29);
      var n := count;
      while n >= |zSpaces|
        invariant Valid() && 0 <= n <= count && wanted == old(wanted) + Spaces(count - n)
        invariant nAlloc >= old(nAlloc) && (!useMalloc ==> nAlloc == old(nAlloc))
        invariant zText == old(zText) || zText == null || (memory && fresh(zText))
        invariant memory ==> mallocFailed == old(mallocFailed)
      {
        Append(zSpaces, memory);
        n := n - |zSpaces|;
      }
      assert Spaces(count) == Spaces(count - n) + Spaces(n);
      if n > 0 {
        assert zSpaces[..n] == Spaces(n);
        Append(zSpaces[..n], memory);
      }
    }

    /** The output part of sqlite3VXPrintf() for one conversion. */
    method Put(p: Piece, memory: bool)
      requires Valid()
      modifies this, zBase, zText
      ensures Valid() && wanted == old(wanted) + Padded(p) && nAlloc >= old(nAlloc)
      ensures !useMalloc ==> nAlloc == old(nAlloc)
      ensures zText == old(zText) || zText == null || (memory && fresh(zText))
      ensures memory ==> mallocFailed == old(mallocFailed)
    {
      var nspace := p.width - |p.text|;
      if !p.leftjustify && nspace > 0 {
        AppendSpace(nspace, memory);
      }
      if |p.text| > 0 {
        Append(p.text, memory);
      }
      if p.leftjustify && nspace > 0 {
        AppendSpace(nspace, memory);
      }
    }

    /** sqlite3StrAccumFinish(). */
    method Finish(memory: bool) returns (z: array?<char>)
      requires Valid()
      modifies this, zText
      ensures wanted == old(wanted) && nChar == old(nChar)
      ensures z != null ==> nChar < z.Length && z[nChar] == NUL && nChar <= |wanted| && z[..nChar] == wanted[..nChar]
      ensures z == null <==> old(zText) == null || (useMalloc && old(zText) == zBase && !memory)
      ensures !useMalloc ==> z == zBase
      ensures useMalloc && z != null ==> z != zBase
    {
      if zText != null {
        zText[nChar] := NUL;
        assert zText[..nChar] == old(zText[..nChar]);
        if useMalloc && zText == zBase {
          if memory {
            var zNew := new char[nChar + 1];
            forall i | 0 <= i < nChar + 1 {
              zNew[i] := zText[i];
            }
            assert zNew[..nChar] == zText[..nChar];
            zText := zNew;
          } else {
            zText, mallocFailed := null, true;
          }
        }
      }
      z := zText;
    }
  }

  /** One conversion with its field width, or a literal part of the format with width 0. */
  datatype Piece = Piece(text: string, width: nat, leftjustify: bool)

  function Spaces(n: nat): string { seq(n, _ => ' ') }

  function Padded(p: Piece): string {
    var pad := if p.width > |p.text| then Spaces(p.width - |p.text|) else "";
    if p.leftjustify then p.text + pad else pad + p.text
  }

  /** A conversion fills its field with spaces on the side that its text is not justified to. */
  lemma PaddedFillsField(p: Piece)
    ensures |Padded(p)| == if p.width > |p.text| then p.width else |p.text|
    ensures if p.leftjustify then p.text <= Padded(p) else p.text == Padded(p)[|Padded(p)| - |p.text|..]
    ensures forall i :: (if p.leftjustify then |p.text| <= i < |Padded(p)| else 0 <= i < |Padded(p)| - |p.text|) ==>
              Padded(p)[i] == ' '
  {
  }

  /** The whole output, without any limit. */
  function Output(pieces: seq<Piece>): string {
    if pieces == [] then "" else Output(pieces[..|pieces| - 1]) + Padded(pieces[|pieces| - 1])
  }

  lemma OutputOne(p: Piece)
    ensures Output([p]) == Padded(p)
  {
    assert [p][..0] == [];
  }

  /** The pieces stand in order. */
  lemma {:induction false} OutputConcat(a: seq<Piece>, b: seq<Piece>)
    ensures Output(a + b) == Output(a) + Output(b)
  {
    if b == [] {
      assert a + b == a;
    } else {
      var front, last := b[..|b| - 1], b[|b| - 1];
      assert (a + b)[..|a + b| - 1] == a + front && (a + b)[|a + b| - 1] == last;
      OutputConcat(a, front);
      Regroup(Output(a), Output(front), Padded(last));
    }
  }

  /** The loop of sqlite3VXPrintf(). */
  method VXPrintf(acc: Accum, pieces: seq<Piece>, memory: bool)
    requires acc.Valid() && acc.wanted == ""
    modifies acc, acc.zBase, acc.zText
    ensures acc.Valid() && acc.wanted == Output(pieces)
    ensures !acc.useMalloc ==> acc.nAlloc == old(acc.nAlloc)
    ensures acc.zText == old(acc.zText) || acc.zText == null || (memory && fresh(acc.zText))
    ensures memory ==> acc.mallocFailed == old(acc.mallocFailed)
  {
    var i := 0;
    while i < |pieces|
      invariant i <= |pieces| && acc.Valid() && acc.wanted == Output(pieces[..i])
      invariant !acc.useMalloc ==> acc.nAlloc == old(acc.nAlloc)
      invariant acc.zText == old(acc.zText) || acc.zText == null || (memory && fresh(acc.zText))
      invariant memory ==> acc.mallocFailed == old(acc.mallocFailed)
    {
      assert pieces[..i + 1][..i] == pieces[..i];
      acc.Put(pieces[i], memory);
      i := i + 1;
    }
    assert pieces[..i] == pieces;
  }

  /**
   sqlite3_vsnprintf(): the longest prefix that fits, and always a terminating zero. zBuf stands for the n
   bytes that the caller hands over, so that nothing outside them can be written.
   */
  method Snprintf(n: int, zBuf: array<char>, pieces: seq<Piece>) returns (z: array?<char>)
    requires n > 0 ==> n == zBuf.Length
    modifies zBuf
    ensures z == zBuf
    ensures n <= 0 ==> zBuf[..] == old(zBuf[..])
    ensures n > 0 ==>
      var all := Output(pieces); var k := if |all| < n then |all| else n - 1;
      zBuf[..k] == all[..k] && zBuf[k] == NUL
  {
    if n <= 0 {
      return zBuf;
    }
    var acc := new Accum(zBuf, n, 0, false);
    VXPrintf(acc, pieces, true);
    z := acc.Finish(true);
  }

  const SQLITE_PRINT_BUF_SIZE := 70

  /** sqlite3_vmprintf(): all of the output, or nothing. */
  method Mprintf(pieces: seq<Piece>, mx: nat, memory: bool) returns (z: array?<char>)
    ensures z != null ==> var all := Output(pieces); |all| < z.Length && z[..|all|] == all && z[|all|] == NUL
    ensures z == null <==> !memory || (|Output(pieces)| >= mx && |Output(pieces)| >= SQLITE_PRINT_BUF_SIZE)
  {
    var zBase := new char[SQLITE_PRINT_BUF_SIZE];
    var acc := new Accum(zBase, SQLITE_PRINT_BUF_SIZE, mx, true);
    VXPrintf(acc, pieces, memory);
    z := acc.Finish(memory);
  }
}
