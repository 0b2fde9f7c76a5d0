/**
 The loops of sqlite3ParseUri() that fill the buffer. It has room for the URI, two more zeros and one
 for every ampersand, which is enough for every URI.
 */
module UriBuffer {
  import opened CStrings
  import opened UriDecoding

  function Ampersands(z: string): nat {
    if z == "" then 0 else (if z[0] == '&' then 1 else 0) + Ampersands(z[1..])
  }

  /** What the rest of the URI can still add to the buffer. */
  function Room(z: string, iIn: nat): nat
    requires iIn <= |z|
  {
    |z| - iIn + Ampersands(z[iIn..])
  }

  lemma {:induction false} RoomLess(z: string, i: nat, j: nat)
    requires i <= j <= |z|
    ensures Room(z, j) <= Room(z, i)
    decreases j - i
  {
    if i < j {
      RoomLess(z, i + 1, j);
    }
  }

  method CountAmpersands(zUri: string) returns (n: nat)
    ensures n == Ampersands(zUri)
  {
    n := 0;
    var iIn := 0;
    while iIn < |zUri|
      invariant iIn <= |zUri| && n + Ampersands(zUri[iIn..]) == Ampersands(zUri)
    {
      assert zUri[iIn..][1..] == zUri[iIn + 1..];
      n := n + if zUri[iIn] == '&' then 1 else 0;
      iIn := iIn + 1;
    }
  }

  /** The inner loop after %00. */
  method SkipPartLoop(zUri: string, start: nat, p: Part) returns (iIn: nat)
    requires start <= |zUri| && CString(zUri)
    ensures start <= iIn <= |zUri| && zUri[iIn..] == SkipPart(zUri[start..], p)
  {
    iIn := start;
    while At(zUri, iIn) != NUL && At(zUri, iIn) != '#' && !EndsPart(p, At(zUri, iIn))
      invariant start <= iIn <= |zUri| && SkipPart(zUri[iIn..], p) == SkipPart(zUri[start..], p)
      decreases |zUri| - iIn
    {
      assert zUri[iIn..][1..] == zUri[iIn + 1..];
      iIn := iIn + 1;
    }
  }

  /** The inner loop after an empty name; the character before `start` ended that name. */
  method SkipOptionLoop(zUri: string, start: nat) returns (iIn: nat)
    requires 0 < start <= |zUri| && CString(zUri)
    ensures start <= iIn <= |zUri|
    ensures zUri[iIn..] == if zUri[start - 1] == '&' then zUri[start..] else SkipOption(zUri[start..])
  {
    iIn := start;
    while At(zUri, iIn) != NUL && At(zUri, iIn) != '#' && zUri[iIn - 1] != '&'
      invariant start <= iIn <= |zUri|
      invariant (if zUri[iIn - 1] == '&' then zUri[iIn..] else SkipOption(zUri[iIn..]))
             == (if zUri[start - 1] == '&' then zUri[start..] else SkipOption(zUri[start..]))
      decreases |zUri| - iIn
    {
      assert zUri[iIn..][1..] == zUri[iIn + 1..];
      iIn := iIn + 1;
    }
  }

  /** What one turn of the main loop writes, and where it goes on. */
  datatype Turn = Turn(iIn: nat, eState: Part, c: string)

  /** One turn of the main loop, without the write to the buffer. */
  method Advance(zUri: string, at: nat, p: Part, ghost done: string, emptyName: bool) returns (t: Turn)
    requires CString(zUri) && at < |zUri| && zUri[at] != '#' && (p == Name ==> done != "")
    requires p == Name ==> (emptyName <==> done[|done| - 1] == NUL)
    ensures at < t.iIn <= |zUri|
    ensures t.eState == Name ==> done + t.c != ""
    ensures |t.c| + Room(zUri, t.iIn) <= Room(zUri, at)
    ensures Decode(zUri[t.iIn..], t.eState, done + t.c) == Decode(zUri[at..], p, done)
  {
    var c, iIn := zUri[at], at + 1;
    RoomLess(zUri, iIn, |zUri|);
    ghost var z := zUri[at..];
    assert z[0] == c && z[1..] == zUri[iIn..];
    assert done + "" == done;
    if c == '%' && IsXDigit(At(zUri, iIn)) && IsXDigit(At(zUri, iIn + 1)) {
      assert IsEscape(z) && z[3..] == zUri[at + 3..];
      var octet := Octet(zUri[iIn], zUri[iIn + 1]);
      RoomLess(zUri, iIn, at + 3);
      if octet == NUL {
        iIn := SkipPartLoop(zUri, at + 3, p);
        RoomLess(zUri, at + 3, iIn);
        t := Turn(iIn, p, "");
      } else {
        t := Turn(at + 3, p, [octet]);
      }
    } else {
      assert !IsEscape(z);
      t := AdvancePlain(zUri, at, p, done, emptyName);
    }
  }

  method AdvancePlain(zUri: string, at: nat, p: Part, ghost done: string, emptyName: bool) returns (t: Turn)
    requires CString(zUri) && at < |zUri| && zUri[at] != '#' && (p == Name ==> done != "")
    requires p == Name ==> (emptyName <==> done[|done| - 1] == NUL)
    requires !IsEscape(zUri[at..])
    ensures at < t.iIn <= |zUri|
    ensures t.eState == Name ==> done + t.c != ""
    ensures |t.c| + Room(zUri, t.iIn) <= Room(zUri, at)
    ensures Decode(zUri[t.iIn..], t.eState, done + t.c) == Decode(zUri[at..], p, done)
  {
    var c, iIn := zUri[at], at + 1;
    assert zUri[at..][1..] == zUri[iIn..];
    assert done + "" == done;
    if p == Name && (c == '&' || c == '=') {
      if emptyName {
        iIn := SkipOptionLoop(zUri, iIn);
        RoomLess(zUri, at + 1, iIn);
        t := Turn(iIn, p, "");
      } else if c == '&' {
        t := Turn(iIn, p, [NUL, NUL]);
      } else {
        t := Turn(iIn, Value, [NUL]);
      }
    } else if (p == Path && c == '?') || (p == Value && c == '&') {
      t := Turn(iIn, Name, [NUL]);
    } else {
      t := Turn(iIn, p, [c]);
    }
  }

  /** The main loop: the buffer is never too small, and holds what Decode says. */
  method DecodeInto(zFile: array<char>, zUri: string, start: nat) returns (iOut: nat)
    requires CString(zUri) && 5 <= start <= |zUri|
    requires zFile.Length == |zUri| + 2 + Ampersands(zUri)
    modifies zFile
    ensures iOut <= zFile.Length && zFile[..iOut] == Decode(zUri[start..], Path, "")
  {
    var iIn, eState := start, Path;
    iOut := 0;
    RoomLess(zUri, 0, start);
    RoomFrom(zUri, start);
    assert zUri[0..] == zUri;
    while At(zUri, iIn) != NUL && At(zUri, iIn) != '#'
      invariant start <= iIn <= |zUri| && iOut + Room(zUri, iIn) + 3 <= zFile.Length
      invariant eState == Name ==> zFile[..iOut] != ""
      invariant Decode(zUri[iIn..], eState, zFile[..iOut]) == Decode(zUri[start..], Path, "")
      decreases |zUri| - iIn
    {
      ghost var done := zFile[..iOut];
      var t := Advance(zUri, iIn, eState, done, iOut > 0 && zFile[iOut - 1] == NUL);
      RoomLess(zUri, t.iIn, |zUri|);
      iOut := Write(zFile, iOut, t.c);
      iIn, eState := t.iIn, t.eState;
    }
    if eState == Name {
      iOut := Write(zFile, iOut, [NUL]);
    }
    iOut := Write(zFile, iOut, [NUL, NUL]);
  }

  lemma RoomFrom(z: string, start: nat)
    requires start <= |z|
    ensures Room(z, start) + start <= Room(z, 0)
    decreases start
  {
    if start > 0 {
      RoomFrom(z, start - 1);
    }
  }

  method Write(zFile: array<char>, iOut: nat, c: string) returns (n: nat)
    requires iOut + |c| <= zFile.Length
    modifies zFile
    ensures n == iOut + |c| && zFile[..n] == old(zFile[..iOut]) + c
  {
    forall i | 0 <= i < |c| {
      zFile[iOut + i] := c[i];
    }
    n := iOut + |c|;
  }
}
