/** Linked lists without repetition, as sequences. */
module Lists {

  predicate NoDuplicates<T(==)>(s: seq<T>) {
    forall i, j :: 0 <= i < j < |s| ==> s[i] != s[j]
  }

  /** The position of x in the list, or the end of the list. */
  function Position<T(==)>(s: seq<T>, x: T): (p: nat)
    ensures p <= |s|
    ensures forall i :: 0 <= i < p ==> s[i] != x
    ensures p < |s| ==> s[p] == x
  {
    if s == [] || s[0] == x then 0 else 1 + Position(s[1..], x)
  }

  lemma {:induction false} PositionAt<T>(s: seq<T>, x: T, p: nat)
    requires p <= |s| && (forall i :: 0 <= i < p ==> s[i] != x) && (p < |s| ==> s[p] == x)
    ensures Position(s, x) == p
  {
    if p > 0 {
      PositionAt(s[1..], x, p - 1);
    }
  }

  /** The list without x, if it is there. */
  function Without<T(==)>(s: seq<T>, x: T): seq<T> {
    var p := Position(s, x);
    if p < |s| then s[..p] + s[p + 1..] else s
  }

  lemma WithoutMembers<T>(s: seq<T>, x: T)
    requires NoDuplicates(s)
    ensures NoDuplicates(Without(s, x))
    ensures forall y :: y in Without(s, x) <==> y in s && y != x
    ensures |Without(s, x)| == if x in s then |s| - 1 else |s|
  {
    var p := Position(s, x);
    if p < |s| {
      assert s == s[..p] + [x] + s[p + 1..];
      assert x !in s[p + 1..];
      assert forall y :: y in Without(s, x) <==> y in s[..p] || y in s[p + 1..];
    }
  }
}
