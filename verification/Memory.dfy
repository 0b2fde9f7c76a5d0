/**
 The accounting of malloc.c: sqlite3_malloc(), sqlite3_realloc() and sqlite3_free() with memory
 statistics on, over an allocator that rounds sizes up and may fail.
 */
module Memory {
  import opened Options

  type Ptr = p: int | p > 0 witness 1

  type Byte = b: int | 0 <= b < 256

  /** The live allocations with their content. */
  type Heap = map<Ptr, seq<Byte>>

  const LIMIT := 0x7fff_ff00

  ghost function Sum(heap: Heap, ps: set<Ptr>): nat
    requires ps <= heap.Keys
  {
    if ps == {} then 0
    else
      var p :| p in ps;
      |heap[p]| + Sum(heap, ps - {p})
  }

  lemma {:induction false} SumSame(a: Heap, b: Heap, ps: set<Ptr>)
    requires ps <= a.Keys && ps <= b.Keys && forall p :: p in ps ==> |a[p]| == |b[p]|
    ensures Sum(a, ps) == Sum(b, ps)
  {
    if ps != {} {
      var p :| p in ps && Sum(a, ps) == |a[p]| + Sum(a, ps - {p}) && Sum(b, ps) == |b[p]| + Sum(b, ps - {p});
      SumSame(a, b, ps - {p});
    }
  }

  lemma {:induction false} SumWithout(heap: Heap, ps: set<Ptr>, p: Ptr)
    requires ps <= heap.Keys && p in ps
    ensures Sum(heap, ps) == |heap[p]| + Sum(heap, ps - {p})
  {
    var q :| q in ps && Sum(heap, ps) == |heap[q]| + Sum(heap, ps - {q});
    if p != q {
      SumWithout(heap, ps - {q}, p);
      SumWithout(heap, ps - {p}, q);
      assert ps - {p} - {q} == ps - {q} - {p};
    }
  }

  /** The memory in use: the sizes of all live allocations. */
  ghost function InUse(heap: Heap): nat {
    Sum(heap, heap.Keys)
  }

  lemma InUseAdd(heap: Heap, p: Ptr, data: seq<Byte>)
    requires p !in heap
    ensures InUse(heap[p := data]) == InUse(heap) + |data|
  {
    var more := heap[p := data];
    SumWithout(more, more.Keys, p);
    assert more.Keys - {p} == heap.Keys;
    SumSame(more, heap, heap.Keys);
  }

  lemma InUseRemove(heap: Heap, p: Ptr)
    requires p in heap
    ensures InUse(heap - {p}) + |heap[p]| == InUse(heap)
  {
    SumWithout(heap, heap.Keys, p);
    assert (heap - {p}).Keys == heap.Keys - {p};
    SumSame(heap - {p}, heap, heap.Keys - {p});
  }

  // ----- the counters -----

  /** The counters are of type int: 32 bits, wrapping around. */
  function Wrap(n: int): (r: int)
    ensures -0x8000_0000 <= r < 0x8000_0000
  {
    (n + 0x8000_0000) % 0x1_0000_0000 - 0x8000_0000
  }

  lemma WrapAdd(a: int, b: int)
    ensures Wrap(Wrap(a) + b) == Wrap(a + b)
  {
  }

  /** The counter is the memory in use exactly below 2 GiB. */
  lemma CounterRightIff(heap: Heap)
    ensures Wrap(InUse(heap)) == InUse(heap) <==> InUse(heap) < 0x8000_0000
  {
  }

  function Max(s: seq<int>): int
    requires s != []
  {
    if |s| == 1 then s[0]
    else
      var m := Max(s[..|s| - 1]);
      if s[|s| - 1] > m then s[|s| - 1] else m
  }

  lemma {:induction false} MaxIsLargest(s: seq<int>)
    requires s != []
    ensures Max(s) in s && forall x :: x in s ==> x <= Max(s)
  {
    if |s| > 1 {
      MaxIsLargest(s[..|s| - 1]);
      assert s == s[..|s| - 1] + [s[|s| - 1]];
    }
  }

  /** The built-in allocator rounds up to a multiple of eight. */
  function Roundup(n: nat): (r: nat)
    ensures n <= r < n + 8 && r % 8 == 0
  {
    (n + 7) / 8 * 8
  }

  /** The old content as far as both sizes reach, and after it whatever the memory holds. */
  function Copied(data: seq<Byte>, n: nat, fill: Byte): (r: seq<Byte>)
    ensures |r| == n
    ensures forall i :: 0 <= i < n && i < |data| ==> r[i] == data[i]
  {
    if n <= |data| then data[..n] else data + seq(n - |data|, _ => fill)
  }

  // ----- the operations, as values -----

  datatype State = State(heap: Heap, nowValue: int, mxValue: int)

  /** `got` is the allocator's answer, and `fill` what new memory holds. */
  datatype Op =
    | Malloc(n: int, got: Option<Ptr>, fill: Byte)
    | Free(p: Option<Ptr>)
    | Realloc(pOld: Option<Ptr>, n: int, got: Option<Ptr>, fill: Byte)
    | Highwater(resetFlag: bool)

  /** Only live memory is passed in, and the allocator hands out memory that is not in use. */
  predicate Enabled(heap: Heap, op: Op) {
    match op
    case Malloc(_, got, _) => got.Some? ==> got.value !in heap
    case Free(p) => p.Some? ==> p.value in heap
    case Realloc(pOld, _, got, _) =>
      (pOld.Some? ==> pOld.value in heap) && (got.Some? ==> got == pOld || got.value !in heap)
    case Highwater(_) => true
  }

  function MallocHeap(heap: Heap, n: int, got: Option<Ptr>, fill: Byte): Heap {
    if 0 < n < LIMIT && got.Some? then heap[got.value := Copied([], Roundup(n), fill)] else heap
  }

  function FreeHeap(heap: Heap, p: Option<Ptr>): Heap {
    if p.Some? then heap - {p.value} else heap
  }

  /** The allocations that are live after an operation. */
  function NextHeap(heap: Heap, op: Op): Heap
    requires Enabled(heap, op)
  {
    match op
    case Malloc(n, got, fill) => MallocHeap(heap, n, got, fill)
    case Free(p) => FreeHeap(heap, p)
    case Realloc(None, n, got, fill) => MallocHeap(heap, n, got, fill)
    case Realloc(Some(p), n, got, fill) =>
      if n <= 0 then FreeHeap(heap, Some(p))
      else if n >= LIMIT || got == None || |heap[p]| == Roundup(n) then heap
      else (heap - {p})[got.value := Copied(heap[p], Roundup(n), fill)]
    case Highwater(_) => heap
  }

  /** The counter follows the memory in use, and the mark is pushed up by it and only a reset lowers it. */
  ghost function Next(s: State, op: Op): State
    requires Enabled(s.heap, op)
  {
    var heap := NextHeap(s.heap, op);
    var now := Wrap(InUse(heap));
    State(heap, now, if op == Highwater(true) || now > s.mxValue then now else s.mxValue)
  }

  // ----- the high-water mark, over any sequence of operations -----

  ghost predicate IsRun(heap: Heap, run: seq<Op>)
    decreases |run|
  {
    run == [] || (Enabled(heap, run[0]) && IsRun(NextHeap(heap, run[0]), run[1..]))
  }

  ghost function After(s: State, run: seq<Op>): State
    requires IsRun(s.heap, run)
    decreases |run|
  {
    if run == [] then s else After(Next(s, run[0]), run[1..])
  }

  /** The amounts of memory in use since the mark was reset last; `used` are those before the run. */
  ghost function SinceReset(heap: Heap, run: seq<Op>, used: seq<int>): (r: seq<int>)
    requires IsRun(heap, run) && used != []
    ensures r != []
    decreases |run|
  {
    if run == [] then used
    else
      var next := NextHeap(heap, run[0]);
      SinceReset(next, run[1..], if run[0] == Highwater(true) then [InUse(next)] else used + [InUse(next)])
  }

  function WrapAll(used: seq<int>): (r: seq<int>)
    ensures |r| == |used| && forall i :: 0 <= i < |used| ==> r[i] == Wrap(used[i])
  {
    seq(|used|, i requires 0 <= i < |used| => Wrap(used[i]))
  }

  lemma WrapSnoc(used: seq<int>, n: int)
    ensures WrapAll(used + [n]) == WrapAll(used) + [Wrap(n)]
  {
  }

  /** The mark is the largest value the counter has had since the last reset. */
  lemma {:induction false} MarkIsLargest(s: State, run: seq<Op>, used: seq<int>)
    requires IsRun(s.heap, run) && used != [] && s.mxValue == Max(WrapAll(used))
    ensures After(s, run).mxValue == Max(WrapAll(SinceReset(s.heap, run, used)))
    decreases |run|
  {
    if run != [] {
      var next := InUse(NextHeap(s.heap, run[0]));
      WrapSnoc(used, next);
      assert WrapAll([next]) == [Wrap(next)];
      MarkIsLargest(Next(s, run[0]), run[1..], if run[0] == Highwater(true) then [next] else used + [next]);
    }
  }

  /**
   From the start of the library and over any sequence of allocations, frees, resizes and resets, the mark
   is the most memory in use since the last reset exactly if that was less than 2 GiB.
   */
  lemma HighwaterRightIff(run: seq<Op>)
    requires IsRun(map[], run)
    ensures var peak := Max(SinceReset(map[], run, [0]));
            After(State(map[], 0, 0), run).mxValue == peak <==> peak < 0x8000_0000
  {
    var used := SinceReset(map[], run, [0]);
    assert WrapAll([0]) == [0];
    MarkIsLargest(State(map[], 0, 0), run, [0]);
    AmountsAreNat(map[], run, [0]);
    MaxIsLargest(used);
    MaxIsLargest(WrapAll(used));
    if Max(used) < 0x8000_0000 {
      forall i | 0 <= i < |used|
        ensures WrapAll(used)[i] == used[i]
      {
        assert used[i] in used;
      }
      assert WrapAll(used) == used;
    }
  }

  lemma {:induction false} AmountsAreNat(heap: Heap, run: seq<Op>, used: seq<int>)
    requires IsRun(heap, run) && used != [] && forall x :: x in used ==> x >= 0
    ensures forall x :: x in SinceReset(heap, run, used) ==> x >= 0
    decreases |run|
  {
    if run != [] {
      var next := NextHeap(heap, run[0]);
      AmountsAreNat(next, run[1..], if run[0] == Highwater(true) then [InUse(next)] else used + [InUse(next)]);
    }
  }

  // ----- the object -----

  class Mem0 {
    var nowValue: int
    var mxValue: int
    var heap: Heap

    function Value(): State
      reads this
    {
      State(heap, nowValue, mxValue)
    }

    ghost predicate Valid()
      reads this
    {
      nowValue == Wrap(InUse(heap)) && nowValue <= mxValue
    }

    constructor ()
      ensures Valid() && Value() == State(map[], 0, 0)
    {
      nowValue, mxValue, heap := 0, 0, map[];
    }

    /** sqlite3StatusAdd(). */
    method StatusAdd(n: int)
      modifies this`nowValue, this`mxValue
      ensures nowValue == Wrap(old(nowValue) + n)
      ensures mxValue == if nowValue > old(mxValue) then nowValue else old(mxValue)
    {
      nowValue := Wrap(nowValue + n);
      if nowValue > mxValue {
        mxValue := nowValue;
      }
    }

    /** sqlite3Malloc(). */
    method Malloc(n: int, got: Option<Ptr>, fill: Byte) returns (p: Option<Ptr>)
      requires Valid() && Enabled(heap, Op.Malloc(n, got, fill))
      modifies this
      ensures Valid() && Value() == Next(old(Value()), Op.Malloc(n, got, fill))
      ensures p == if 0 < n < 0x7fff_ff00 then got else None
      ensures p == None ==> heap == old(heap)
      ensures p.Some? ==> p.value in heap && heap - {p.value} == old(heap) && |heap[p.value]| == Roundup(n)
    {
      if n <= 0 || n >= LIMIT {
        p := None;
      } else {
        p := got;
        if p.Some? {
          var data := Copied([], Roundup(n), fill);
          InUseAdd(heap, p.value, data);
          WrapAdd(InUse(heap), |data|);
          heap := heap[p.value := data];
          StatusAdd(|data|);
        }
      }
    }

    /** sqlite3_free(). */
    method Free(p: Option<Ptr>)
      requires Valid() && Enabled(heap, Op.Free(p))
      modifies this
      ensures Valid() && Value() == Next(old(Value()), Op.Free(p))
      ensures heap == if p.Some? then old(heap) - {p.value} else old(heap)
    {
      if p.Some? {
        InUseRemove(heap, p.value);
        WrapAdd(InUse(heap), -|heap[p.value]|);
        StatusAdd(-|heap[p.value]|);
        heap := heap - {p.value};
      }
    }

    /** sqlite3Realloc(). The allocator may give the same address or a new one. */
    method Realloc(pOld: Option<Ptr>, nBytes: int, got: Option<Ptr>, fill: Byte) returns (pNew: Option<Ptr>)
      requires Valid() && Enabled(heap, Op.Realloc(pOld, nBytes, got, fill))
      modifies this
      ensures Valid() && Value() == Next(old(Value()), Op.Realloc(pOld, nBytes, got, fill))
      ensures pOld == None ==> pNew == if 0 < nBytes < 0x7fff_ff00 then got else None
      ensures pOld.Some? && nBytes <= 0 ==> pNew == None && heap == old(heap) - {pOld.value}
      ensures nBytes > 0 && pNew == None ==> heap == old(heap)
      ensures pOld.Some? && nBytes > 0 ==>
        (pNew.Some? <==> nBytes < 0x7fff_ff00 && (got.Some? || |old(heap)[pOld.value]| == Roundup(nBytes)))
      ensures pNew.Some? ==> pNew.value in heap && |heap[pNew.value]| == Roundup(nBytes)
      ensures pOld == None && pNew.Some? ==> heap - {pNew.value} == old(heap)
      ensures pOld.Some? && pNew.Some? ==>
        && heap - {pNew.value} == old(heap) - {pOld.value}
        && forall i :: 0 <= i < |heap[pNew.value]| && i < |old(heap)[pOld.value]| ==>
             heap[pNew.value][i] == old(heap)[pOld.value][i]
    {
      if pOld == None {
        pNew := Malloc(nBytes, got, fill);
        return;
      }
      if nBytes <= 0 {
        Free(pOld);
        return None;
      }
      if nBytes >= LIMIT {
        return None;
      }
      var nOld := |heap[pOld.value]|;
      var nNew := Roundup(nBytes);
      if nOld == nNew {
        return pOld;
      }
      pNew := got;
      if pNew.Some? {
        Move(pOld.value, pNew.value, Copied(heap[pOld.value], nNew, fill));
      }
    }

    /** A successful xRealloc() and its accounting. */
    method Move(pOld: Ptr, pNew: Ptr, data: seq<Byte>)
      requires Valid() && pOld in heap && (pNew == pOld || pNew !in heap)
      modifies this
      ensures Valid() && heap == (old(heap) - {pOld})[pNew := data]
      ensures mxValue == if nowValue > old(mxValue) then nowValue else old(mxValue)
    {
      InUseRemove(heap, pOld);
      InUseAdd(heap - {pOld}, pNew, data);
      WrapAdd(InUse(heap), |data| - |heap[pOld]|);
      StatusAdd(|data| - |heap[pOld]|);
      heap := (heap - {pOld})[pNew := data];
    }

    /** sqlite3_memory_used(). */
    method MemoryUsed() returns (n: int)
      requires Valid()
      ensures n == InUse(heap) <==> InUse(heap) < 0x8000_0000
      ensures n == Wrap(InUse(heap))
    {
      CounterRightIff(heap);
      n := nowValue;
    }

    /** sqlite3_memory_highwater(). */
    method MemoryHighwater(resetFlag: bool) returns (n: int)
      requires Valid()
      modifies this`mxValue
      ensures Valid() && n == old(mxValue) && Value() == Next(old(Value()), Highwater(resetFlag))
    {
      n := mxValue;
      if resetFlag {
        mxValue := nowValue;
      }
    }
  }
}
