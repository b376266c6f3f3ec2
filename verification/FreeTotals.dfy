/** The words of the whole heap. */
module FreeTotals {
  import opened FreeSpec
  import opened FreeList
  import opened FreeExact

  /** The words of all chunks. */
  function HeapSize(cs: seq<Chunk>): int { if cs == [] then 0 else cs[0].hi - cs[0].lo + HeapSize(cs[1..]) }

  /** The words of the blocks of a kind, over all chunks. */
  function Total(h: Heap, cs: seq<Chunk>, kind: Kind): nat {
    if cs == [] then 0 else Words(h, cs[0].lo, cs[0].hi, kind) + Total(h, cs[1..], kind)
  }

  lemma {:induction false} KindsFill(h: Heap, cs: seq<Chunk>, part: seq<Chunk>)
    requires Tiled(h, cs) && Separate(h, cs) && Housed(h, cs) && forall c {:trigger c in part} :: c in part ==> c in cs
    ensures Total(h, part, Live) + Total(h, part, Free) + Total(h, part, Fragment) == HeapSize(part)
    decreases |part|
  {
    hide Words, Separate;
    if part != [] {
      var c := part[0];
      assert c in part && c in cs;
      Conservation(h, cs, c, c.lo);
      assert forall d {:trigger d in part[1..]} :: d in part[1..] ==> d in part;
      KindsFill(h, cs, part[1..]);
    }
  }

  // ---- Free words and the list -----------------------------------------------------------------------------------

  /** The words of the blocks of the list that start from `lo` to `hi`. */
  function SumIn(h: Heap, list: seq<int>, lo: int, hi: int): nat {
    if list == [] then 0
    else (if lo <= list[0] < hi && list[0] in h then 1 + h[list[0]].size else 0) + SumIn(h, list[1..], lo, hi)
  }

  lemma {:induction false} SumInNone(h: Heap, list: seq<int>, lo: int, hi: int)
    requires forall i {:trigger list[i]} :: 0 <= i < |list| ==> !(lo <= list[i] < hi)
    ensures SumIn(h, list, lo, hi) == 0
    decreases |list|
  {
    if list != [] {
      assert list[0] == list[0];
      assert forall i {:trigger list[1..][i]} :: 0 <= i < |list| - 1 ==> list[1..][i] == list[i + 1];
      SumInNone(h, list[1..], lo, hi);
    }
  }

  lemma {:induction false} SumInSplit(h: Heap, list: seq<int>, lo: int, mid: int, hi: int)
    requires lo <= mid <= hi
    ensures SumIn(h, list, lo, hi) == SumIn(h, list, lo, mid) + SumIn(h, list, mid, hi)
    decreases |list|
  {
    if list != [] { SumInSplit(h, list[1..], lo, mid, hi); }
  }

  /** Of the nodes of the list, only `a` lies in block `a`. */
  lemma {:induction false} SumInBlock(h: Heap, list: seq<int>, a: int, e: int)
    requires a in h && a < e && Sorted(list)
    requires forall i {:trigger list[i]} :: 0 <= i < |list| ==> list[i] == a || !(a <= list[i] < e)
    ensures SumIn(h, list, a, e) == if Has(list, a) then 1 + h[a].size else 0
    decreases |list|
  {
    if list != [] {
      var rest := list[1..];
      assert forall i {:trigger rest[i]} :: 0 <= i < |rest| ==> rest[i] == list[i + 1];
      assert forall i {:trigger rest[i]} :: 0 <= i < |rest| ==> list[0] < rest[i];
      if list[0] == a {
        SumInNone(h, rest, a, e);
      } else {
        SumInBlock(h, rest, a, e);
        assert Has(list, a) <==> Has(rest, a) by {
          if Has(list, a) {
            var i :| 0 <= i < |list| && list[i] == a;
            assert rest[i - 1] == a;
          }
          if Has(rest, a) {
            var i :| 0 <= i < |rest| && rest[i] == a;
            assert list[i + 1] == a;
          }
        }
      }
    }
  }

  lemma OnlyItself(h: Heap, cs: seq<Chunk>, list: seq<int>, a: int)
    requires Tiled(h, cs) && Listed(h, list) && a in h
    ensures forall i {:trigger list[i]} :: 0 <= i < |list| ==> list[i] == a || !(a <= list[i] < End(h, a))
    ensures Has(list, a) <==> KindOf(h[a]) == Free
  {
    forall i | 0 <= i < |list|
      ensures list[i] == a || !(a <= list[i] < End(h, a))
    {
      assert list[i] in h && End(h, list[i]) >= list[i] && End(h, a) >= a;
    }
    if Has(list, a) {
      var i :| 0 <= i < |list| && list[i] == a;
    }
    if h[a].color.Blue? {
      assert Has(list, a);
      var i :| 0 <= i < |list| && list[i] == a;
    }
  }

  /** In a chunk, the free words are those of the blocks of the list. */
  lemma {:induction false} ChunkFree(h: Heap, cs: seq<Chunk>, list: seq<int>, c: Chunk, a: int)
    requires Tiled(h, cs) && Separate(h, cs) && Housed(h, cs) && Listed(h, list)
    requires c in cs && c.lo <= a <= c.hi && (a in h || a == c.hi)
    ensures Words(h, a, c.hi, Free) == SumIn(h, list, a, c.hi)
    decreases c.hi - a
  {
    hide Tiled, Separate, Housed, SumIn;
    if a < c.hi {
      var e := End(h, a);
      NextInChunk(h, cs, c, a);
      ChunkFree(h, cs, list, c, e);
      OnlyItself(h, cs, list, a);
      SumInBlock(h, list, a, e);
      SumInSplit(h, list, a, e, c.hi);
    } else {
      SumInNone(h, list, a, a);
    }
  }

  /** The same over some chunks. */
  function SumParts(h: Heap, list: seq<int>, cs: seq<Chunk>): nat {
    if cs == [] then 0 else SumIn(h, list, cs[0].lo, cs[0].hi) + SumParts(h, list, cs[1..])
  }

  lemma {:induction false} TotalFree(h: Heap, cs: seq<Chunk>, list: seq<int>, part: seq<Chunk>)
    requires Tiled(h, cs) && Separate(h, cs) && Housed(h, cs) && Listed(h, list)
    requires forall c {:trigger c in part} :: c in part ==> c in cs
    ensures Total(h, part, Free) == SumParts(h, list, part)
    decreases |part|
  {
    hide Words, Separate, SumIn, Listed;
    if part != [] {
      var c := part[0];
      assert c in part && c in cs;
      ChunkFree(h, cs, list, c, c.lo);
      assert forall d {:trigger d in part[1..]} :: d in part[1..] ==> d in part;
      TotalFree(h, cs, list, part[1..]);
    }
  }

  /** Block `a` counted once for each chunk that it is in. */
  function Point(h: Heap, a: int, cs: seq<Chunk>): nat {
    if cs == [] then 0
    else (if cs[0].lo <= a < cs[0].hi && a in h then 1 + h[a].size else 0) + Point(h, a, cs[1..])
  }

  lemma {:induction false} PointNone(h: Heap, a: int, cs: seq<Chunk>)
    requires forall j {:trigger cs[j]} :: 0 <= j < |cs| ==> !(cs[j].lo <= a < cs[j].hi)
    ensures Point(h, a, cs) == 0
    decreases |cs|
  {
    if cs != [] {
      assert forall j {:trigger cs[1..][j]} :: 0 <= j < |cs| - 1 ==> cs[1..][j] == cs[j + 1];
      PointNone(h, a, cs[1..]);
    }
  }

  lemma {:induction false} PointOnce(h: Heap, a: int, cs: seq<Chunk>, k: nat)
    requires a in h && k < |cs| && cs[k].lo <= a < cs[k].hi
    requires forall j {:trigger cs[j]} :: 0 <= j < |cs| && j != k ==> !(cs[j].lo <= a < cs[j].hi)
    ensures Point(h, a, cs) == 1 + h[a].size
    decreases |cs|
  {
    assert forall j {:trigger cs[1..][j]} :: 0 <= j < |cs| - 1 ==> cs[1..][j] == cs[j + 1];
    if k == 0 {
      PointNone(h, a, cs[1..]);
    } else {
      PointOnce(h, a, cs[1..], k - 1);
    }
  }

  lemma {:induction false} PartsStep(h: Heap, list: seq<int>, cs: seq<Chunk>)
    requires list != []
    ensures SumParts(h, list, cs) == Point(h, list[0], cs) + SumParts(h, list[1..], cs)
    decreases |cs|
  {
    if cs != [] { PartsStep(h, list, cs[1..]); }
  }

  lemma InOneChunk(h: Heap, cs: seq<Chunk>, a: int)
    requires Housed(h, cs) && Distinct(cs) && a in h
    ensures Point(h, a, cs) == 1 + h[a].size
  {
    assert InChunk(cs, a);
    var c :| c in cs && c.lo <= a < c.hi;
    var k :| 0 <= k < |cs| && cs[k] == c;
    forall j | 0 <= j < |cs| && j != k
      ensures !(cs[j].lo <= a < cs[j].hi)
    {
      assert cs[j] in cs && cs[j] != c;
    }
    PointOnce(h, a, cs, k);
  }

  lemma {:induction false} PartsAll(h: Heap, cs: seq<Chunk>, list: seq<int>)
    requires Housed(h, cs) && Distinct(cs) && forall i {:trigger list[i]} :: 0 <= i < |list| ==> list[i] in h
    ensures SumParts(h, list, cs) == Sum(h, list)
    decreases |list|
  {
    hide Housed, Distinct, Point;
    if list == [] {
      NoParts(h, cs);
    } else {
      assert list[0] in h;
      assert forall i {:trigger list[1..][i]} :: 0 <= i < |list| - 1 ==> list[1..][i] == list[i + 1];
      PartsStep(h, list, cs);
      InOneChunk(h, cs, list[0]);
      PartsAll(h, cs, list[1..]);
    }
  }

  lemma {:induction false} NoParts(h: Heap, cs: seq<Chunk>)
    ensures SumParts(h, [], cs) == 0
    decreases |cs|
  {
    if cs != [] { NoParts(h, cs[1..]); }
  }

  /**
   * In every state of the allocator, sweeping or not: `fl_cur_size` is the number of free words of the heap, and live,
   * free and fragment words add up to the heap size.
   */
  lemma WordsConserved(m: Allocator)
    requires m.Valid()
    ensures Total(m.heap, m.chunks, Free) == m.flCurSize
    ensures Total(m.heap, m.chunks, Live) + m.flCurSize + Total(m.heap, m.chunks, Fragment) == HeapSize(m.chunks)
  {
    hide Tiled, Separate, Housed, Distinct, Spread, SweepOk, Sum, Total;
    KindsFill(m.heap, m.chunks, m.chunks);
    TotalFree(m.heap, m.chunks, m.list, m.chunks);
    PartsAll(m.heap, m.chunks, m.list);
  }
}
