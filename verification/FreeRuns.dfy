/** Runs of the allocator and the sweeper together. */
module FreeRuns {
  import opened FreeSpec
  import opened FreeList
  import FreeAdd
  import FreeMerge

  // ---- A chunk added behind the sweep -------------------------------------------------------------------------------

  lemma StaleLast(h: Heap, cs: seq<Chunk>, list: seq<int>, merge: int, x: int, b: int)
    requires Tiled(h, cs) && Listed(h, list) && LastBelow(list, merge, x) && At(list, |list|) < b < x && b > 0
    ensures merge == At(list, |list|) && Pos(list + [b], merge) == |list|
  {
    var k :| Cut(list, k, x) && merge == At(list, k);
    if |list| > 0 { assert list[0] in h && list[|list| - 1] < x; }
    assert k == |list|;
    var l := list + [b];
    forall i, j {:trigger l[i], l[j]} | 0 <= i < j < |l|
      ensures l[i] < l[j]
    {
      if j == |list| && i < |list| - 1 { assert list[i] < list[|list| - 1]; }
    }
    PosAt(l, |list|);
    assert At(l, |list|) == merge;
  }

  /** What a new chunk is apart from: the fragment before the sweep, and the last free block. */
  lemma StaleApart(h: Heap, cs: seq<Chunk>, list: seq<int>, x: int, frag: int, b: int, size: nat)
    requires FreeAdd.Apart(h, cs, b, size) && Listed(h, list) && At(list, |list|) < b < x && FragmentAt(h, x, frag)
    ensures b < RunFrom(frag, x) && !Joins(h, list, |list|, RunFrom(frag, x)) && b !in list
  {
    if |list| > 0 { assert list[|list| - 1] in h; }
    if frag + 1 == x { assert frag in h; }
    assert b !in h;
  }

  /** After `fl_add_block` has appended a chunk behind the sweep, the next white block makes the list disordered. */
  method AddThenMerge(a: Allocator, b: int, size: nat)
    requires a.Valid() && a.sweeping && a.flLast == At(a.list, |a.list|) && FreeAdd.Apart(a.heap, a.chunks, b, size)
    requires a.flLast < b < a.sweepHp && a.sweepHp in a.heap && a.heap[a.sweepHp].color.White? &&
             a.heap[a.sweepHp].size > 0
    modifies a
    ensures !Sorted(a.list)
  {
    hide Tiled, Separate, Housed, Distinct, Spread, Listed, Sum, OnList, FreeAdd.Apart, Pos, At, Joined, Sorted;
    hide Boundary, LastBelow, Coalesced, Whitened, Clear;
    ghost var h, l, x, f := a.heap, a.list, a.sweepHp, a.lastFragment;
    ghost var bp := RunFrom(f, x);
    ApartPositive(h, a.chunks, b, size);
    StaleLast(h, a.chunks, l, a.flMerge, x, b);
    StaleApart(h, a.chunks, l, x, f, b, size);
    a.AddBlock(b, size);
    a.MergeRaw();
    assert (l + [b])[..|l|] == l && (l + [b])[|l|..] == [b];
    NoJoin(h, l, b, size, bp);
    NotSorted(l, bp, b, a.list);
  }

  lemma ApartPositive(h: Heap, cs: seq<Chunk>, b: int, size: nat)
    requires FreeAdd.Apart(h, cs, b, size)
    ensures b > 0 && b !in h
  {
  }

  lemma NoJoin(h: Heap, list: seq<int>, b: int, size: nat, bp: int)
    requires !Joins(h, list, |list|, bp) && b !in list
    ensures !Joins(h[b := Blk(size, Blue)], list + [b], |list|, bp)
  {
    if |list| > 0 { assert (list + [b])[|list| - 1] == list[|list| - 1]; }
  }

  lemma NotSorted(l: seq<int>, bp: int, b: int, list: seq<int>)
    requires list == l + [bp] + [b] && b < bp
    ensures !Sorted(list)
  {
    assert list[|l|] == bp && list[|l| + 1] == b;
  }

  // ---- A run that gets there ---------------------------------------------------------------------------------------

  /** Where a second chunk of `n` words starts, well after a first one at word 1. */
  function Second(n: nat): int { 4 * n + 20 }

  /** Two chunks, each one block. */
  function Pair(n: nat, c1: Color, c2: Color): Heap { map[1 := Blk(n, c1), Second(n) := Blk(n, c2)] }

  /** The list when only the first block, or none, is free. */
  lemma PairList(n: nat, c: Color, list: seq<int>)
    requires Listed(Pair(n, c, White), list)
    ensures list == if c.Blue? then [1] else []
  {
    var h := Pair(n, c, White);
    assert forall i {:trigger list[i]} :: 0 <= i < |list| ==> list[i] in h && h[list[i]].color.Blue?;
    assert forall i {:trigger list[i]} :: 0 <= i < |list| ==> list[i] == 1 && c.Blue?;
    AllSame(list, 1);
    assert |list| > 0 ==> list[0] == 1 && c.Blue?;
    if c.Blue? {
      assert h[1].color.Blue? && Has(list, 1);
    }
  }

  lemma AllSame(list: seq<int>, v: int)
    requires forall i {:trigger list[i]} :: 0 <= i < |list| ==> list[i] == v
    ensures |list| > 1 ==> !Sorted(list)
  {
    if |list| > 1 { assert list[0] == v && list[1] == v; }
  }

  lemma SecondApart(n: nat)
    requires n > 0
    ensures FreeAdd.Apart(map[1 := Blk(n, White)], [Chunk(1, n + 2)], Second(n), n)
    ensures FreeAdd.Apart(Pair(n, Blue, White), [Chunk(1, n + 2), Chunk(Second(n), Second(n) + 1 + n)], 2 * n + 10, n)
  {
  }

  /** Two chunks of which all words have been allocated. */
  method FillTwo(n: nat) returns (a: Allocator)
    requires n > 0
    ensures fresh(a) && a.Valid() && !a.sweeping && a.heap == Pair(n, White, White)
    ensures a.chunks == [Chunk(1, n + 2), Chunk(Second(n), Second(n) + 1 + n)]
  {
    hide Tiled, Separate, Housed, Distinct, Spread, Listed, Sum, OnList, SweepOk, FreeAdd.Apart, At;
    a := new Allocator(1, n);
    ghost var c;
    var r;
    r, c := a.Allocate(n);
    assert a.heap == map[1 := Blk(n, White)];
    r, c := a.Allocate(1);
    SecondApart(n);
    a.AddBlock(Second(n), n);
    assert a.heap == Pair(n, White, Blue);
    r, c := a.Allocate(n);
    assert a.heap == Pair(n, White, White);
  }

  /** The first step of a sweep of those chunks frees the first one, and the next goes to the second. */
  method SweepFirst(a: Allocator, n: nat)
    requires n > 0 && a.Valid() && !a.sweeping && a.heap == Pair(n, White, White)
    requires a.chunks == [Chunk(1, n + 2), Chunk(Second(n), Second(n) + 1 + n)]
    modifies a
    ensures a.Valid() && a.sweeping && a.heap == Pair(n, Blue, White) && a.sweepHp == Second(n) &&
            a.chunks == old(a.chunks)
  {
    hide Tiled, Separate, Housed, Distinct, Spread, Listed, Sum, OnList, SweepOk, FreeMerge.Start, FreeMerge.Stop,
         Merged;
    hide FreeMerge.RunColor;
    a.StartSweep();
    assert 1 in a.heap;
    FirstAt(n, a.chunks, a.list, a.flMerge, a.sweepHp, a.lastFragment, White);
    ghost var l, m, f := a.list, a.flMerge, a.lastFragment;
    PairList(n, White, l);
    a.SweepStep();
    FirstMerge(n, l, m, f, a.heap, a.sweepHp);
    assert Second(n) in a.heap && n + 2 !in a.heap;
    a.SweepStep();
    FirstAt(n, a.chunks, a.list, a.flMerge, a.sweepHp, a.lastFragment, Blue);
  }

  /** Between the two blocks, a sweep can only be at one of them. */
  lemma FirstAt(n: nat, cs: seq<Chunk>, list: seq<int>, merge: int, x: int, frag: int, c: Color)
    requires cs == [Chunk(1, n + 2), Chunk(Second(n), Second(n) + 1 + n)]
    requires SweepOk(Pair(n, c, White), cs, list, merge, x, frag)
    requires if c.White? then x <= 1 else n + 3 <= x <= Second(n)
    ensures x == (if c.White? then 1 else Second(n)) && (c.White? ==> frag + 1 != x)
  {
    assert Boundary(Pair(n, c, White), cs, x) && FragmentAt(Pair(n, c, White), x, frag);
  }

  lemma FirstMerge(n: nat, list: seq<int>, merge: int, frag: int, h': Heap, x': int)
    requires n > 0 && list == [] && frag + 1 != 1 && Merged(Pair(n, White, White), list, merge, 1, frag, h', x')
    ensures h' == Pair(n, Blue, White) && x' == n + 2
  {
  }

  /**
   * A run from the start that ends in a disordered list, with chunks of any size: two chunks are filled, the sweep
   * frees the first and gets to the second, an allocation fails, and the chunk that it adds lies between them.
   */
  method ReachDisorder(n: nat) returns (a: Allocator)
    requires n > 0
    ensures fresh(a) && !Sorted(a.list)
  {
    hide Tiled, Separate, Housed, Distinct, Spread, Listed, Sum, OnList, SweepOk, FreeAdd.Apart, Sorted;
    a := FillTwo(n);
    SweepFirst(a, n);
    PairList(n, Blue, a.list);
    var r;
    ghost var c;
    r, c := a.Allocate(n + 1);
    SecondApart(n);
    AddThenMerge(a, 2 * n + 10, n);
  }
}
