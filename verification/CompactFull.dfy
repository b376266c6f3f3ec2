/** A heap whose compaction reads past the last chunk. */
module CompactFull {
  import opened HeapWords
  import opened CompactSpec
  import opened CompactLayout
  import opened CompactPlace
  import opened CompactMove

  /** One chunk of `n` words, two live blocks that fill it, of which the second has one field. */
  function Blocks(n: nat): seq<Block>
    requires n >= 5
  {
    [Block(1, n - 3, 0, White, 0, 0), Block(n - 1, 1, 0, White, 0, 1)]
  }

  /** The words: the null weak list, the chunk, and two roots, one for each block. */
  function FullWord(n: nat, a: int): Word {
    if a == 0 then Ptr(0)
    else if a == 1 then Hd(NatOf(n - 3), 0, White)
    else if a == n - 1 then Hd(1, 0, White)
    else if a == n + 1 then Ptr(2)
    else if a == n + 2 then Ptr(n)
    else Imm(0)
  }

  function NatOf(x: int): nat { if x < 0 then 0 else x }

  function Full(n: nat): Heap
    requires n >= 5
  {
    var b := Blocks(n);
    var g := Graph(seq(n + 3, a requires 0 <= a < n + 3 => FullWord(n, a)), map[1 := b[0], n - 1 := b[1]]);
    Heap(g, [Chunk(1, n)], b, [n + 1, n + 2], 0, [])
  }

  lemma FullInHeap(n: nat, a: int)
    requires n >= 5
    ensures InHeap(Full(n).chunks, a) <==> 1 <= a <= n
  {
    var chunks := Full(n).chunks;
    assert chunks[0] == Chunk(1, n);
  }

  lemma FullLayout(n: nat)
    requires n >= 5
    ensures Layout(Full(n))
  {
    var h := Full(n);
    assert h.chunks[0] == Chunk(1, n) && h.blocks == Blocks(n);
    assert Tile(h, 0) && Tile(h, 1);
  }

  lemma FullWellFormed(n: nat)
    requires n >= 5
    ensures WellFormed(Full(n))
  {
    var h := Full(n);
    FullLayout(n);
    FullInHeap(n, 0);
    FullInHeap(n, n + 1);
    FullInHeap(n, n + 2);
    assert forall i {:trigger h.roots[i]} :: 0 <= i < 2 ==> h.roots[i] == n + 1 + i;
    assert LinkCell(h, 0) == 0 && h.g.o[0] == Ptr(0);
    forall c | HeapPtr(h, c)
      ensures Cell(h.g, c)
    {
      FullInHeap(n, h.g.o[c].adr);
      assert h.g.o[c] == FullWord(n, c);
    }
  }

  lemma FullLive(n: nat, live: seq<bool>)
    requires n >= 5 && |live| == 2 && forall k {:trigger live[k]} :: 0 <= k < 2 ==>
             (live[k] <==> Referenced(Full(n), k))
    ensures live[0] && live[1]
  {
    var h := Full(n);
    FullInHeap(n, 2);
    FullInHeap(n, n);
    assert h.roots[0] == n + 1 && h.roots[1] == n + 2;
    assert Scanned(h, n + 1) && HeapPtr(h, n + 1) && Owner(h.g, Target(h.g, n + 1)) == h.blocks[0].pos;
    assert Scanned(h, n + 2) && HeapPtr(h, n + 2) && Owner(h.g, Target(h.g, n + 2)) == h.blocks[1].pos;
  }

  lemma FullPast(n: nat, live: seq<bool>)
    requires n >= 5 && |live| == 2 && live[0] && live[1]
    ensures PastEnd(Full(n), live, 2)
  {
    var h := Full(n);
    var a := Placed(h, live, 0);
    assert a == Alloc([0], 0);
    assert Room(h.chunks, a.used, 0) == n;
    assert Placed(h, live, 1) == PlaceOne(h, a, true, h.blocks[0]);
    assert Placed(h, live, 1) == Alloc([n - 2], 0);
    assert Room(h.chunks, [n - 2], 0) == 2;
  }

  /** With a chunk of any size, compacting that heap reads past the last chunk when the second block is placed. */
  method ReachPastEnd(n: nat) returns (pastEnd: bool)
    requires n >= 5
    ensures pastEnd
  {
    hide WellFormed, Compacted, PastEnd;
    var mem := new Word[n + 3](a => FullWord(n, a));
    ghost var h := Full(n);
    FullWellFormed(n);
    assert mem[..] == h.g.o;
    ghost var live;
    live, pastEnd := CompactHeap(mem, [Chunk(1, n)], [n + 1, n + 2], 0, h);
    Survive(h, live, mem[..]);
    FullLive(n, live);
    FullPast(n, live);
  }

  lemma Survive(h: Heap, live: seq<bool>, m: seq<Word>)
    requires Compacted(h, live, m)
    ensures |live| == |h.blocks| && forall k {:trigger live[k]} :: 0 <= k < |live| ==> (live[k] <==> Referenced(h, k))
  {
  }
}
