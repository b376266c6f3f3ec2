/** Pass 4 of `compact_heap`, and what the four passes achieve together. */
module CompactMove {
  import opened HeapWords
  import opened CompactSpec
  import opened CompactLayout
  import opened CompactThread
  import opened CompactPlace
  import opened CompactRevertHeap

  /** `memmove` of `n` words to a lower or equal address. */
  method MoveDown(mem: array<Word>, dst: int, src: int, n: nat)
    requires 0 <= dst <= src && src + n <= mem.Length
    modifies mem
    ensures forall x {:trigger mem[x]} :: dst <= x < dst + n ==> mem[x] == old(mem[..])[x - dst + src]
    ensures forall a :: 0 <= a < mem.Length && !(dst <= a < dst + n) ==> mem[a] == old(mem[a])
  {
    ghost var m := mem[..];
    for i := 0 to n
      invariant forall x {:trigger mem[x]} :: dst <= x < dst + i ==> mem[x] == m[x - dst + src]
      invariant forall a {:trigger mem[a]} :: 0 <= a < mem.Length && !(dst <= a < dst + i) ==> mem[a] == m[a]
    {
      mem[dst + i] := mem[src + i];
    }
  }

  /** Memory while pass 4 is at block `k`, from memory `m3`. */
  ghost predicate MovedTo(h: Heap, live: seq<bool>, k: int, m3: seq<Word>, m: seq<Word>) {
    && |m| == |m3| && 0 <= k <= |h.blocks| == |live|
    && (forall j {:trigger CopyOf(h, m3, m, j, NewAdr(h, live, j))} :: 0 <= j < k && live[j] ==>
        CopyOf(h, m3, m, j, NewAdr(h, live, j)))
    && (forall j {:trigger CopyOf(h, m3, m, j, h.blocks[j].pos)} :: k <= j < |h.blocks| ==>
        CopyOf(h, m3, m, j, h.blocks[j].pos))
    && (forall a :: 0 <= a < |m| && !InHeap(h.chunks, a) ==> m[a] == m3[a])
  }

  /** Memory `m` holds at `adr` the words that `m3` holds at block `j`. */
  ghost predicate CopyOf(h: Heap, m3: seq<Word>, m: seq<Word>, j: int, adr: int) {
    && 0 <= j < |h.blocks| && |m| == |m3|
    && 0 <= adr && adr + h.blocks[j].Whsize() <= |m|
    && 0 <= h.blocks[j].pos && h.blocks[j].End() <= |m|
    && forall x {:trigger m[x]} :: adr <= x < adr + h.blocks[j].Whsize() ==> m[x] == m3[x - adr + h.blocks[j].pos]
  }

  /** Writing elsewhere keeps a copy. */
  lemma CopyKept(h: Heap, m3: seq<Word>, m: seq<Word>, m': seq<Word>, j: int, adr: int, lo: int, hi: int)
    requires CopyOf(h, m3, m, j, adr) && |m'| == |m|
    requires forall a :: 0 <= a < |m| && !(lo <= a < hi) ==> m'[a] == m[a]
    requires hi <= adr || adr + h.blocks[j].Whsize() <= lo
    ensures CopyOf(h, m3, m', j, adr)
  {
  }

  lemma MoveStep(h: Heap, live: seq<bool>, k: nat, m3: seq<Word>, m: seq<Word>, m': seq<Word>)
    requires ChunksOk(h) && Tiled(h) && k < |h.blocks| == |live| && live[k] && MovedTo(h, live, k, m3, m)
    requires var adr, n := NewAdr(h, live, k), h.blocks[k].Whsize();
             && |m'| == |m|
             && (forall a :: 0 <= a < |m| && !(adr <= a < adr + n) ==> m'[a] == m[a])
             && CopyOf(h, m3, m', k, adr)
    ensures MovedTo(h, live, k + 1, m3, m')
  {
    var adr, n := NewAdr(h, live, k), h.blocks[k].Whsize();
    SlidesDown(h, live, k);
    hide ChunksOk, Tiled, NewAdr, NewChunk;
    forall a | adr <= a < adr + n ensures InHeap(h.chunks, a) {
      assert h.chunks[NewChunk(h, live, k)].start <= a < h.chunks[NewChunk(h, live, k)].End();
    }
    hide InHeap, CopyOf;
    forall j | 0 <= j < k + 1 && live[j] ensures CopyOf(h, m3, m', j, NewAdr(h, live, j)) {
      if j < k {
        Disjoint(h, live, j, k);
        assert CopyOf(h, m3, m, j, NewAdr(h, live, j));
        CopyKept(h, m3, m, m', j, NewAdr(h, live, j), adr, adr + n);
      }
    }
    forall j | k + 1 <= j < |h.blocks| ensures CopyOf(h, m3, m', j, h.blocks[j].pos) {
      NoOverwrite(h, live, k, j);
      assert CopyOf(h, m3, m, j, h.blocks[j].pos);
      CopyKept(h, m3, m, m', j, h.blocks[j].pos, adr, adr + n);
    }
  }

  /** The headers that pass 4 finds. */
  ghost predicate Decoded(h: Heap, live: seq<bool>, m3: seq<Word>) {
    && |live| == |h.blocks|
    && forall k {:trigger live[k]} :: 0 <= k < |h.blocks| ==>
         && 0 <= h.blocks[k].pos < |m3| && m3[h.blocks[k].pos].Hd?
         && m3[h.blocks[k].pos].size == h.blocks[k].size
         && m3[h.blocks[k].pos].color == if live[k] then White else Blue
  }

  lemma HeaderThere(h: Heap, live: seq<bool>, k: nat, m3: seq<Word>, m: seq<Word>)
    requires MovedTo(h, live, k, m3, m) && k < |h.blocks| && Decoded(h, live, m3)
    ensures |live| == |h.blocks| && 0 <= h.blocks[k].pos && h.blocks[k].End() <= |m|
    ensures m[h.blocks[k].pos].Hd? && m[h.blocks[k].pos].size == h.blocks[k].size
    ensures m[h.blocks[k].pos].color.White? <==> live[k]
    ensures CopyOf(h, m3, m, k, h.blocks[k].pos)
  {
    var p, alive := h.blocks[k].pos, live[k];
    assert CopyOf(h, m3, m, k, p);
    assert m[p] == m3[p - p + p];
  }

  lemma SkipStep(h: Heap, live: seq<bool>, k: nat, m3: seq<Word>, m: seq<Word>)
    requires MovedTo(h, live, k, m3, m) && k < |h.blocks| && !live[k]
    ensures MovedTo(h, live, k + 1, m3, m)
  {
    hide CopyOf, NewAdr;
  }

  lemma CopyMade(h: Heap, m3: seq<Word>, m: seq<Word>, m': seq<Word>, k: nat, adr: int)
    requires k < |h.blocks| && CopyOf(h, m3, m, k, h.blocks[k].pos) && |m'| == |m|
    requires 0 <= adr <= h.blocks[k].pos
    requires forall x {:trigger m'[x]} :: adr <= x < adr + h.blocks[k].Whsize() ==>
             m'[x] == m[x - adr + h.blocks[k].pos]
    ensures CopyOf(h, m3, m', k, adr)
  {
  }

  /** Pass 4 on the block at `p`; `next` is the address of the next header. */
  method MoveBlock(mem: array<Word>, alloc: Allocator, p: int, ghost h: Heap, ghost live: seq<bool>, ghost k: int,
                   ghost m3: seq<Word>)
    returns (next: int)
    requires ChunksOk(h) && Tiled(h) && Decoded(h, live, m3) && MovedTo(h, live, k, m3, mem[..])
    requires 0 <= k < |h.blocks| && h.blocks[k].pos == p
    requires alloc.Valid() && alloc.chunks == h.chunks && alloc.State() == Placed(h, live, k)
    modifies mem, alloc
    ensures MovedTo(h, live, k + 1, m3, mem[..]) && next == h.blocks[k].End()
    ensures alloc.Valid() && alloc.State() == Placed(h, live, k + 1)
  {
    hide ChunksOk, Tiled, Decoded, MovedTo;
    ghost var m := mem[..];
    HeaderThere(h, live, k, m3, m);
    var q := mem[p];
    next := p + 1 + q.size;
    if q.color.White? {
      SlidesDown(h, live, k);
      var adr := alloc.Allocate(q.size + 1);
      MoveDown(mem, adr, p, q.size + 1);
      CopyMade(h, m3, m, mem[..], k, adr);
      MoveStep(h, live, k, m3, m, mem[..]);
    } else {
      SkipStep(h, live, k, m3, m);
    }
  }

  /** Pass 4. */
  method MoveHeap(mem: array<Word>, chunks: seq<Chunk>, ghost h: Heap, ghost live: seq<bool>)
    requires Layout(h) && chunks == h.chunks && Decoded(h, live, mem[..]) && mem.Length == |h.g.o|
    modifies mem
    ensures MovedTo(h, live, |h.blocks|, old(mem[..]), mem[..])
  {
    ghost var m3 := mem[..];
    MoveStart(h, live, m3);
    assert |chunks| > 0 && At(h, 0, chunks[0].start, 0);
    hide Layout, Decoded, MovedTo, ChunksOk, Tiled;
    var alloc := new Allocator(chunks);
    ghost var k := 0;
    assert alloc.State() == Placed(h, live, 0);
    hide Placed;
    for j := 0 to |chunks|
      invariant if j < |chunks| then At(h, j, chunks[j].start, k) else k == |h.blocks|
      invariant MovedTo(h, live, k, m3, mem[..]) && |live| == |h.blocks|
      invariant alloc.Valid() && fresh(alloc) && alloc.chunks == chunks && 0 <= k <= |live| &&
                alloc.State() == Placed(h, live, k)
    {
      var p := chunks[j].start;
      while p < chunks[j].End()
        invariant At(h, j, p, k) && MovedTo(h, live, k, m3, mem[..])
        invariant alloc.Valid() && 0 <= k <= |live| && alloc.State() == Placed(h, live, k)
        decreases chunks[j].End() - p
      {
        WalkOn(h, j, p, k);
        p := MoveBlock(mem, alloc, p, h, live, k, m3);
        k := k + 1;
      }
      if j + 1 < |chunks| { WalkChunk(h, j, k); }
    }
  }

  lemma MoveStart(h: Heap, live: seq<bool>, m: seq<Word>)
    requires Layout(h) && |m| == |h.g.o| && |live| == |h.blocks|
    ensures MovedTo(h, live, 0, m, m)
  {
    forall j | 0 <= j < |h.blocks| ensures CopyOf(h, m, m, j, h.blocks[j].pos) {
      assert Tile(h, j);
    }
  }

  // ---- The four passes together ------------------------------------------------------------

  /** Some root, field, weak link or weak pointer leads to block `k` or to an infix header in it. */
  ghost predicate Referenced(h: Heap, k: int) {
    0 <= k < |h.blocks| && exists c :: Scanned(h, c) && HeapPtr(h, c) && Owner(h.g, Target(h.g, c)) == h.blocks[k].pos
  }

  /** The word that must replace word `a`: the same word, or a pointer to the same offset of the moved block. */
  ghost function RelocW(h: Heap, live: seq<bool>, a: int): Word
    requires 0 <= a < |h.g.o| && |live| == |h.blocks|
  {
    var j := IdxOf(h.g, Target(h.g, a));
    if HeapPtr(h, a) && Scanned(h, a) && 0 <= j < |live| then Moved(h.g, Target(h.g, a), NewAdr(h, live, j))
      else h.g.o[a]
  }

  /** Word `a` will be part of the compacted heap or lies outside the heap. */
  ghost predicate Kept(h: Heap, live: seq<bool>, a: int) {
    && 0 <= a < |h.g.o| && |live| == |h.blocks|
    && (a in h.g.hd ==> 0 <= h.g.hd[a].idx < |live| && live[h.g.hd[a].idx])
  }

  lemma LiveIsWhite(g: Graph, done: seq<int>, p: int)
    requires Cells(g, done) && p in g.hd && 0 <= p && Live(g, done, p)
    ensures g.hd[p].color.White?
  {
    if Last(g, done, p) >= 0 {
      assert Cell(g, done[Last(g, done, p)]);
    } else {
      CompactRevert.RecentAbove(g, done, p);
    }
  }

  lemma HeadAfterPass3(h: Heap, done: seq<int>, live: seq<bool>, a: int)
    requires Layout(h) && Cells(h.g, done) && Survivors(h, done, live) && Kept(h, live, a) && a !in done
    ensures HeadR(h, done, live, |h.blocks|, a) == h.g.o[a]
  {
    var l := Last(h.g, done, a);
    assert l >= 0 ==> Cell(h.g, done[l]);
    if a in h.g.hd {
      var k := h.g.hd[a].idx;
      assert h.blocks[k] == h.g.hd[a] && live[k] == Live(h.g, done, a);
      LiveIsWhite(h.g, done, a);
    }
    hide Last, Recent, Layout, Survivors;
    IdxOfBlock(h, 0, a);
  }

  lemma CellAfterPass3(h: Heap, done: seq<int>, live: seq<bool>, i: nat)
    requires Layout(h) && Cells(h.g, done) && i < |done| && |live| == |h.blocks| > 0
    ensures 0 <= done[i] < |h.g.o|
    ensures var j := IdxOf(h.g, Target(h.g, done[i]));
            0 <= j < |live| && CellR(h, done, live, |h.blocks|, i) ==
              Moved(h.g, Target(h.g, done[i]), NewAdr(h, live, j))
  {
    assert Cell(h.g, done[i]);
    IdxOfBlock(h, 0, Target(h.g, done[i]));
  }

  lemma AfterPass3(h: Heap, done: seq<int>, live: seq<bool>, m3: seq<Word>, a: int)
    requires Layout(h) && Cells(h.g, done) && Survivors(h, done, live) && AllInverted(h, done)
    requires Reverted(h, done, live, |h.blocks|, m3) && Kept(h, live, a) && |h.blocks| > 0
    ensures |m3| == |h.g.o| && m3[a] == RelocW(h, live, a)
  {
    hide Layout, Survivors, Last, Recent, Scanned, HeapPtr, HeadR, CellR;
    if a in done {
      var i :| 0 <= i < |done| && done[i] == a;
      CellAfterPass3(h, done, live, i);
      assert m3[done[i]] == CellR(h, done, live, |h.blocks|, i);
    } else {
      HeadAfterPass3(h, done, live, a);
      assert m3[a] == HeadR(h, done, live, |h.blocks|, a);
    }
  }

  lemma LiveIsReferenced(h: Heap, done: seq<int>, k: nat)
    requires Layout(h) && Cells(h.g, done) && AllInverted(h, done) && k < |h.blocks|
    ensures Live(h.g, done, h.blocks[k].pos) <==> Referenced(h, k)
  {
    hide Scanned, HeapPtr, InHeap;
    var g, p := h.g, h.blocks[k].pos;
    assert p in g.hd && 0 <= p;
    hide Layout;
    if Live(g, done, p) {
      LiveCell(g, done, p);
    }
    if Referenced(h, k) {
      var c :| Scanned(h, c) && HeapPtr(h, c) && Owner(g, Target(g, c)) == p;
      assert c in done;
      var i :| 0 <= i < |done| && done[i] == c;
      NotLive(g, done, p, i);
    }
  }

  lemma LiveCell(g: Graph, done: seq<int>, p: int)
    requires Cells(g, done) && p in g.hd && 0 <= p && Live(g, done, p)
    ensures exists c :: c in done && Owner(g, Target(g, c)) == p
  {
    if Last(g, done, p) >= 0 {
      assert done[Last(g, done, p)] in done;
    } else {
      CompactRevert.RecentAbove(g, done, p);
      var l := Last(g, done, Recent(g, done, p));
      assert done[l] in done;
    }
  }

  /** What compaction promises: the same graph at the new addresses. */
  ghost predicate Compacted(h: Heap, live: seq<bool>, m: seq<Word>) {
    && |m| == |h.g.o| && |live| == |h.blocks|
    && (forall k {:trigger live[k]} :: 0 <= k < |live| ==> (live[k] <==> Referenced(h, k)))
    && (forall k {:trigger live[k]} :: 0 <= k < |live| && live[k] ==> BlockCompacted(h, live, m, k))
    && (forall a {:trigger m[a]} :: 0 <= a < |m| && !InHeap(h.chunks, a) ==> m[a] == RelocW(h, live, a))
  }

  /** Block `k` is at its new address, header and fields in order. */
  ghost predicate BlockCompacted(h: Heap, live: seq<bool>, m: seq<Word>, k: int) {
    && 0 <= k < |h.blocks| == |live| && |m| == |h.g.o|
    && 0 <= NewAdr(h, live, k) && NewAdr(h, live, k) + h.blocks[k].Whsize() <= |m|
    && 0 <= h.blocks[k].pos && h.blocks[k].End() <= |m|
    && forall x {:trigger m[x]} :: NewAdr(h, live, k) <= x < NewAdr(h, live, k) + h.blocks[k].Whsize() ==>
         m[x] == RelocW(h, live, x - NewAdr(h, live, k) + h.blocks[k].pos)
  }

  lemma WordKept(h: Heap, live: seq<bool>, k: nat, a: int)
    requires Layout(h) && k < |h.blocks| == |live| && live[k] && h.blocks[k].pos <= a < h.blocks[k].End()
    ensures Kept(h, live, a)
  {
    if a != h.blocks[k].pos {
      FieldNotHeader(h, a, k);
    }
  }

  lemma CopyRead(h: Heap, m3: seq<Word>, m: seq<Word>, k: nat, adr: int)
    requires CopyOf(h, m3, m, k, adr)
    ensures |m| == |m3| && 0 <= adr && adr + h.blocks[k].Whsize() <= |m|
    ensures 0 <= h.blocks[k].pos && h.blocks[k].End() <= |m|
    ensures forall x {:trigger m[x]} :: adr <= x < adr + h.blocks[k].Whsize() ==> m[x] == m3[x - adr + h.blocks[k].pos]
  {
  }

  lemma CopyArrived(h: Heap, done: seq<int>, live: seq<bool>, m3: seq<Word>, m: seq<Word>, k: nat)
    requires Reverted(h, done, live, |h.blocks|, m3) && MovedTo(h, live, |h.blocks|, m3, m)
    requires k < |h.blocks| && |live| == |h.blocks| && live[k]
    ensures var adr, b := NewAdr(h, live, k), h.blocks[k];
            && |m| == |m3| == |h.g.o| && 0 <= adr && adr + b.Whsize() <= |m| && 0 <= b.pos && b.End() <= |m|
            && forall x {:trigger m[x]} :: adr <= x < adr + b.Whsize() ==> m[x] == m3[x - adr + b.pos]
  {
    hide CopyOf, NewAdr, CellR, HeadR;
    assert CopyOf(h, m3, m, k, NewAdr(h, live, k));
    CopyRead(h, m3, m, k, NewAdr(h, live, k));
  }

  lemma BlockArrives(h: Heap, done: seq<int>, live: seq<bool>, m3: seq<Word>, m: seq<Word>, k: nat)
    requires Layout(h) && Cells(h.g, done) && Survivors(h, done, live) && AllInverted(h, done)
    requires Reverted(h, done, live, |h.blocks|, m3) && MovedTo(h, live, |h.blocks|, m3, m)
    requires k < |h.blocks| == |live| && live[k]
    ensures BlockCompacted(h, live, m, k)
  {
    hide Layout, Kept, CopyOf, MovedTo, Survivors, AllInverted, Reverted, RelocW, Cells, NewAdr;
    CopyArrived(h, done, live, m3, m, k);
    var adr, b := NewAdr(h, live, k), h.blocks[k];
    forall x | adr <= x < adr + b.Whsize() ensures m[x] == RelocW(h, live, x - adr + b.pos) {
      WordKept(h, live, k, x - adr + b.pos);
      AfterPass3(h, done, live, m3, x - adr + b.pos);
    }
  }

  lemma OutsideUpdated(h: Heap, done: seq<int>, live: seq<bool>, m3: seq<Word>, m: seq<Word>, a: int)
    requires Layout(h) && Cells(h.g, done) && Survivors(h, done, live) && AllInverted(h, done)
    requires Reverted(h, done, live, |h.blocks|, m3) && MovedTo(h, live, |h.blocks|, m3, m)
    requires 0 <= a < |m| && !InHeap(h.chunks, a)
    ensures m[a] == RelocW(h, live, a)
  {
    assert |m3| == |h.g.o| && m[a] == m3[a];
    hide MovedTo, Survivors, AllInverted, Reverted, RelocW, Cells;
    if a in h.g.hd { HeaderInHeap(h, a); }
    AfterPass3(h, done, live, m3, a);
  }

  lemma PassesCompact(h: Heap, done: seq<int>, live: seq<bool>, m3: seq<Word>, m: seq<Word>)
    requires Layout(h) && Cells(h.g, done) && Survivors(h, done, live) && AllInverted(h, done)
    requires Reverted(h, done, live, |h.blocks|, m3) && MovedTo(h, live, |h.blocks|, m3, m)
    ensures Compacted(h, live, m)
  {
    assert |m| == |h.g.o|;
    hide Layout, Cells, AllInverted, Reverted, MovedTo, Referenced, Live, BlockCompacted, RelocW, InHeap;
    forall k | 0 <= k < |live| ensures live[k] <==> Referenced(h, k) {
      LiveIsReferenced(h, done, k);
    }
    forall k | 0 <= k < |live| && live[k] ensures BlockCompacted(h, live, m, k) {
      BlockArrives(h, done, live, m3, m, k);
    }
    forall a | 0 <= a < |m| && !InHeap(h.chunks, a) ensures m[a] == RelocW(h, live, a) {
      OutsideUpdated(h, done, live, m3, m, a);
    }
  }

  lemma HeadersDecoded(h: Heap, done: seq<int>, live: seq<bool>, m3: seq<Word>)
    requires Layout(h) && Cells(h.g, done) && Reverted(h, done, live, |h.blocks|, m3)
    ensures Decoded(h, live, m3)
  {
    forall k | 0 <= k < |h.blocks|
      ensures && 0 <= h.blocks[k].pos < |m3| && m3[h.blocks[k].pos].Hd?
              && m3[h.blocks[k].pos].size == h.blocks[k].size
              && m3[h.blocks[k].pos].color == if live[k] then White else Blue
    {
      var p := h.blocks[k].pos;
      IdxOfBlock(h, k, p);
      assert p in h.g.hd && h.g.o[p].Hd?;
      assert p !in done;
      assert m3[p] == HeadR(h, done, live, |h.blocks|, p);
    }
  }

  /**
   * `compact_heap`: encode headers, invert pointers, place the live blocks and revert, move. A block survives exactly
   * when something scanned refers to it; `live` tells which. `pastEnd` tells whether the search for room reads past the
   * last chunk.
   */
  method CompactHeap(mem: array<Word>, chunks: seq<Chunk>, roots: seq<int>, weakHead: int, ghost h: Heap)
    returns (ghost live: seq<bool>, pastEnd: bool)
    requires WellFormed(h) && mem[..] == h.g.o
    requires chunks == h.chunks && roots == h.roots && weakHead == h.weakHead
    modifies mem
    ensures Compacted(h, live, mem[..]) && (pastEnd <==> PastEnd(h, live, |h.blocks|))
  {
    ghost var done := ThreadHeap(mem, chunks, roots, weakHead, h);
    assert Layout(h) && Cells(h.g, done);
    live := seq(|h.blocks|, k requires 0 <= k < |h.blocks| => Live(h.g, done, h.blocks[k].pos));
    hide WellFormed, Layout, Cells, Threaded, Reverted, MovedTo, Decoded, AllInverted, Compacted, Live;
    pastEnd := RevertHeap(mem, chunks, h, done, live);
    ghost var m3 := mem[..];
    HeadersDecoded(h, done, live, m3);
    MoveHeap(mem, chunks, h, live);
    PassesCompact(h, done, live, m3, mem[..]);
  }
}
