/** Pass 3 over the whole heap. */
module CompactRevertHeap {
  import opened HeapWords
  import opened CompactSpec
  import opened CompactInvert
  import opened CompactLayout
  import opened CompactPlace
  import opened CompactRevert

  /** Some pointer led to block `p` or to one of its infix headers. */
  predicate Live(g: Graph, done: seq<int>, p: int) {
    Last(g, done, p) >= 0 || Recent(g, done, p) > p
  }

  /** Which blocks survive. */
  ghost predicate Survivors(h: Heap, done: seq<int>, live: seq<bool>) {
    |live| == |h.blocks| && forall k {:trigger live[k]} :: 0 <= k < |live| ==>
      live[k] == Live(h.g, done, h.blocks[k].pos)
  }

  lemma NotLive(g: Graph, done: seq<int>, p: int, i: nat)
    requires Cells(g, done) && 0 <= p && i < |done| && Owner(g, Target(g, done[i])) == p && p in g.hd
    ensures Live(g, done, p)
  {
    assert Cell(g, done[i]);
    if Target(g, done[i]) == p {
      LastIsLast(g, done, p, i);
    } else {
      RecentExists(g, done, p, i);
      RecentAbove(g, done, p);
    }
  }

  /** Number of the block that header `t` belongs to, or -1. */
  function IdxOf(g: Graph, t: int): int {
    if Owner(g, t) in g.hd then g.hd[Owner(g, t)].idx else -1
  }

  /** The header that pass 3 gives back to block `p`: white if it survives, blue if it is free. */
  function DecodedHd(g: Graph, p: int, live: bool): Word
    requires p in g.hd
  {
    Hd(g.hd[p].size, if g.hd[p].color.Blue? then STRING_TAG else g.hd[p].tag, if live then White else Blue)
  }

  /** A pointer to header `t` of a block that has moved to `adr`. */
  function Moved(g: Graph, t: int, adr: int): Word {
    Ptr(adr + (t - Owner(g, t)) + 1)
  }

  /** Contents of a word that is not an inverted cell, once the first `k` blocks are reverted. */
  ghost function HeadR(h: Heap, done: seq<int>, live: seq<bool>, k: int, a: int): Word
    requires 0 <= a < |h.g.o| && |live| == |h.blocks|
  {
    if 0 <= IdxOf(h.g, a) < k && IdxOf(h.g, a) < |live| then
      if a in h.g.hd then DecodedHd(h.g, a, live[IdxOf(h.g, a)]) else h.g.o[a]
    else HeadW(h.g, done, a)
  }

  ghost function CellR(h: Heap, done: seq<int>, live: seq<bool>, k: int, i: nat): Word
    requires i < |done| && |live| == |h.blocks|
  {
    var t := Target(h.g, done[i]);
    var j := IdxOf(h.g, t);
    if 0 <= j < k && j < |live| then Moved(h.g, t, NewAdr(h, live, j)) else CellW(h.g, done, i)
  }

  ghost predicate Reverted(h: Heap, done: seq<int>, live: seq<bool>, k: int, m: seq<Word>) {
    && |live| == |h.blocks|
    && |m| == |h.g.o|
    && (forall a {:trigger HeadR(h, done, live, k, a)} :: 0 <= a < |m| && a !in done ==>
        m[a] == HeadR(h, done, live, k, a))
    && (forall i {:trigger CellR(h, done, live, k, i)} :: 0 <= i < |done| ==>
          0 <= done[i] < |m| && m[done[i]] == CellR(h, done, live, k, i))
  }

  /** A word after block `p` is reverted, the block moving to `adr`. */
  function BlockW(g: Graph, done: seq<int>, p: int, adr: int, hd: Word, w: Word, a: int): Word {
    if a == p then hd
    else if a in done && Owner(g, Target(g, a)) == p then Moved(g, Target(g, a), adr)
    else if InfixOf(g, p, a) && Last(g, done, a) >= 0 then g.o[a]
    else w
  }

  ghost predicate BlockReverted(g: Graph, done: seq<int>, p: int, adr: int, hd: Word, m: seq<Word>, m': seq<Word>) {
    |m'| == |m| && forall a :: 0 <= a < |m| ==> m'[a] == BlockW(g, done, p, adr, hd, m[a], a)
  }

  lemma IdxOfBlock(h: Heap, k: nat, t: int)
    requires Layout(h) && k < |h.blocks|
    ensures IdxOf(h.g, t) == k <==> Owner(h.g, t) == h.blocks[k].pos
    ensures IdxOf(h.g, t) < |h.blocks|
    ensures IdxOf(h.g, t) >= 0 <==> Owner(h.g, t) in h.g.hd
  {
    if Owner(h.g, t) in h.g.hd {
      assert h.blocks[h.g.hd[Owner(h.g, t)].idx] == h.g.hd[Owner(h.g, t)];
    }
  }

  lemma HeadStep3(h: Heap, done: seq<int>, live: seq<bool>, k: nat, m: seq<Word>, a: int)
    requires Layout(h) && Reverted(h, done, live, k, m) && k < |h.blocks|
    requires 0 <= a < |m| && a !in done
    ensures var p := h.blocks[k].pos;
            p in h.g.hd &&
            HeadR(h, done, live, k + 1, a) == BlockW(h.g, done, p, NewAdr(h, live, k), DecodedHd(h.g, p, live[k]), m[a],
                                                     a)
  {
    hide Last, Recent, EndW;
    IdxOfBlock(h, k, a);
    assert m[a] == HeadR(h, done, live, k, a);
    hide Layout;
  }

  lemma CellStep3(h: Heap, done: seq<int>, live: seq<bool>, k: nat, m: seq<Word>, i: nat)
    requires Layout(h) && Cells(h.g, done) && Reverted(h, done, live, k, m) && k < |h.blocks| && i < |done|
    ensures var p := h.blocks[k].pos;
            p in h.g.hd && 0 <= done[i] < |m| &&
            CellR(h, done, live, k + 1, i) == BlockW(h.g, done, p, NewAdr(h, live, k), DecodedHd(h.g, p, live[k]),
                                                     m[done[i]], done[i])
  {
    hide Last, Recent, EndW, CellW;
    IdxOfBlock(h, k, Target(h.g, done[i]));
    assert m[done[i]] == CellR(h, done, live, k, i);
    assert Cell(h.g, done[i]);
    assert h.g.o[h.blocks[k].pos].Hd?;
    assert !InfixOf(h.g, h.blocks[k].pos, done[i]);
    hide Layout;
  }

  lemma RevertedStep(h: Heap, done: seq<int>, live: seq<bool>, k: nat, m: seq<Word>, m': seq<Word>)
    requires Layout(h) && Cells(h.g, done) && Reverted(h, done, live, k, m) && k < |h.blocks|
    requires var p := h.blocks[k].pos;
             p in h.g.hd && BlockReverted(h.g, done, p, NewAdr(h, live, k), DecodedHd(h.g, p, live[k]), m, m')
    ensures Reverted(h, done, live, k + 1, m')
  {
    hide Layout, HeadR, CellR, BlockW, DecodedHd;
    forall a | 0 <= a < |m'| && a !in done ensures m'[a] == HeadR(h, done, live, k + 1, a) {
      HeadStep3(h, done, live, k, m, a);
    }
    forall i | 0 <= i < |done| ensures m'[done[i]] == CellR(h, done, live, k + 1, i) {
      CellStep3(h, done, live, k, m, i);
    }
  }

  /** The lists of a block not yet reverted are intact. */
  lemma StillListed(h: Heap, done: seq<int>, live: seq<bool>, k: nat, m: seq<Word>)
    requires Layout(h) && Cells(h.g, done) && Reverted(h, done, live, k, m) && k < |h.blocks|
    ensures ListsOf(h.g, done, h.blocks[k].pos, m)
  {
    hide Last, Recent, EndW, CellW, HeadW;
    var p := h.blocks[k].pos;
    forall a | 0 <= a < |m| && a !in done && Owner(h.g, a) == p ensures m[a] == HeadW(h.g, done, a) {
      IdxOfBlock(h, k, a);
      assert m[a] == HeadR(h, done, live, k, a);
    }
    forall i | 0 <= i < |done| && Owner(h.g, Target(h.g, done[i])) == p ensures m[done[i]] == CellW(h.g, done, i) {
      IdxOfBlock(h, k, Target(h.g, done[i]));
      assert m[done[i]] == CellR(h, done, live, k, i);
    }
  }

  /** After the list of `p` itself is reverted, its infix lists are still intact. */
  lemma InfixLeft(g: Graph, done: seq<int>, p: int, v: int, m: seq<Word>, m': seq<Word>)
    requires Headers(g) && Cells(g, done) && p in g.hd && ListsOf(g, done, p, m) && |m'| == |m|
    requires forall a :: 0 <= a < |m| && a != p ==> m'[a] == if a in done && Target(g, a) == p then Ptr(v) else m[a]
    ensures InfixIntact(g, done, p, m')
  {
    hide Last, Recent, HeadW, CellW;
    assert g.o[p].Hd?;
    forall a | InfixOf(g, p, a) ensures m'[a] == HeadW(g, done, a) {
      assert a !in done;
      assert m[a] == HeadW(g, done, a);
    }
    forall i | 0 <= i < |done| && InfixOf(g, p, Target(g, done[i])) ensures m'[done[i]] == CellW(g, done, i) {
      assert Cell(g, done[i]) && m[done[i]] == CellW(g, done, i);
    }
  }

  lemma BothReverted(g: Graph, done: seq<int>, p: int, adr: int, hd: Word, m: seq<Word>, m1: seq<Word>, m2: seq<Word>)
    requires Headers(g) && Cells(g, done) && p in g.hd && 0 <= p < |m| == |m1| == |g.o| && m1[p] == hd
    requires forall a :: 0 <= a < |m| && a != p ==> m1[a] == if a in done && Target(g, a) == p then Ptr(adr + 1)
             else m[a]
    requires InfixReverted(g, done, p, adr, -1, m1, m2) || (m2 == m1 && Recent(g, done, p) <= p)
    ensures BlockReverted(g, done, p, adr, hd, m, m2)
  {
    hide Last, Recent, FirstIdx;
    assert g.o[p].Hd?;
    forall a | 0 <= a < |m| ensures m2[a] == BlockW(g, done, p, adr, hd, m[a], a) {
      if a in done {
        var i :| 0 <= i < |done| && done[i] == a;
        assert Cell(g, done[i]);
        LastIsLast(g, done, Target(g, a), i);
      }
      if m2 == m1 && Recent(g, done, p) <= p {
        NoInfix(g, done, p, a);
      }
    }
  }

  lemma NoInfix(g: Graph, done: seq<int>, p: int, a: int)
    requires Cells(g, done) && 0 <= p && Recent(g, done, p) <= p
    ensures InfixOf(g, p, a) ==> Last(g, done, a) < 0
    ensures a in done ==> !InfixOf(g, p, Target(g, a))
  {
    if InfixOf(g, p, a) && Last(g, done, a) >= 0 {
      RecentExists(g, done, p, Last(g, done, a));
      RecentAbove(g, done, p);
    }
    if a in done && InfixOf(g, p, Target(g, a)) {
      var i :| 0 <= i < |done| && done[i] == a;
      RecentExists(g, done, p, i);
      RecentAbove(g, done, p);
    }
  }

  /** Reverts the lists of the live block at `p`, which moves to `adr`, and gives back its header. */
  method RevertLists(mem: array<Word>, p: int, adr: int, q: Word, infixes: int, ghost g: Graph, ghost done: seq<int>)
    requires Headers(g) && Cells(g, done) && p in g.hd && 0 <= p < mem.Length == |g.o| && ListsOf(g, done, p, mem[..])
    requires q == Encoded(g, p)
    requires infixes == if Recent(g, done, p) > p then Recent(g, done, p) else -1
    modifies mem
    ensures BlockReverted(g, done, p, adr, Hd(q.size, q.tag, White), old(mem[..]), mem[..])
  {
    ghost var m := mem[..];
    assert p !in done by { assert g.o[p].Hd?; }
    assert mem[..][p] == HeadW(g, done, p);
    assert forall i {:trigger CellW(g, done, i)} :: 0 <= i < |done| && Target(g, done[i]) == p ==>
           m[done[i]] == CellW(g, done, i);
    if mem[p].Ptr? {
      var e := RevertList(mem, p, adr + 1, g, done);
    } else {
      NoDirect(g, done, p);
    }
    hide Last, CellW, HeadW, Recent;
    mem[p] := Hd(q.size, q.tag, White);
    ghost var m1 := mem[..];
    if infixes >= 0 {
      InfixLeft(g, done, p, adr + 1, m, m1);
      RevertInfix(mem, p, adr, infixes, g, done);
    }
    BothReverted(g, done, p, adr, Hd(q.size, q.tag, White), m, m1, mem[..]);
  }

  lemma NoDirect(g: Graph, done: seq<int>, p: int)
    requires Last(g, done, p) < 0
    ensures forall a :: a in done ==> Target(g, a) != p
  {
    forall a | a in done ensures Target(g, a) != p {
      var i :| 0 <= i < |done| && done[i] == a;
      if Target(g, a) == p { LastIsLast(g, done, p, i); }
    }
  }

  /** The header word shows whether the block is live. */
  lemma HeadTells(g: Graph, done: seq<int>, p: int)
    requires Headers(g) && p in g.hd && 0 <= p < |g.o|
    ensures var w := HeadW(g, done, p);
            && (w.Ptr? || w.Ehd?)
            && (w.Ptr? || w.tag == INFIX_TAG <==> Live(g, done, p))
            && (!Live(g, done, p) ==> w == Encoded(g, p))
  {
    hide Last, Recent;
  }

  lemma FreeReverted(g: Graph, done: seq<int>, p: int, adr: int, hd: Word, m: seq<Word>)
    requires Headers(g) && Cells(g, done) && p in g.hd && 0 <= p < |m| == |g.o| && !Live(g, done, p)
    ensures BlockReverted(g, done, p, adr, hd, m, m[p := hd])
  {
    hide Last, Recent;
    forall a | 0 <= a < |m| ensures m[p := hd][a] == BlockW(g, done, p, adr, hd, m[a], a) {
      NoInfix(g, done, p, a);
      if a in done && Owner(g, Target(g, a)) == p {
        var i :| 0 <= i < |done| && done[i] == a;
        NotLive(g, done, p, i);
      }
    }
  }

  /** Pass 3 on the block at `p`; `next` is the address of the next header. */
  method RevertBlock(mem: array<Word>, alloc: Allocator, p: int, ghost h: Heap, ghost done: seq<int>,
                     ghost live: seq<bool>, ghost k: int)
    returns (next: int)
    requires Layout(h) && Cells(h.g, done) && Survivors(h, done, live) && Reverted(h, done, live, k, mem[..])
    requires 0 <= k < |h.blocks| && h.blocks[k].pos == p && p in h.g.hd && h.g.hd[p] == h.blocks[k]
    requires alloc.Valid() && alloc.chunks == h.chunks && alloc.State() == Placed(h, live, k)
    requires alloc.pastEnd == PastEnd(h, live, k)
    modifies mem, alloc
    ensures Reverted(h, done, live, k + 1, mem[..]) && next == h.blocks[k].End()
    ensures alloc.Valid() && alloc.State() == Placed(h, live, k + 1) && alloc.pastEnd == PastEnd(h, live, k + 1)
  {
    hide Layout, Headers, Cells, Reverted, ListsOf, HeadW, BlockReverted, Survivors, Live;
    ghost var m := mem[..];
    BlockReady(h, done, live, k, m);
    var q := mem[p];
    if q.Ptr? || q.tag == INFIX_TAG {
      var hd, infixes := OriginalHeader(mem, p, h.g, done);
      var adr := alloc.Allocate(hd.size + 1);
      RevertLists(mem, p, adr, hd, infixes, h.g, done);
      next := p + 1 + hd.size;
    } else {
      mem[p] := Hd(q.size, q.tag, Blue);
      FreeReverted(h.g, done, p, NewAdr(h, live, k), mem[p], m);
      next := p + 1 + q.size;
    }
    RevertedStep(h, done, live, k, m, mem[..]);
  }

  /** Everything pass 3 relies on when it reaches block `k`. */
  lemma BlockReady(h: Heap, done: seq<int>, live: seq<bool>, k: nat, m: seq<Word>)
    requires Layout(h) && Cells(h.g, done) && Survivors(h, done, live) && Reverted(h, done, live, k, m) &&
             k < |h.blocks|
    ensures var p := h.blocks[k].pos;
            && Headers(h.g) && 0 <= p < |h.g.o| == |m| && p in h.g.hd && |live| == |h.blocks|
            && ListsOf(h.g, done, p, m)
            && (m[p].Ptr? || m[p].Ehd?)
            && (m[p].Ptr? || m[p].tag == INFIX_TAG <==> live[k])
            && live[k] == Live(h.g, done, p)
            && (!live[k] ==> m[p] == Encoded(h.g, p))
            && Serves(h, Placed(h, live, k), h.blocks[k])
  {
    var p := h.blocks[k].pos;
    SlidesDown(h, live, k);
    StillListed(h, done, live, k, m);
    HeadTells(h.g, done, p);
    assert p !in done;
    hide Layout, Reverted, Live;
    assert m[p] == HeadW(h.g, done, p);
  }

  /** Pass 3. */
  method RevertHeap(mem: array<Word>, chunks: seq<Chunk>, ghost h: Heap, ghost done: seq<int>, ghost live: seq<bool>)
    returns (pastEnd: bool)
    requires Layout(h) && chunks == h.chunks && Threaded(h.g, done, mem[..]) && Survivors(h, done, live)
    modifies mem
    ensures Reverted(h, done, live, |h.blocks|, mem[..])
    ensures pastEnd <==> PastEnd(h, live, |h.blocks|)
  {
    assert Reverted(h, done, live, 0, mem[..]) by { NothingReverted(h, done, live, mem[..]); }
    assert Cells(h.g, done);
    assert |chunks| > 0 && At(h, 0, chunks[0].start, 0);
    hide Layout, Reverted, Cells, Threaded, Survivors;
    var alloc := new Allocator(chunks);
    ghost var k := 0;
    assert alloc.State() == Placed(h, live, 0) && !PastEnd(h, live, 0);
    hide Placed, PastEnd;
    for j := 0 to |chunks|
      invariant if j < |chunks| then At(h, j, chunks[j].start, k) else k == |h.blocks|
      invariant Reverted(h, done, live, k, mem[..]) && |live| == |h.blocks|
      invariant alloc.Valid() && fresh(alloc) && alloc.chunks == chunks && 0 <= k <= |live|
      invariant alloc.State() == Placed(h, live, k) && alloc.pastEnd == PastEnd(h, live, k)
    {
      var p := chunks[j].start;
      while p < chunks[j].End()
        invariant At(h, j, p, k) && Reverted(h, done, live, k, mem[..])
        invariant alloc.Valid() && 0 <= k <= |live|
        invariant alloc.State() == Placed(h, live, k) && alloc.pastEnd == PastEnd(h, live, k)
        decreases chunks[j].End() - p
      {
        WalkOn(h, j, p, k);
        p := RevertBlock(mem, alloc, p, h, done, live, k);
        k := k + 1;
      }
      if j + 1 < |chunks| { WalkChunk(h, j, k); }
    }
    pastEnd := alloc.pastEnd;
  }

  lemma NothingReverted(h: Heap, done: seq<int>, live: seq<bool>, m: seq<Word>)
    requires Layout(h) && Threaded(h.g, done, m) && |live| == |h.blocks|
    ensures Reverted(h, done, live, 0, m)
  {
    hide Layout, HeadW, CellW;
    forall i | 0 <= i < |done| ensures 0 <= done[i] < |m| && m[done[i]] == CellR(h, done, live, 0, i) {
      assert Cell(h.g, done[i]);
    }
  }
}
