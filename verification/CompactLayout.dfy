/** How blocks tile the chunks of the heap, and the walk over them that every pass makes. */
module CompactLayout {
  import opened HeapWords
  import opened CompactSpec

  /**
   * The heap to compact: its words and blocks, its chunks in address order, its blocks in
   * address order, the root cells (finalisable values included), and the weak arrays in list order.
   */
  datatype Heap = Heap(g: Graph, chunks: seq<Chunk>, blocks: seq<Block>,
                       roots: seq<int>, weakHead: int, weak: seq<int>)

  ghost predicate ChunksOk(h: Heap) {
    && |h.chunks| > 0
    && (forall j :: 0 <= j < |h.chunks| ==>
        1 <= h.chunks[j].start && h.chunks[j].End() <= |h.g.o| && h.chunks[j].size > 4)
    && (forall i, j :: 0 <= i < j < |h.chunks| ==> h.chunks[i].End() <= h.chunks[j].start)
  }

  /** `p` is where block `k` starts in chunk `j`, or the end of chunk `j` when the next chunk holds block `k`. */
  ghost predicate At(h: Heap, j: int, p: int, k: int) {
    && 0 <= j < |h.chunks| && 0 <= k <= |h.blocks|
    && if p < h.chunks[j].End() then
         k < |h.blocks| && h.blocks[k].pos == p && h.blocks[k].chunk == j
       else
         && p == h.chunks[j].End()
         && if j + 1 < |h.chunks| then k < |h.blocks| && h.blocks[k].pos == h.chunks[j+1].start &&
            h.blocks[k].chunk == j + 1
            else k == |h.blocks|
  }

  /** Block `k` lies in its chunk and block `k + 1` comes right after it. */
  ghost predicate Tile(h: Heap, k: int) {
    && 0 <= k < |h.blocks|
    && h.blocks[k].chunk < |h.chunks|
    && h.chunks[h.blocks[k].chunk].start <= h.blocks[k].pos
    && h.blocks[k].End() <= h.chunks[h.blocks[k].chunk].End()
    && At(h, h.blocks[k].chunk, h.blocks[k].End(), k + 1)
  }

  /** The blocks tile the chunks: no space between blocks and no trailing garbage. */
  ghost predicate Tiled(h: Heap) {
    && |h.chunks| > 0 && At(h, 0, h.chunks[0].start, 0)
    && (forall k {:trigger Tile(h, k)} :: 0 <= k < |h.blocks| ==> Tile(h, k))
  }

  /** Headers describe the blocks. */
  ghost predicate Indexed(h: Heap) {
    && (forall k {:trigger h.blocks[k]} :: 0 <= k < |h.blocks| ==>
          h.blocks[k].idx == k && h.blocks[k].pos in h.g.hd && h.g.hd[h.blocks[k].pos] == h.blocks[k])
    && (forall p {:trigger h.g.hd[p]} :: p in h.g.hd ==>
          && 0 <= h.g.hd[p].idx < |h.blocks| && h.blocks[h.g.hd[p].idx] == h.g.hd[p] && h.g.hd[p].pos == p
          && 0 <= p < |h.g.o| && h.g.o[p] == Hd(h.g.hd[p].size, h.g.hd[p].tag, h.g.hd[p].color)
          && (h.g.hd[p].color.White? || h.g.hd[p].color.Blue?)
          && h.g.hd[p].tag != INFIX_TAG)
  }

  ghost predicate Layout(h: Heap) {
    ChunksOk(h) && Tiled(h) && Indexed(h) && Headers(h.g)
  }

  /** `c` is a field of block `k`. */
  ghost predicate FieldOf(h: Heap, c: int, k: int) {
    0 <= k < |h.blocks| && h.blocks[k].pos < c < h.blocks[k].End()
  }

  lemma {:induction false} Sorted(h: Heap, i: nat, k: nat)
    requires ChunksOk(h) && Tiled(h) && i < k < |h.blocks|
    ensures h.blocks[i].End() <= h.blocks[k].pos && h.blocks[i].chunk <= h.blocks[k].chunk
    decreases k - i
  {
    assert Tile(h, i) && Tile(h, i + 1);
    if i + 1 < k {
      Sorted(h, i + 1, k);
    }
  }

  lemma FieldUnique(h: Heap, c: int, i: int, k: int)
    requires ChunksOk(h) && Tiled(h) && FieldOf(h, c, i) && FieldOf(h, c, k)
    ensures i == k
  {
    if i < k {
      Sorted(h, i, k);
    } else if k < i {
      Sorted(h, k, i);
    }
  }

  /** Fields are not headers. */
  lemma FieldNotHeader(h: Heap, c: int, k: int)
    requires Layout(h) && FieldOf(h, c, k)
    ensures c !in h.g.hd && InHeap(h.chunks, c) && 0 <= c < |h.g.o|
  {
    assert Tile(h, k);
    if c in h.g.hd {
      var i := h.g.hd[c].idx;
      if i < k {
        Sorted(h, i, k);
      } else if k < i {
        Sorted(h, k, i);
      }
    }
  }

  lemma HeaderInHeap(h: Heap, p: int)
    requires Layout(h) && p in h.g.hd
    ensures InHeap(h.chunks, p)
  {
    assert Tile(h, h.g.hd[p].idx);
  }

  /** From block `k` the walk goes to block `k + 1`. */
  lemma WalkOn(h: Heap, j: int, p: int, k: int)
    requires Layout(h) && At(h, j, p, k) && p < h.chunks[j].End()
    ensures p in h.g.hd && h.g.hd[p] == h.blocks[k]
    ensures At(h, j, h.blocks[k].End(), k + 1)
  {
    assert Tile(h, k);
  }

  /** From the end of a chunk the walk goes to the start of the next one. */
  lemma WalkChunk(h: Heap, j: int, k: int)
    requires ChunksOk(h) && 0 <= j < |h.chunks| - 1 && At(h, j, h.chunks[j].End(), k)
    ensures At(h, j + 1, h.chunks[j+1].start, k)
  {
  }

  // ---- The words that the compactor treats as pointers ------------------------------------

  /** `c` holds a pointer into the heap. */
  ghost predicate HeapPtr(h: Heap, c: int) {
    0 <= c < |h.g.o| && h.g.o[c].Ptr? && InHeap(h.chunks, h.g.o[c].adr)
  }

  ghost predicate Scannable(b: Block) {
    b.color.White? && b.tag < NO_SCAN_TAG
  }

  /** `c` is a field of a scannable block. */
  ghost predicate ScanField(h: Heap, c: int) {
    exists k :: FieldOf(h, c, k) && Scannable(h.blocks[k])
  }

  /** `c` is a word of a weak array: its link to the next array or one of its weak pointers. */
  ghost predicate WeakSlot(h: Heap, c: int) {
    exists i :: 0 <= i < |h.weak| && WeakSlotOf(h, c, i)
  }

  ghost predicate WeakSlotOf(h: Heap, c: int, i: int) {
    0 <= i < |h.weak| && h.weak[i] - 1 in h.g.hd && h.weak[i] <= c < h.weak[i] + h.g.hd[h.weak[i] - 1].size
  }

  /** The roots, the fields of scannable blocks, the weak list and the weak pointers. */
  ghost predicate Scanned(h: Heap, c: int) {
    c in h.roots || ScanField(h, c) || c == h.weakHead || WeakSlot(h, c)
  }

  ghost predicate RootsOk(h: Heap) {
    && (forall i {:trigger h.roots[i]} :: 0 <= i < |h.roots| ==>
        0 <= h.roots[i] < |h.g.o| && !InHeap(h.chunks, h.roots[i]))
    && (forall i, j :: 0 <= i < j < |h.roots| ==> h.roots[i] != h.roots[j])
  }

  /** The word that points to weak array number `i` of the list. */
  function LinkCell(h: Heap, i: nat): int
    requires i <= |h.weak|
  {
    if i == 0 then h.weakHead else h.weak[i-1]
  }

  /** The weak list runs through distinct arrays that the ordinary scan skips, and ends in a null link. */
  ghost predicate WeakOk(h: Heap) {
    && 0 <= h.weakHead < |h.g.o| && !InHeap(h.chunks, h.weakHead) && h.weakHead !in h.roots
    && (forall i {:trigger h.weak[i]} :: 0 <= i < |h.weak| ==>
          && h.weak[i] - 1 in h.g.hd
          && h.g.hd[h.weak[i] - 1].color.White? && h.g.hd[h.weak[i] - 1].tag >= NO_SCAN_TAG &&
             h.g.hd[h.weak[i] - 1].size > 0)
    && (forall i, j :: 0 <= i < j < |h.weak| ==> h.weak[i] != h.weak[j])
    && (forall i {:trigger LinkCell(h, i)} :: 0 <= i <= |h.weak| ==>
          && 0 <= LinkCell(h, i) < |h.g.o|
          && h.g.o[LinkCell(h, i)] == if i < |h.weak| then Ptr(h.weak[i]) else Ptr(0))
  }

  /** Every pointer the compactor follows leads to a white block, or to an infix header in a white closure. */
  ghost predicate PointersOk(h: Heap) {
    forall c {:trigger Scanned(h, c)} :: Scanned(h, c) && HeapPtr(h, c) ==> Cell(h.g, c)
  }

  ghost predicate WellFormed(h: Heap) {
    Layout(h) && RootsOk(h) && WeakOk(h) && PointersOk(h)
  }
}
