/** Passes 1 and 2 of `compact_heap`: encode the headers, then invert every pointer. */
module CompactThread {
  import opened HeapWords
  import opened CompactSpec
  import opened CompactInvert
  import opened CompactLayout

  /** Memory after pass 1 has gone through the first `k` blocks. */
  ghost predicate EncodedTo(h: Heap, k: int, m: seq<Word>) {
    && |m| == |h.g.o|
    && forall a :: 0 <= a < |m| ==> m[a] == if a in h.g.hd && h.g.hd[a].idx < k then Encoded(h.g, a) else h.g.o[a]
  }

  /** Pass 1. */
  method EncodeHeaders(mem: array<Word>, chunks: seq<Chunk>, ghost h: Heap)
    requires Layout(h) && mem[..] == h.g.o && chunks == h.chunks
    modifies mem
    ensures Threaded(h.g, [], mem[..])
  {
    ghost var k := 0;
    for j := 0 to |chunks|
      invariant if j < |chunks| then At(h, j, chunks[j].start, k) else k == |h.blocks|
      invariant EncodedTo(h, k, mem[..])
    {
      var p := chunks[j].start;
      while p < chunks[j].End()
        invariant At(h, j, p, k) && EncodedTo(h, k, mem[..])
        decreases chunks[j].End() - p
      {
        WalkOn(h, j, p, k);
        ghost var m := mem[..];
        var hd := mem[p];
        mem[p] := Ehd(hd.size, if hd.color.Blue? then STRING_TAG else hd.tag);
        EncodeOne(h, k, p, m, mem[..]);
        p := p + 1 + hd.size;
        k := k + 1;
      }
      if j + 1 < |chunks| { WalkChunk(h, j, k); }
    }
  }

  lemma EncodeOne(h: Heap, k: int, p: int, m: seq<Word>, m': seq<Word>)
    requires Layout(h) && EncodedTo(h, k, m) && p in h.g.hd && h.g.hd[p].idx == k
    requires m' == m[p := Encoded(h.g, p)]
    ensures EncodedTo(h, k + 1, m')
  {
    forall a | 0 <= a < |m'|
      ensures m'[a] == if a in h.g.hd && h.g.hd[a].idx < k + 1 then Encoded(h.g, a) else h.g.o[a]
    {
      if a in h.g.hd && h.g.hd[a].idx == k { assert h.g.hd[a] == h.blocks[k]; }
    }
  }

  // ---- Pass 2 ---------------------------------------------------------------------------

  /** The inverted cells are the pointers among the first `n` roots. */
  ghost predicate RootsDone(h: Heap, done: seq<int>, n: int) {
    && 0 <= n <= |h.roots|
    && forall c {:trigger c in done} :: c in done <==> HeapPtr(h, c) && c in h.roots[..n]
  }

  method InvertRoots(mem: array<Word>, chunks: seq<Chunk>, roots: seq<int>, ghost h: Heap)
    returns (ghost done: seq<int>)
    requires WellFormed(h) && chunks == h.chunks && roots == h.roots
    requires Threaded(h.g, [], mem[..])
    modifies mem
    ensures Threaded(h.g, done, mem[..]) && RootsDone(h, done, |h.roots|)
  {
    done := [];
    for i := 0 to |roots|
      invariant Threaded(h.g, done, mem[..]) && RootsDone(h, done, i)
    {
      RootIsFresh(h, done, i);
      done := InvertPointerAt(mem, chunks, roots[i], h.g, done);
    }
  }

  lemma RootIsFresh(h: Heap, done: seq<int>, i: nat)
    requires WellFormed(h) && RootsDone(h, done, i) && i < |h.roots|
    ensures var c := h.roots[i];
            && c !in done && c !in h.g.hd && 0 <= c < |h.g.o|
            && (HeapPtr(h, c) ==> Cell(h.g, c))
            && RootsDone(h, if HeapPtr(h, c) then done + [c] else done, i + 1)
  {
    var c := h.roots[i];
    assert Scanned(h, c);
    assert h.roots[..i+1] == h.roots[..i] + [c];
    if c in h.g.hd { HeaderInHeap(h, c); }
  }

  /** `c` is a field of a scannable block before block `k`, or one of block `k` below `x`. */
  ghost predicate ScannedTo(h: Heap, c: int, k: int, x: int) {
    exists i :: FieldOf(h, c, i) && Scannable(h.blocks[i]) && (i < k || (i == k && c < x))
  }

  ghost predicate HeapDone(h: Heap, done: seq<int>, k: int, x: int) {
    forall c {:trigger c in done} :: c in done <==> HeapPtr(h, c) && (c in h.roots || ScannedTo(h, c, k, x))
  }

  lemma FieldIsFresh(h: Heap, done: seq<int>, k: int, x: int)
    requires WellFormed(h) && HeapDone(h, done, k, x) && FieldOf(h, x, k) && Scannable(h.blocks[k])
    ensures x !in done && x !in h.g.hd && 0 <= x < |h.g.o|
    ensures HeapPtr(h, x) ==> Cell(h.g, x)
    ensures HeapDone(h, if HeapPtr(h, x) then done + [x] else done, k, x + 1)
  {
    FieldNotHeader(h, x, k);
    assert Scanned(h, x);
    if ScannedTo(h, x, k, x) {
      var i :| FieldOf(h, x, i) && Scannable(h.blocks[i]) && (i < k || (i == k && x < x));
      FieldUnique(h, x, i, k);
    }
    var done' := if HeapPtr(h, x) then done + [x] else done;
    forall c ensures c in done' <==> HeapPtr(h, c) && (c in h.roots || ScannedTo(h, c, k, x + 1)) {
      ScannedToNext(h, c, k, x);
    }
  }

  lemma ScannedToNext(h: Heap, c: int, k: int, x: int)
    requires FieldOf(h, x, k) && Scannable(h.blocks[k])
    ensures ScannedTo(h, c, k, x + 1) <==> ScannedTo(h, c, k, x) || c == x
  {
    if ScannedTo(h, c, k, x + 1) {
      var i :| FieldOf(h, c, i) && Scannable(h.blocks[i]) && (i < k || (i == k && c < x + 1));
    }
  }

  /** Between blocks `x` is 0; inside block `k` it starts after the header. */
  lemma BlockStart(h: Heap, done: seq<int>, k: int)
    requires Layout(h) && HeapDone(h, done, k, 0) && 0 <= k < |h.blocks|
    ensures HeapDone(h, done, k, h.blocks[k].pos + 1)
  {
    assert Tile(h, k);
    forall c ensures ScannedTo(h, c, k, 0) <==> ScannedTo(h, c, k, h.blocks[k].pos + 1) {
      if ScannedTo(h, c, k, h.blocks[k].pos + 1) {
        var i :| FieldOf(h, c, i) && Scannable(h.blocks[i]) && (i < k || (i == k && c < h.blocks[k].pos + 1));
      }
    }
  }

  lemma BlockDone(h: Heap, done: seq<int>, k: int, x: int)
    requires Layout(h) && HeapDone(h, done, k, x) && 0 <= k < |h.blocks|
    requires Scannable(h.blocks[k]) ==> x == h.blocks[k].End()
    ensures HeapDone(h, done, k + 1, 0)
  {
    assert k + 1 < |h.blocks| ==> Tile(h, k + 1);
    forall c ensures ScannedTo(h, c, k, x) <==> ScannedTo(h, c, k + 1, 0) {
      if ScannedTo(h, c, k + 1, 0) {
        var i :| FieldOf(h, c, i) && Scannable(h.blocks[i]) && (i < k + 1 || (i == k + 1 && c < 0));
      }
    }
  }

  method InvertFields(mem: array<Word>, chunks: seq<Chunk>, p: int, size: nat, ghost h: Heap, ghost k: int,
                      ghost done0: seq<int>)
    returns (ghost done: seq<int>)
    requires WellFormed(h) && chunks == h.chunks
    requires Threaded(h.g, done0, mem[..]) && HeapDone(h, done0, k, p + 1)
    requires 0 <= k < |h.blocks| && h.blocks[k].pos == p && h.blocks[k].size == size && Scannable(h.blocks[k])
    modifies mem
    ensures Threaded(h.g, done, mem[..]) && HeapDone(h, done, k, p + 1 + size)
  {
    done := done0;
    for i := 1 to size + 1
      invariant Threaded(h.g, done, mem[..]) && HeapDone(h, done, k, p + i)
    {
      FieldIsFresh(h, done, k, p + i);
      done := InvertPointerAt(mem, chunks, p + i, h.g, done);
    }
  }

  /** Inverts the pointers in the block at `p`; `next` is the address of the next header. */
  method InvertBlock(mem: array<Word>, chunks: seq<Chunk>, p: int, ghost h: Heap, ghost k: int, ghost done0: seq<int>)
    returns (next: int, ghost done: seq<int>)
    requires WellFormed(h) && chunks == h.chunks
    requires Threaded(h.g, done0, mem[..]) && HeapDone(h, done0, k, 0)
    requires 0 <= k < |h.blocks| && h.blocks[k].pos == p && p in h.g.hd && h.g.hd[p] == h.blocks[k]
    modifies mem
    ensures Threaded(h.g, done, mem[..]) && HeapDone(h, done, k + 1, 0)
    ensures next == h.blocks[k].End()
  {
    hide Threaded, HeapDone, ListsOf;
    done := done0;
    ThreadedLists(h.g, done, p, mem[..]);
    var q, infixes := OriginalHeader(mem, p, h.g, done);
    next := p + 1 + q.size;
    BlockStart(h, done, k);
    if q.tag < NO_SCAN_TAG {
      done := InvertFields(mem, chunks, p, q.size, h, k, done);
    }
    BlockDone(h, done, k, if q.tag < NO_SCAN_TAG then next else p + 1);
  }

  method InvertHeap(mem: array<Word>, chunks: seq<Chunk>, ghost h: Heap, ghost done0: seq<int>)
    returns (ghost done: seq<int>)
    requires WellFormed(h) && chunks == h.chunks
    requires Threaded(h.g, done0, mem[..]) && RootsDone(h, done0, |h.roots|)
    modifies mem
    ensures Threaded(h.g, done, mem[..]) && HeapDone(h, done, |h.blocks|, 0)
  {
    done := done0;
    ghost var k := 0;
    HeapStart(h, done);
    assert |chunks| > 0 && At(h, 0, chunks[0].start, 0);
    hide Layout, RootsOk, WeakOk, PointersOk, HeapDone, Threaded, RootsDone;
    for j := 0 to |chunks|
      invariant if j < |chunks| then At(h, j, chunks[j].start, k) else k == |h.blocks|
      invariant Threaded(h.g, done, mem[..]) && HeapDone(h, done, k, 0)
    {
      var p := chunks[j].start;
      while p < chunks[j].End()
        invariant At(h, j, p, k)
        invariant Threaded(h.g, done, mem[..]) && HeapDone(h, done, k, 0)
        decreases chunks[j].End() - p
      {
        WalkOn(h, j, p, k);
        p, done := InvertBlock(mem, chunks, p, h, k, done);
        k := k + 1;
      }
      if j + 1 < |chunks| { WalkChunk(h, j, k); }
    }
  }

  lemma HeapStart(h: Heap, done: seq<int>)
    requires Layout(h) && RootsDone(h, done, |h.roots|)
    ensures HeapDone(h, done, 0, 0)
  {
    assert h.roots[..|h.roots|] == h.roots;
    assert |h.blocks| > 0 ==> Tile(h, 0);
    forall c ensures !ScannedTo(h, c, 0, 0) {
    }
  }

  /** `c` is a weak pointer of array number `i` of the weak list. */
  ghost predicate WeakField(h: Heap, c: int, i: int) {
    WeakSlotOf(h, c, i) && c != h.weak[i]
  }

  /** `c` is a weak pointer of one of the first `n` arrays, or one of array `n` below `x`. */
  ghost predicate WeakFieldTo(h: Heap, c: int, n: int, x: int) {
    exists i :: WeakField(h, c, i) && (i < n || (i == n && c < x))
  }

  /** `c` is the link to one of the first `n` arrays. */
  ghost predicate WeakLinkTo(h: Heap, c: int, n: int) {
    exists i :: 0 <= i < n <= |h.weak| && LinkCell(h, i) == c
  }

  ghost predicate WeakDone(h: Heap, done: seq<int>, n: int, x: int) {
    && 0 <= n <= |h.weak|
    && forall c {:trigger c in done} :: c in done <==>
         HeapPtr(h, c) && (c in h.roots || ScanField(h, c) || WeakFieldTo(h, c, n, x) || WeakLinkTo(h, c, n))
  }

  lemma WeakSlotIsField(h: Heap, c: int, i: int)
    requires Layout(h) && WeakOk(h) && WeakSlotOf(h, c, i)
    ensures FieldOf(h, c, h.g.hd[h.weak[i] - 1].idx) && !ScanField(h, c)
    ensures c !in h.g.hd && InHeap(h.chunks, c) && 0 <= c < |h.g.o|
  {
    var k := h.g.hd[h.weak[i] - 1].idx;
    assert h.blocks[k] == h.g.hd[h.weak[i] - 1];
    FieldNotHeader(h, c, k);
    if ScanField(h, c) {
      var k' :| FieldOf(h, c, k') && Scannable(h.blocks[k']);
      FieldUnique(h, c, k, k');
    }
  }

  lemma WeakSlotUnique(h: Heap, c: int, i: int, j: int)
    requires Layout(h) && WeakOk(h) && WeakSlotOf(h, c, i) && WeakSlotOf(h, c, j)
    ensures i == j
  {
    WeakSlotIsField(h, c, i);
    WeakSlotIsField(h, c, j);
    FieldUnique(h, c, h.g.hd[h.weak[i] - 1].idx, h.g.hd[h.weak[j] - 1].idx);
    assert h.weak[i] == h.weak[j];
  }

  /** A link is outside the heap or the first word of a weak array. */
  lemma LinkIsSlot(h: Heap, i: int)
    requires Layout(h) && WeakOk(h) && 0 <= i <= |h.weak|
    ensures i == 0 ==> !InHeap(h.chunks, LinkCell(h, i))
    ensures i > 0 ==> WeakSlotOf(h, LinkCell(h, i), i - 1) && LinkCell(h, i) == h.weak[i-1]
  {
  }

  lemma WeakFieldIsFresh(h: Heap, done: seq<int>, n: int, x: int)
    requires WellFormed(h) && WeakDone(h, done, n, x) && WeakField(h, x, n)
    ensures x !in done && x !in h.g.hd && 0 <= x < |h.g.o|
    ensures HeapPtr(h, x) ==> Cell(h.g, x)
    ensures WeakDone(h, if HeapPtr(h, x) then done + [x] else done, n, x + 1)
  {
    hide Layout, WeakOk;
    WeakSlotIsField(h, x, n);
    assert Scanned(h, x);
    assert x !in h.roots;
    hide RootsOk, ScanField, HeapPtr, PointersOk;
    if WeakFieldTo(h, x, n, x) {
      var i :| WeakField(h, x, i) && (i < n || (i == n && x < x));
      WeakSlotUnique(h, x, i, n);
    }
    if WeakLinkTo(h, x, n) {
      var i :| 0 <= i < n <= |h.weak| && LinkCell(h, i) == x;
      LinkIsSlot(h, i);
      if i > 0 { WeakSlotUnique(h, x, i - 1, n); }
    }
    forall c ensures WeakFieldTo(h, c, n, x + 1) <==> WeakFieldTo(h, c, n, x) || c == x {
      WeakFieldToNext(h, c, n, x);
    }
  }

  lemma WeakFieldToNext(h: Heap, c: int, n: int, x: int)
    requires WeakField(h, x, n)
    ensures WeakFieldTo(h, c, n, x + 1) <==> WeakFieldTo(h, c, n, x) || c == x
  {
    if WeakFieldTo(h, c, n, x + 1) {
      var i :| WeakField(h, c, i) && (i < n || (i == n && c < x + 1));
    }
  }

  lemma WeakLinkIsFresh(h: Heap, done: seq<int>, n: int, x: int)
    requires WellFormed(h) && WeakDone(h, done, n, x) && n < |h.weak|
    requires x == h.weak[n] + h.g.hd[h.weak[n] - 1].size
    ensures var c := LinkCell(h, n);
            && c !in done && c !in h.g.hd && 0 <= c < |h.g.o|
            && HeapPtr(h, c) && Cell(h.g, c)
            && WeakDone(h, done + [c], n + 1, 0)
  {
    var c := LinkCell(h, n);
    LinkFresh(h, n, x);
    LinkPointsIn(h, n);
    hide Layout, RootsOk, WeakOk, ScanField, HeapPtr, WeakLinkTo, WeakFieldTo;
    forall d
      ensures WeakFieldTo(h, d, n, x) <==> WeakFieldTo(h, d, n + 1, 0)
      ensures WeakLinkTo(h, d, n + 1) <==> WeakLinkTo(h, d, n) || d == c
    {
      WeakToNext(h, d, n, x);
    }
  }

  lemma LinkPointsIn(h: Heap, n: int)
    requires WellFormed(h) && 0 <= n < |h.weak|
    ensures var c := LinkCell(h, n); 0 <= c < |h.g.o| && Scanned(h, c) && HeapPtr(h, c)
  {
    var c := LinkCell(h, n);
    LinkIsSlot(h, n);
    assert Tile(h, h.g.hd[h.weak[n] - 1].idx);
    assert WeakSlot(h, c) || c == h.weakHead;
  }

  lemma LinkFresh(h: Heap, n: int, x: int)
    requires WellFormed(h) && 0 <= n < |h.weak|
    ensures var c := LinkCell(h, n);
            c !in h.roots && !ScanField(h, c) && !WeakFieldTo(h, c, n, x) && !WeakLinkTo(h, c, n) && c !in h.g.hd
  {
    hide Layout;
    var c := LinkCell(h, n);
    LinkIsSlot(h, n);
    assert c !in h.roots by {
      if n > 0 { WeakSlotIsField(h, c, n - 1); }
    }
    hide RootsOk, WeakOk, InHeap, PointersOk;
    if n > 0 { WeakSlotIsField(h, c, n - 1); }
    if ScanField(h, c) {
      var k :| FieldOf(h, c, k) && Scannable(h.blocks[k]);
      FieldNotHeader(h, c, k);
    }
    if c in h.g.hd { HeaderInHeap(h, c); }
    if WeakFieldTo(h, c, n, x) {
      var i :| WeakField(h, c, i) && (i < n || (i == n && c < x));
      WeakSlotIsField(h, c, i);
      if n > 0 { WeakSlotUnique(h, c, i, n - 1); }
    }
    if WeakLinkTo(h, c, n) {
      var i :| 0 <= i < n <= |h.weak| && LinkCell(h, i) == c;
      LinkIsSlot(h, i);
      if i > 0 { WeakSlotUnique(h, c, i - 1, n - 1); }
    }
  }

  lemma WeakToNext(h: Heap, d: int, n: int, x: int)
    requires Layout(h) && WeakOk(h) && 0 <= n < |h.weak|
    requires x == h.weak[n] + h.g.hd[h.weak[n] - 1].size
    ensures WeakFieldTo(h, d, n, x) <==> WeakFieldTo(h, d, n + 1, 0)
    ensures WeakLinkTo(h, d, n + 1) <==> WeakLinkTo(h, d, n) || d == LinkCell(h, n)
  {
    hide Layout;
    if WeakFieldTo(h, d, n + 1, 0) {
      var i :| WeakField(h, d, i) && (i < n + 1 || (i == n + 1 && d < 0));
      WeakSlotIsField(h, d, i);
      assert WeakField(h, d, i);
    }
    if WeakFieldTo(h, d, n, x) {
      var i :| WeakField(h, d, i) && (i < n || (i == n && d < x));
      assert WeakField(h, d, i) && i < n + 1;
    }
    if WeakLinkTo(h, d, n + 1) {
      var i :| 0 <= i < n + 1 <= |h.weak| && LinkCell(h, i) == d;
      assert i < n ==> WeakLinkTo(h, d, n);
    }
    if WeakLinkTo(h, d, n) {
      var i :| 0 <= i < n <= |h.weak| && LinkCell(h, i) == d;
      assert 0 <= i < n + 1;
    }
  }

  /** Inverts one weak pointer, unless it is null. */
  method InvertWeakField(mem: array<Word>, chunks: seq<Chunk>, x: int, ghost h: Heap, ghost n: int,
                         ghost done0: seq<int>)
    returns (ghost done: seq<int>)
    requires WellFormed(h) && chunks == h.chunks
    requires Threaded(h.g, done0, mem[..]) && WeakDone(h, done0, n, x) && WeakField(h, x, n)
    modifies mem
    ensures Threaded(h.g, done, mem[..]) && WeakDone(h, done, n, x + 1)
  {
    done := done0;
    WeakFieldIsFresh(h, done, n, x);
    NullNotInHeap(h, done, mem[..], x);
    assert Headers(h.g);
    hide WellFormed, WeakDone, Headers;
    if mem[x] != Ptr(0) {
      done := InvertPointerAt(mem, chunks, x, h.g, done);
    }
  }

  /** Inverts the weak pointers of array number `n`, at `p`. */
  method InvertWeakFields(mem: array<Word>, chunks: seq<Chunk>, p: int, size: nat, ghost h: Heap, ghost n: int,
                          ghost done0: seq<int>)
    returns (ghost done: seq<int>)
    requires WellFormed(h) && chunks == h.chunks
    requires Threaded(h.g, done0, mem[..]) && WeakDone(h, done0, n, p + 1)
    requires 0 <= n < |h.weak| && h.weak[n] == p && p - 1 in h.g.hd && h.g.hd[p - 1].size == size && size > 0
    modifies mem
    ensures Threaded(h.g, done, mem[..]) && WeakDone(h, done, n, p + size)
  {
    hide WellFormed, Threaded, WeakDone;
    done := done0;
    for i := 1 to size
      invariant Threaded(h.g, done, mem[..]) && WeakDone(h, done, n, p + i)
    {
      done := InvertWeakField(mem, chunks, p + i, h, n, done);
    }
  }

  lemma NullNotInHeap(h: Heap, done: seq<int>, m: seq<Word>, c: int)
    requires WellFormed(h) && Threaded(h.g, done, m) && 0 <= c < |m| && c !in h.g.hd && c !in done
    ensures m[c] == Ptr(0) ==> !HeapPtr(h, c)
    ensures h.g.o[c].Ptr? ==> m[c] == h.g.o[c]
  {
    assert m[c] == HeadW(h.g, done, c);
    assert Last(h.g, done, c) >= 0 ==> Cell(h.g, done[Last(h.g, done, c)]);
  }

  lemma WeakStart(h: Heap, done: seq<int>, n: int)
    requires WellFormed(h) && WeakDone(h, done, n, 0) && n < |h.weak|
    ensures WeakDone(h, done, n, h.weak[n] + 1)
  {
    hide RootsOk, PointersOk, ScanField, HeapPtr;
    assert Tile(h, h.g.hd[h.weak[n] - 1].idx);
    forall c ensures WeakFieldTo(h, c, n, 0) <==> WeakFieldTo(h, c, n, h.weak[n] + 1) {
      hide Layout;
      if WeakFieldTo(h, c, n, h.weak[n] + 1) {
        var i :| WeakField(h, c, i) && (i < n || (i == n && c < h.weak[n] + 1));
        assert WeakField(h, c, i);
      }
      if WeakFieldTo(h, c, n, 0) {
        var i :| WeakField(h, c, i) && (i < n || (i == n && c < 0));
        assert WeakField(h, c, i);
      }
    }
  }

  lemma WeakBegin(h: Heap, done: seq<int>)
    requires WellFormed(h) && HeapDone(h, done, |h.blocks|, 0)
    ensures WeakDone(h, done, 0, 0)
  {
    hide RootsOk, PointersOk;
    forall c ensures !WeakFieldTo(h, c, 0, 0) && (ScannedTo(h, c, |h.blocks|, 0) <==> ScanField(h, c)) {
      if i :| WeakField(h, c, i) && (i < 0 || (i == 0 && c < 0)) {
        WeakSlotIsField(h, c, i);
      }
    }
  }

  method InvertWeak(mem: array<Word>, chunks: seq<Chunk>, weakHead: int, ghost h: Heap, ghost done0: seq<int>)
    returns (ghost done: seq<int>)
    requires WellFormed(h) && chunks == h.chunks && weakHead == h.weakHead
    requires Threaded(h.g, done0, mem[..]) && HeapDone(h, done0, |h.blocks|, 0)
    modifies mem
    ensures Threaded(h.g, done, mem[..]) && WeakDone(h, done, |h.weak|, 0)
  {
    done := done0;
    WeakBegin(h, done);
    hide Threaded, WeakDone, HeapDone, Layout, RootsOk, PointersOk, WeakOk;
    var pp := weakHead;
    ghost var n := 0;
    LinkReadable(h, done, mem[..], n);
    while mem[pp] != Ptr(0)
      invariant 0 <= n <= |h.weak| && pp == LinkCell(h, n) && 0 <= pp < mem.Length
      invariant mem[pp] == if n < |h.weak| then Ptr(h.weak[n]) else Ptr(0)
      invariant Threaded(h.g, done, mem[..]) && WeakDone(h, done, n, 0)
      decreases |h.weak| - n
    {
      pp, done := InvertWeakArray(mem, chunks, pp, h, n, done);
      n := n + 1;
      LinkReadable(h, done, mem[..], n);
    }
  }

  /** Inverts the weak pointers of the array that `pp` links to, then the link itself. */
  method InvertWeakArray(mem: array<Word>, chunks: seq<Chunk>, pp: int, ghost h: Heap, ghost n: int,
                         ghost done0: seq<int>)
    returns (p: int, ghost done: seq<int>)
    requires WellFormed(h) && chunks == h.chunks && 0 <= n < |h.weak|
    requires Threaded(h.g, done0, mem[..]) && WeakDone(h, done0, n, 0)
    requires pp == LinkCell(h, n) && 0 <= pp < mem.Length && mem[pp] == Ptr(h.weak[n])
    modifies mem
    ensures p == h.weak[n]
    ensures Threaded(h.g, done, mem[..]) && WeakDone(h, done, n + 1, 0)
  {
    p := mem[pp].adr;
    WeakStart(h, done0, n);
    assert Headers(h.g) && p - 1 in h.g.hd && 0 <= p - 1 && h.g.hd[p - 1].size > 0;
    hide WellFormed, Threaded, WeakDone, Headers, ListsOf;
    ThreadedLists(h.g, done0, p - 1, mem[..]);
    var q, infixes := OriginalHeader(mem, p - 1, h.g, done0);
    done := InvertWeakFields(mem, chunks, p, q.size, h, n, done0);
    WeakLinkIsFresh(h, done, n, p + q.size);
    done := InvertPointerAt(mem, chunks, pp, h.g, done);
  }

  lemma LinkReadable(h: Heap, done: seq<int>, m: seq<Word>, n: int)
    requires WellFormed(h) && Threaded(h.g, done, m) && 0 <= n <= |h.weak| && WeakDone(h, done, n, 0)
    ensures 0 <= LinkCell(h, n) < |m|
    ensures m[LinkCell(h, n)] == if n < |h.weak| then Ptr(h.weak[n]) else Ptr(0)
  {
    var c := LinkCell(h, n);
    hide RootsOk, PointersOk, ScanField, WeakFieldTo, WeakLinkTo;
    if n < |h.weak| {
      LinkFresh(h, n, 0);
      NullNotInHeap(h, done, m, c);
    } else {
      assert h.g.o[c] == Ptr(0);
      assert !HeapPtr(h, c);
      assert c !in h.g.hd;
      NullNotInHeap(h, done, m, c);
    }
  }

  /** Every word that the compactor treats as a pointer into the heap has been inverted, and nothing else. */
  ghost predicate AllInverted(h: Heap, done: seq<int>) {
    forall c {:trigger c in done} :: c in done <==> HeapPtr(h, c) && Scanned(h, c)
  }

  lemma EverythingInverted(h: Heap, done: seq<int>)
    requires WellFormed(h) && WeakDone(h, done, |h.weak|, 0)
    ensures AllInverted(h, done)
  {
    var n := |h.weak|;
    forall c | HeapPtr(h, c)
      ensures c == h.weakHead || WeakSlot(h, c) <==> WeakFieldTo(h, c, n, 0) || WeakLinkTo(h, c, n)
    {
      LastLinkIsNull(h, c);
      WeakEnd(h, c);
    }
  }

  lemma LastLinkIsNull(h: Heap, c: int)
    requires WellFormed(h) && HeapPtr(h, c)
    ensures c != LinkCell(h, |h.weak|)
  {
    assert h.g.o[LinkCell(h, |h.weak|)] == Ptr(0);
  }

  lemma WeakEnd(h: Heap, c: int)
    requires WellFormed(h) && c != LinkCell(h, |h.weak|)
    ensures c == h.weakHead || WeakSlot(h, c) <==> WeakFieldTo(h, c, |h.weak|, 0) || WeakLinkTo(h, c, |h.weak|)
  {
    hide Layout, RootsOk, PointersOk;
    var n := |h.weak|;
    if WeakSlot(h, c) {
      var i :| 0 <= i < |h.weak| && WeakSlotOf(h, c, i);
      if c == h.weak[i] {
        assert LinkCell(h, i + 1) == c && i + 1 < n;
      } else {
        assert WeakField(h, c, i);
      }
    }
    if c == h.weakHead { assert LinkCell(h, 0) == c; }
    if WeakFieldTo(h, c, n, 0) {
      var i :| WeakField(h, c, i) && (i < n || (i == n && c < 0));
      assert WeakSlotOf(h, c, i);
    }
    if WeakLinkTo(h, c, n) {
      var i :| 0 <= i < n <= |h.weak| && LinkCell(h, i) == c;
      LinkIsSlot(h, i);
    }
  }

  /** Passes 1 and 2. */
  method ThreadHeap(mem: array<Word>, chunks: seq<Chunk>, roots: seq<int>, weakHead: int, ghost h: Heap)
    returns (ghost done: seq<int>)
    requires WellFormed(h) && mem[..] == h.g.o
    requires chunks == h.chunks && roots == h.roots && weakHead == h.weakHead
    modifies mem
    ensures Threaded(h.g, done, mem[..]) && AllInverted(h, done)
  {
    EncodeHeaders(mem, chunks, h);
    hide Threaded, RootsDone, HeapDone, WeakDone, AllInverted, WellFormed;
    done := InvertRoots(mem, chunks, roots, h);
    done := InvertHeap(mem, chunks, h, done);
    done := InvertWeak(mem, chunks, weakHead, h, done);
    EverythingInverted(h, done);
  }
}
