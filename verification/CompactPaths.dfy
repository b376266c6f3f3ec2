/**
 * What a program reads from its roots before and after compaction, said of the words of memory alone: field numbers are
 * followed through every block whose tag is below 251, closures, objects and forwarding blocks included.
 */
module CompactPaths {
  import opened HeapWords
  import opened CompactSpec
  import opened CompactLayout
  import opened CompactPlace
  import opened CompactRevertHeap
  import opened CompactMove

  /** The header of the block that a pointer to word `a` leads to; an infix header (tag 249) holds its offset. */
  function Head(m: seq<Word>, a: int): int {
    if 1 <= a <= |m| && m[a - 1].Hd? && m[a - 1].tag == 249 then a - 1 - m[a - 1].size else a - 1
  }

  /** Word `w` is a pointer into the heap, to a block with a field number `i` that holds a value. */
  predicate HasField(m: seq<Word>, chunks: seq<Chunk>, w: Word, i: nat) {
    && w.Ptr? && InHeap(chunks, w.adr)
    && var p := Head(m, w.adr);
       0 <= p < |m| && m[p].Hd? && m[p].tag < 251 && i < m[p].size && p + 1 + i < |m|
  }

  /** Following the field numbers of `path` from `w` gives `x`. */
  predicate Reads(m: seq<Word>, chunks: seq<Chunk>, w: Word, path: seq<nat>, x: Word)
    decreases |path|
  {
    if path == [] then x == w
    else HasField(m, chunks, w, path[0]) && Reads(m, chunks, m[Head(m, w.adr) + 1 + path[0]], path[1..], x)
  }

  /** The block number `k` has moved, header first, with its tag and size. */
  ghost predicate Arrived(h: Heap, live: seq<bool>, m: seq<Word>, k: int) {
    && 0 <= k < |h.blocks| == |live| && live[k] && |m| == |h.g.o|
    && 0 <= NewAdr(h, live, k) && NewAdr(h, live, k) + 1 + h.blocks[k].size <= |m|
    && m[NewAdr(h, live, k)] == Hd(h.blocks[k].size, h.blocks[k].tag, White)
  }

  /** The same word, or a pointer to the same place in the moved block. */
  ghost predicate WordMatch(h: Heap, live: seq<bool>, m: seq<Word>, w: Word, w': Word) {
    if w.Ptr? && InHeap(h.chunks, w.adr) then exists k :: PointsInto(h, live, m, w, w', k) else w' == w
  }

  ghost predicate PointsInto(h: Heap, live: seq<bool>, m: seq<Word>, w: Word, w': Word, k: int)
    requires w.Ptr?
  {
    && Arrived(h, live, m, k) && h.blocks[k].pos == Head(h.g.o, w.adr)
    && w' == Ptr(NewAdr(h, live, k) + 1 + (w.adr - 1 - h.blocks[k].pos))
  }

  // ---- Scanned words ------------------------------------------------------------------------------------------------

  lemma OwnerIsHead(h: Heap, c: int)
    requires Layout(h) && Cell(h.g, c)
    ensures Owner(h.g, Target(h.g, c)) == Head(h.g.o, h.g.o[c].adr)
    ensures Owner(h.g, Target(h.g, c)) in h.g.hd
  {
  }

  /** A scanned word matches the word that replaces it. */
  lemma ScannedMatches(h: Heap, live: seq<bool>, m: seq<Word>, c: int)
    requires WellFormed(h) && Compacted(h, live, m) && Scanned(h, c) && 0 <= c < |h.g.o|
    ensures |live| == |h.blocks| && |m| == |h.g.o| && WordMatch(h, live, m, h.g.o[c], RelocW(h, live, c))
  {
    hide WellFormed, Scanned, Referenced, BlockCompacted, InHeap, Owner, Target;
    if HeapPtr(h, c) {
      var k := ScannedBlock(h, c);
      HeaderArrives(h, live, m, k);
      assert PointsInto(h, live, m, h.g.o[c], RelocW(h, live, c), k);
    }
  }

  /** The block that a scanned pointer leads to. */
  lemma ScannedBlock(h: Heap, c: int) returns (k: int)
    requires WellFormed(h) && Scanned(h, c) && HeapPtr(h, c)
    ensures Referenced(h, k) && h.blocks[k].pos == Head(h.g.o, h.g.o[c].adr) == Owner(h.g, Target(h.g, c))
    ensures IdxOf(h.g, Target(h.g, c)) == k && Target(h.g, c) == h.g.o[c].adr - 1
  {
    assert Cell(h.g, c);
    OwnerIsHead(h, c);
    k := h.g.hd[Owner(h.g, Target(h.g, c))].idx;
    assert h.blocks[k] == h.g.hd[Owner(h.g, Target(h.g, c))];
  }

  lemma HeaderArrives(h: Heap, live: seq<bool>, m: seq<Word>, k: int)
    requires WellFormed(h) && Compacted(h, live, m) && 0 <= k < |live| && live[k]
    ensures Arrived(h, live, m, k) && h.blocks[k].color.White? && BlockCompacted(h, live, m, k)
  {
    assert BlockCompacted(h, live, m, k) && Referenced(h, k);
    var p := h.blocks[k].pos;
    var c :| Scanned(h, c) && HeapPtr(h, c) && Owner(h.g, Target(h.g, c)) == p;
    assert Cell(h.g, c);
    assert h.g.hd[p] == h.blocks[k];
    assert m[NewAdr(h, live, k)] == RelocW(h, live, p);
  }

  lemma {:induction false} FieldArrives(h: Heap, live: seq<bool>, m: seq<Word>, k: int, i: nat)
    requires WellFormed(h) && Compacted(h, live, m) && 0 <= k < |live| && live[k] && i < h.blocks[k].size
    requires h.blocks[k].tag < 251
    ensures var c, c' := h.blocks[k].pos + 1 + i, NewAdr(h, live, k) + 1 + i;
            0 <= c < |h.g.o| && 0 <= c' < |m| && Scanned(h, c) && m[c'] == RelocW(h, live, c)
  {
    HeaderArrives(h, live, m, k);
    hide WellFormed, Compacted, RelocW;
    var c, c' := h.blocks[k].pos + 1 + i, NewAdr(h, live, k) + 1 + i;
    assert FieldOf(h, c, k) && Scannable(h.blocks[k]);
    assert m[c'] == RelocW(h, live, c' - NewAdr(h, live, k) + h.blocks[k].pos);
  }

  /** The header that a scanned pointer leads to is that of its block, or lies inside it before a code pointer. */
  lemma TargetInside(h: Heap, c: int, k: int)
    requires Layout(h) && Cell(h.g, c) && 0 <= k < |h.blocks| && h.blocks[k].pos == Head(h.g.o, h.g.o[c].adr)
    ensures var t, p := Target(h.g, c), h.blocks[k].pos;
            && p <= t && (t != p ==> t < p + h.blocks[k].size) && 0 <= t < |h.g.o| && h.g.o[t].Hd?
            && t == h.g.o[c].adr - 1 && t - p == if h.g.o[t].tag == 249 then h.g.o[t].size else 0
  {
    OwnerIsHead(h, c);
    assert h.g.hd[h.blocks[k].pos] == h.blocks[k];
  }

  /** Headers inside a moved block are copied as they are. */
  lemma HeaderCopied(h: Heap, live: seq<bool>, m: seq<Word>, k: int, t: int)
    requires BlockCompacted(h, live, m, k) && h.blocks[k].pos <= t < h.blocks[k].End() && h.g.o[t].Hd?
    ensures var a := NewAdr(h, live, k) + (t - h.blocks[k].pos); 0 <= a < |m| && m[a] == h.g.o[t]
  {
    hide NewAdr, Scanned;
    var a := NewAdr(h, live, k) + (t - h.blocks[k].pos);
    assert m[a] == RelocW(h, live, a - NewAdr(h, live, k) + h.blocks[k].pos);
    assert a - NewAdr(h, live, k) + h.blocks[k].pos == t;
  }

  /** Where a relocated pointer leads. */
  lemma HeadArrives(h: Heap, live: seq<bool>, m: seq<Word>, c: int, w': Word, k: int)
    requires WellFormed(h) && Compacted(h, live, m) && Cell(h.g, c) && PointsInto(h, live, m, h.g.o[c], w', k)
    ensures Head(m, w'.adr) == NewAdr(h, live, k)
    ensures h.blocks[k].size > 0 ==> InHeap(h.chunks, w'.adr)
  {
    hide Compacted, NewAdr, NewChunk, RootsOk, WeakOk, PointersOk, Cell, BlockCompacted, Target, InHeap;
    HeaderArrives(h, live, m, k);
    TargetInside(h, c, k);
    var t := Target(h.g, c);
    HeaderCopied(h, live, m, k, t);
    assert w'.adr - 1 == NewAdr(h, live, k) + (t - h.blocks[k].pos);
    if h.blocks[k].size > 0 {
      SlidesDown(h, live, k);
      InsideHeap(h, NewChunk(h, live, k), w'.adr);
    }
  }

  lemma InsideHeap(h: Heap, j: int, a: int)
    requires 0 <= j < |h.chunks| && h.chunks[j].start <= a < h.chunks[j].End()
    ensures InHeap(h.chunks, a)
  {
  }

  // ---- Paths --------------------------------------------------------------------------------------------------------

  /** The pointer in a scanned word has a field number `i` after the compaction if and only if it had one before. */
  lemma FieldsAlike(h: Heap, live: seq<bool>, m: seq<Word>, c: int, i: nat)
    requires WellFormed(h) && Compacted(h, live, m) && Scanned(h, c) && 0 <= c < |h.g.o|
    ensures |live| == |h.blocks| && |m| == |h.g.o|
    ensures HasField(h.g.o, h.chunks, h.g.o[c], i) <==> HasField(m, h.chunks, RelocW(h, live, c), i)
    ensures HasField(h.g.o, h.chunks, h.g.o[c], i) ==>
              var c1 := Head(h.g.o, h.g.o[c].adr) + 1 + i;
              Scanned(h, c1) && 0 <= c1 < |h.g.o| &&
              m[Head(m, RelocW(h, live, c).adr) + 1 + i] == RelocW(h, live, c1)
  {
    hide WellFormed, Compacted, Scanned, RelocW, NewAdr, Cell, InHeap;
    ScannedMatches(h, live, m, c);
    var w, w' := h.g.o[c], RelocW(h, live, c);
    if w.Ptr? && InHeap(h.chunks, w.adr) {
      var k :| PointsInto(h, live, m, w, w', k);
      ScannedCell(h, c);
      HeadArrives(h, live, m, c, w', k);
      HeaderWord(h, k);
      if h.blocks[k].tag < 251 && i < h.blocks[k].size { FieldArrives(h, live, m, k, i); }
    }
  }

  lemma ScannedCell(h: Heap, c: int)
    requires WellFormed(h) && Scanned(h, c) && 0 <= c < |h.g.o| && h.g.o[c].Ptr? && InHeap(h.chunks, h.g.o[c].adr)
    ensures Cell(h.g, c)
  {
    assert HeapPtr(h, c);
  }

  lemma HeaderWord(h: Heap, k: int)
    requires WellFormed(h) && 0 <= k < |h.blocks|
    ensures var p := h.blocks[k].pos;
            0 <= p < |h.g.o| && h.g.o[p] == Hd(h.blocks[k].size, h.blocks[k].tag, h.blocks[k].color) &&
            h.blocks[k].End() <= |h.g.o|
  {
    assert Tile(h, k);
    assert h.g.hd[h.blocks[k].pos] == h.blocks[k];
  }

  /** Any path reads from a scanned word a match of what it read before, and nothing where it read nothing. */
  lemma {:induction false} ScannedReads(h: Heap, live: seq<bool>, m: seq<Word>, c: int, path: seq<nat>)
    requires WellFormed(h) && Compacted(h, live, m) && Scanned(h, c) && 0 <= c < |h.g.o|
    ensures |live| == |h.blocks| && ReadAlike(h, live, m, h.g.o[c], RelocW(h, live, c), path)
    decreases |path|
  {
    hide WellFormed, Compacted, Scanned, RelocW, WordMatch, InHeap;
    if path == [] {
      ScannedMatches(h, live, m, c);
    } else {
      FieldsAlike(h, live, m, c, path[0]);
      if HasField(h.g.o, h.chunks, h.g.o[c], path[0]) {
        var c1 := Head(h.g.o, h.g.o[c].adr) + 1 + path[0];
        ScannedReads(h, live, m, c1, path[1..]);
        PathStep(h, live, m, h.g.o[c], RelocW(h, live, c), path);
      }
    }
  }

  lemma PathStep(h: Heap, live: seq<bool>, m: seq<Word>, w: Word, w': Word, path: seq<nat>)
    requires path != [] && HasField(h.g.o, h.chunks, w, path[0]) && HasField(m, h.chunks, w', path[0])
    requires ReadAlike(h, live, m, h.g.o[Head(h.g.o, w.adr) + 1 + path[0]], m[Head(m, w'.adr) + 1 + path[0]], path[1..])
    ensures ReadAlike(h, live, m, w, w', path)
  {
    hide WordMatch, InHeap;
    var v, v' := h.g.o[Head(h.g.o, w.adr) + 1 + path[0]], m[Head(m, w'.adr) + 1 + path[0]];
    forall x {:trigger Reads(h.g.o, h.chunks, w, path, x)} | Reads(h.g.o, h.chunks, w, path, x)
      ensures exists x' :: Reads(m, h.chunks, w', path, x') && WordMatch(h, live, m, x, x')
    {
      assert Reads(h.g.o, h.chunks, v, path[1..], x);
      var x' :| Reads(m, h.chunks, v', path[1..], x') && WordMatch(h, live, m, x, x');
      assert Reads(m, h.chunks, w', path, x');
    }
    forall x' {:trigger Reads(m, h.chunks, w', path, x')} | Reads(m, h.chunks, w', path, x')
      ensures exists x :: Reads(h.g.o, h.chunks, w, path, x) && WordMatch(h, live, m, x, x')
    {
      assert Reads(m, h.chunks, v', path[1..], x');
      var x :| Reads(h.g.o, h.chunks, v, path[1..], x) && WordMatch(h, live, m, x, x');
      assert Reads(h.g.o, h.chunks, w, path, x);
    }
  }

  ghost predicate ReadAlike(h: Heap, live: seq<bool>, m: seq<Word>, w: Word, w': Word, path: seq<nat>) {
    && (forall x {:trigger Reads(h.g.o, h.chunks, w, path, x)} :: Reads(h.g.o, h.chunks, w, path, x) ==>
          exists x' :: Reads(m, h.chunks, w', path, x') && WordMatch(h, live, m, x, x'))
    && (forall x' {:trigger Reads(m, h.chunks, w', path, x')} :: Reads(m, h.chunks, w', path, x') ==>
          exists x :: Reads(h.g.o, h.chunks, w, path, x) && WordMatch(h, live, m, x, x'))
  }

  /**
   * From every root, every path reads alike before and after the compaction; a pointer that is read leads to the same
   * place of a block that has moved whole.
   */
  lemma RootsRead(h: Heap, live: seq<bool>, m: seq<Word>, i: nat, path: seq<nat>)
    requires WellFormed(h) && Compacted(h, live, m) && i < |h.roots|
    ensures 0 <= h.roots[i] < |h.g.o| == |m| && ReadAlike(h, live, m, h.g.o[h.roots[i]], m[h.roots[i]], path)
  {
    var c := h.roots[i];
    assert 0 <= c < |h.g.o| && !InHeap(h.chunks, c) && c in h.roots;
    assert m[c] == RelocW(h, live, c);
    ScannedReads(h, live, m, c, path);
  }

  /** Blocks of data, weak arrays apart, keep their words. */
  lemma DataKept(h: Heap, live: seq<bool>, m: seq<Word>, k: int, i: nat)
    requires WellFormed(h) && Compacted(h, live, m) && 0 <= k < |live| && live[k] && i < h.blocks[k].size
    requires h.blocks[k].tag >= 251 && h.blocks[k].pos + 1 !in h.weak
    ensures var c, c' := h.blocks[k].pos + 1 + i, NewAdr(h, live, k) + 1 + i;
            0 <= c < |h.g.o| && 0 <= c' < |m| && m[c'] == h.g.o[c]
  {
    HeaderArrives(h, live, m, k);
    var c, c' := h.blocks[k].pos + 1 + i, NewAdr(h, live, k) + 1 + i;
    assert m[c'] == RelocW(h, live, c' - NewAdr(h, live, k) + h.blocks[k].pos);
    assert FieldOf(h, c, k);
    hide Compacted;
    NotScanned(h, k, c);
  }

  lemma NotScanned(h: Heap, k: int, c: int)
    requires WellFormed(h) && FieldOf(h, c, k) && h.blocks[k].tag >= 251 && h.blocks[k].pos + 1 !in h.weak
    ensures !Scanned(h, c)
  {
    FieldNotHeader(h, c, k);
    if ScanField(h, c) {
      var j :| FieldOf(h, c, j) && Scannable(h.blocks[j]);
      FieldUnique(h, c, j, k);
    }
    if WeakSlot(h, c) {
      var i :| 0 <= i < |h.weak| && WeakSlotOf(h, c, i);
      var j := h.g.hd[h.weak[i] - 1].idx;
      assert h.blocks[j] == h.g.hd[h.weak[i] - 1] && FieldOf(h, c, j);
      FieldUnique(h, c, j, k);
    }
  }

  /** A weak array is reached from the list. */
  lemma ArrayLive(h: Heap, live: seq<bool>, m: seq<Word>, i: nat) returns (k: nat)
    requires WellFormed(h) && Compacted(h, live, m) && i < |h.weak|
    ensures k < |live| && live[k] && h.blocks[k].pos == h.weak[i] - 1
    ensures h.weak[i] - 1 in h.g.hd && h.blocks[k] == h.g.hd[h.weak[i] - 1]
  {
    hide Compacted, BlockCompacted, RelocW, Scanned;
    var p := h.weak[i] - 1;
    k := h.g.hd[p].idx;
    assert h.blocks[k] == h.g.hd[p] && h.blocks[k].size > 0;
    var link := LinkCell(h, i);
    assert h.g.o[link] == Ptr(h.weak[i]);
    LinkScanned(h, i);
    assert InHeap(h.chunks, h.weak[i]) by { FieldNotHeader(h, h.weak[i], k); }
    assert HeapPtr(h, link) && Owner(h.g, Target(h.g, link)) == p;
    assert Referenced(h, k);
    LiveIf(h, live, m, k);
  }

  lemma LiveIf(h: Heap, live: seq<bool>, m: seq<Word>, k: nat)
    requires Compacted(h, live, m) && Referenced(h, k)
    ensures k < |live| && live[k]
  {
  }

  /** The weak list and the words of weak arrays match too, and the arrays survive. */
  lemma WeakKept(h: Heap, live: seq<bool>, m: seq<Word>, i: nat)
    requires WellFormed(h) && Compacted(h, live, m) && i < |h.weak|
    ensures 0 <= h.weakHead < |h.g.o| == |m| && WordMatch(h, live, m, h.g.o[h.weakHead], m[h.weakHead])
    ensures exists k :: ArrayArrived(h, live, m, i, k)
  {
    hide WellFormed, Compacted, BlockCompacted, WordMatch, NewAdr, RelocW;
    HeadKept(h, live, m);
    var k := ArrayLive(h, live, m, i);
    HeaderArrives(h, live, m, k);
    forall j {:trigger SlotArrived(h, live, m, i, k, j)} | 0 <= j < h.blocks[k].size
      ensures SlotArrived(h, live, m, i, k, j)
    {
      WeakWord(h, live, m, i, k, j);
    }
    assert Arrived(h, live, m, k) && h.blocks[k].pos == h.weak[i] - 1;
    assert ArrayArrived(h, live, m, i, k);
  }

  /** Weak array number `i` of the list is block `k`, has moved, and its words match. */
  ghost predicate ArrayArrived(h: Heap, live: seq<bool>, m: seq<Word>, i: nat, k: int) {
    && i < |h.weak| && Arrived(h, live, m, k) && h.blocks[k].pos == h.weak[i] - 1
    && forall j {:trigger SlotArrived(h, live, m, i, k, j)} :: 0 <= j < h.blocks[k].size ==>
         SlotArrived(h, live, m, i, k, j)
  }

  ghost predicate SlotArrived(h: Heap, live: seq<bool>, m: seq<Word>, i: nat, k: int, j: int)
    requires i < |h.weak| && 0 <= k < |h.blocks| == |live|
  {
    && 0 <= h.weak[i] + j < |h.g.o| && 0 <= NewAdr(h, live, k) + 1 + j < |m|
    && WordMatch(h, live, m, h.g.o[h.weak[i] + j], m[NewAdr(h, live, k) + 1 + j])
  }

  lemma HeadKept(h: Heap, live: seq<bool>, m: seq<Word>)
    requires WellFormed(h) && Compacted(h, live, m)
    ensures 0 <= h.weakHead < |h.g.o| == |m| && WordMatch(h, live, m, h.g.o[h.weakHead], m[h.weakHead])
  {
    assert Scanned(h, h.weakHead);
    assert m[h.weakHead] == RelocW(h, live, h.weakHead);
    hide Scanned, RelocW;
    ScannedMatches(h, live, m, h.weakHead);
  }

  lemma LinkScanned(h: Heap, i: nat)
    requires WellFormed(h) && i < |h.weak|
    ensures Scanned(h, LinkCell(h, i))
  {
    if i > 0 { assert WeakSlotOf(h, h.weak[i - 1], i - 1); }
  }

  lemma WeakWord(h: Heap, live: seq<bool>, m: seq<Word>, i: nat, k: int, j: nat)
    requires WellFormed(h) && Compacted(h, live, m) && i < |h.weak| && 0 <= k < |live| && live[k]
    requires h.weak[i] - 1 in h.g.hd && h.blocks[k] == h.g.hd[h.weak[i] - 1] && h.blocks[k].pos == h.weak[i] - 1
    requires j < h.blocks[k].size
    ensures 0 <= h.weak[i] + j < |h.g.o| && 0 <= NewAdr(h, live, k) + 1 + j < |m|
    ensures WordMatch(h, live, m, h.g.o[h.weak[i] + j], m[NewAdr(h, live, k) + 1 + j])
  {
    HeaderArrives(h, live, m, k);
    var c, c' := h.weak[i] + j, NewAdr(h, live, k) + 1 + j;
    assert WeakSlotOf(h, c, i);
    assert m[c'] == RelocW(h, live, c' - NewAdr(h, live, k) + h.blocks[k].pos);
    hide Compacted, RelocW;
    ScannedMatches(h, live, m, c);
  }

  // ---- Sharing, and what survives -----------------------------------------------------------------------------------

  lemma RelocShares(h: Heap, live: seq<bool>, m: seq<Word>, c: int, d: int)
    requires WellFormed(h) && Compacted(h, live, m) && Scanned(h, c) && Scanned(h, d) && HeapPtr(h, c) && HeapPtr(h, d)
    ensures |live| == |h.blocks| && (h.g.o[c] == h.g.o[d] <==> RelocW(h, live, c) == RelocW(h, live, d))
  {
    hide Compacted, Scanned, Referenced, InHeap, NewAdr, Owner;
    var j := ScannedBlock(h, c);
    var k := ScannedBlock(h, d);
    LiveIf(h, live, m, j);
    LiveIf(h, live, m, k);
    ScannedCell(h, c);
    ScannedCell(h, d);
    TargetInside(h, c, j);
    TargetInside(h, d, k);
    ScannedMatches(h, live, m, c);
    ScannedMatches(h, live, m, d);
    if j < k { Disjoint(h, live, j, k); } else if k < j { Disjoint(h, live, k, j); }
  }

  /** Word `c` is a field of block `j`, which is white and of tag below 251. */
  ghost predicate WordOfBlock(h: Heap, c: int, j: int) {
    && 0 <= j < |h.blocks| && h.blocks[j].pos < c <= h.blocks[j].pos + h.blocks[j].size
    && h.blocks[j].color.White? && h.blocks[j].tag < 251
  }

  /** Word `c` belongs to weak array number `i`. */
  ghost predicate WordOfArray(h: Heap, c: int, i: int) {
    && 0 <= i < |h.weak| && 1 <= h.weak[i] <= |h.g.o| && h.g.o[h.weak[i] - 1].Hd?
    && h.weak[i] <= c < h.weak[i] + h.g.o[h.weak[i] - 1].size
  }

  /** A root, a field of a block, the head of the weak list, or a word of a weak array. */
  ghost predicate Watched(h: Heap, c: int) {
    c in h.roots || c == h.weakHead || (exists j :: WordOfBlock(h, c, j)) || (exists i :: WordOfArray(h, c, i))
  }

  /** A pointer in such a word leads to the block at `p`. */
  ghost predicate PointedAt(h: Heap, c: int, p: int) {
    && Watched(h, c)
    && 0 <= c < |h.g.o| && h.g.o[c].Ptr? && InHeap(h.chunks, h.g.o[c].adr) && Head(h.g.o, h.g.o[c].adr) == p
  }

  /** Two pointers are the same after the compaction if and only if they were before. */
  lemma SharingKept(h: Heap, live: seq<bool>, m: seq<Word>, c: int, d: int, u: Word, w: Word)
    requires WellFormed(h) && Compacted(h, live, m) && Watched(h, c) && Watched(h, d)
    requires 0 <= c < |h.g.o| && h.g.o[c].Ptr? && InHeap(h.chunks, h.g.o[c].adr) && WordMatch(h, live, m, h.g.o[c], u)
    requires 0 <= d < |h.g.o| && h.g.o[d].Ptr? && InHeap(h.chunks, h.g.o[d].adr) && WordMatch(h, live, m, h.g.o[d], w)
    ensures h.g.o[c] == h.g.o[d] <==> u == w
  {
    hide Compacted, WellFormed, Scanned, Watched, InHeap, RelocW;
    WatchedScanned(h, c);
    WatchedScanned(h, d);
    RelocShares(h, live, m, c, d);
    MatchIs(h, live, m, c, u);
    MatchIs(h, live, m, d, w);
  }

  lemma MatchIs(h: Heap, live: seq<bool>, m: seq<Word>, c: int, u: Word)
    requires WellFormed(h) && Compacted(h, live, m) && Scanned(h, c) && HeapPtr(h, c)
    requires WordMatch(h, live, m, h.g.o[c], u)
    ensures |live| == |h.blocks| && u == RelocW(h, live, c)
  {
    hide Compacted, Scanned, InHeap, RelocW, NewAdr;
    ScannedMatches(h, live, m, c);
    var j :| PointsInto(h, live, m, h.g.o[c], u, j);
    var k :| PointsInto(h, live, m, h.g.o[c], RelocW(h, live, c), k);
    assert h.g.hd[h.blocks[j].pos] == h.blocks[j] && h.g.hd[h.blocks[k].pos] == h.blocks[k];
  }

  /** A block survives if and only if such a pointer leads to it. */
  lemma SurvivesIff(h: Heap, live: seq<bool>, m: seq<Word>, k: int)
    requires WellFormed(h) && Compacted(h, live, m) && 0 <= k < |h.blocks|
    ensures |live| == |h.blocks| && (live[k] <==> exists c :: PointedAt(h, c, h.blocks[k].pos))
  {
    hide Compacted, WellFormed, Scanned, Watched, InHeap, Owner, Target;
    LiveIs(h, live, m, k);
    var p := h.blocks[k].pos;
    if Referenced(h, k) {
      var c :| Scanned(h, c) && HeapPtr(h, c) && Owner(h.g, Target(h.g, c)) == p;
      WatchedScanned(h, c);
      var j := ScannedBlock(h, c);
      assert PointedAt(h, c, p);
    }
    if exists c :: PointedAt(h, c, p) {
      var c :| PointedAt(h, c, p);
      WatchedScanned(h, c);
      var j := ScannedBlock(h, c);
      assert HeapPtr(h, c) && Owner(h.g, Target(h.g, c)) == p;
    }
  }

  lemma LiveIs(h: Heap, live: seq<bool>, m: seq<Word>, k: int)
    requires Compacted(h, live, m) && 0 <= k < |h.blocks|
    ensures |live| == |h.blocks| && (live[k] <==> Referenced(h, k))
  {
  }

  lemma WatchedScanned(h: Heap, c: int)
    requires WellFormed(h)
    ensures Scanned(h, c) <==> Watched(h, c)
  {
    if WeakSlot(h, c) {
      var i :| 0 <= i < |h.weak| && WeakSlotOf(h, c, i);
      assert WordOfArray(h, c, i);
    }
    if ScanField(h, c) {
      var j :| FieldOf(h, c, j) && Scannable(h.blocks[j]);
      assert WordOfBlock(h, c, j);
    }
    if j :| WordOfBlock(h, c, j) { assert FieldOf(h, c, j) && Scannable(h.blocks[j]); }
    if i :| WordOfArray(h, c, i) {
      assert h.weak[i] - 1 in h.g.hd;
      assert WeakSlotOf(h, c, i);
    }
  }
}
