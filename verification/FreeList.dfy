/** The allocator and the sweeper as they run. */
module FreeList {
  import opened FreeSpec
  import FreeAlloc
  import FreeMerge
  import FreeAdd

  class Allocator {
    var heap: Heap
    var chunks: seq<Chunk>
    var list: seq<int>
    var flPrev: int
    var flLast: int
    var flMerge: int
    var flCurSize: nat
    var lastFragment: int
    var sweeping: bool
    var sweepHp: int

    /** What holds between any two operations, sweeping or not. */
    ghost predicate Valid()
      reads this
    {
      && Tiled(heap, chunks) && Separate(heap, chunks) && Housed(heap, chunks) && Distinct(chunks) && Spread(heap)
      && Listed(heap, list) && flCurSize == Sum(heap, list) && OnList(list, flPrev)
      && (sweeping ==> SweepOk(heap, chunks, list, flMerge, sweepHp, lastFragment))
    }

    /** The first chunk, all free. */
    constructor (b: int, size: nat)
      requires b > 0 && size > 0
      ensures Valid() && !sweeping && heap == map[b := Blk(size, Blue)] && chunks == [Chunk(b, b + 1 + size)]
    {
      heap, chunks, list := map[b := Blk(size, Blue)], [Chunk(b, b + 1 + size)], [b];
      flPrev, flLast, flMerge, flCurSize := 0, 0, 0, 1 + size;
      lastFragment, sweeping, sweepHp := -1, false, 0;
      new;
      FirstChunk(b, size);
    }

    /** `allocation_color`, and `Caml_white` out of the sweep phase. */
    function ColorFor(r: int): Color
      reads this
    {
      if sweeping && r >= sweepHp then Black else White
    }

    /** `fl_allocate`, with the header that its caller then sets; zero stands for NULL. */
    method Allocate(wo: nat) returns (r: int, ghost c: int)
      requires Valid() && wo >= 1
      modifies this
      ensures Valid() && sweeping == old(sweeping) && sweepHp == old(sweepHp) && chunks == old(chunks)
      ensures r == 0 <==> forall a {:trigger a in old(heap)} :: a in old(heap) && old(heap)[a].color.Blue? ==>
              old(heap)[a].size < wo
      ensures r == 0 ==> heap == old(heap) && list == old(list) && flLast == At(list, |list|) && flPrev == old(flPrev)
      ensures r != 0 ==> c in old(heap) && old(heap)[c].color.Blue? && c <= r && r + 1 + wo == End(old(heap), c)
      ensures r != 0 ==> heap == Split(old(heap), c, r, old(ColorFor(r)))
      ensures r != 0 ==> FirstFrom(old(heap), old(flPrev), c, wo) && Before(old(heap), flPrev, c)
    {
      hide Spread, Tiled, Separate, Housed, Sum, SweepOk, Split, Distinct, FirstFrom, Before, At, OnList, Pos;
      PosOf(heap, chunks, list, flPrev);
      var p := Pos(list, flPrev);
      r, c := 0, 0;
      var i := p;
      while i < |list|
        invariant p <= i <= |list| && Small(heap, list, p, i, wo)
        invariant heap == old(heap) && list == old(list)
      {
        assert list[i] in heap;
        if heap[list[i]].size >= wo {
          c := list[i];
          FirstFit(heap, chunks, list, flPrev, p, i, wo);
          r := AllocateBlock(i, wo);
          FoundBlue(old(heap), old(chunks), old(list), i, wo);
          return;
        }
        i := i + 1;
      }
      flLast := At(list, |list|);
      i := 0;
      while i < p
        invariant 0 <= i <= p && Small(heap, list, 0, i, wo) && Small(heap, list, p, |list|, wo)
        invariant heap == old(heap) && list == old(list)
      {
        assert list[i] in heap;
        if heap[list[i]].size >= wo {
          c := list[i];
          FirstFit(heap, chunks, list, flPrev, p, i, wo);
          r := AllocateBlock(i, wo);
          FoundBlue(old(heap), old(chunks), old(list), i, wo);
          return;
        }
        i := i + 1;
      }
      AllSmall(heap, list, p, wo);
    }

    /** `allocate_block`: the new block is the end of node `i`. */
    method AllocateBlock(i: nat, wo: nat) returns (r: int)
      requires Valid() && wo >= 1 && i < |list| && list[i] in heap && heap[list[i]].size >= wo
      modifies this
      ensures Valid() && sweeping == old(sweeping) && sweepHp == old(sweepHp) && chunks == old(chunks)
      ensures var c := old(list[i]);
              c in old(heap) && r == c + old(heap)[c].size - wo && c <= r < End(old(heap), c) &&
              heap == Split(old(heap), c, r, old(ColorFor(r)))
      ensures flPrev == At(old(list), i)
    {
      hide Spread, Tiled, Separate, Housed, Listed, Sum, SweepOk, Split, FreeAlloc.ListAfter, At, OnList, Distinct;
      var c := list[i];
      var size := heap[c].size;
      r := c + size - wo;
      ghost var h, l, m := heap, list, flMerge;
      var color := ColorFor(r);
      Facts(h, chunks, l, i, wo, color, c, r);
      if sweeping { FreeAlloc.SplitSweep(h, chunks, l, i, wo, color, c, r, m, sweepHp, lastFragment); }
      flPrev := At(list, i);
      if size < wo + 2 {
        flCurSize := flCurSize - (1 + size);
        list := list[..i] + list[i + 1..];
        if flMerge == c {
          flMerge := flPrev;
        }
      } else {
        flCurSize := flCurSize - (wo + 1);
      }
      heap := Split(heap, c, r, color);
    }

    /** The chunk that follows word `x`, if any: the one with the least address from `x` on. */
    method NextChunk(x: int) returns (found: bool, lo: int)
      ensures found ==> IsStart(chunks, lo) && lo >= x
      ensures forall c {:trigger c in chunks} :: c in chunks && c.lo >= x ==> found && lo <= c.lo
    {
      found, lo := false, 0;
      var i := 0;
      while i < |chunks|
        invariant 0 <= i <= |chunks|
        invariant found ==> IsStart(chunks, lo) && lo >= x
        invariant forall j {:trigger chunks[j]} :: 0 <= j < i && chunks[j].lo >= x ==> found && lo <= chunks[j].lo
      {
        if chunks[i].lo >= x && (!found || chunks[i].lo < lo) {
          found, lo := true, chunks[i].lo;
          assert chunks[i] in chunks;
        }
        i := i + 1;
      }
    }

    /** `fl_init_merge` and the start of the sweep phase. */
    method StartSweep()
      requires Valid() && !sweeping
      modifies this
      ensures Valid() && heap == old(heap) && list == old(list) && chunks == old(chunks)
      ensures sweeping ==> forall a {:trigger a in heap} :: a in heap ==> a >= sweepHp
      ensures !sweeping ==> heap == map[]
    {
      hide Spread, Tiled, Separate, Listed, Sum, SweepOk, OnList, Housed, Distinct;
      lastFragment, flMerge := -1, 0;
      var found, lo := NextChunk(0);
      if found {
        sweepHp := lo;
        sweeping := true;
        SweepFrom(heap, chunks, list, lo);
      } else {
        NoChunk(heap, chunks);
      }
    }

    /** `fl_merge_block` on the white block that the sweep has got to. */
    method MergeBlock()
      requires Valid() && sweeping && sweepHp in heap && heap[sweepHp].color.White?
      modifies this
      ensures Valid() && sweeping && chunks == old(chunks)
      ensures Merged(old(heap), old(list), old(flMerge), old(sweepHp), old(lastFragment), heap, sweepHp)
    {
      hide Spread, Tiled, Separate, Housed, Listed, Sum, SweepOk, OnList, Joined, At, Pos, Joins, Distinct;
      hide FreeMerge.Sweepable, FreeMerge.ListAfter, FreeMerge.Start, FreeMerge.Stop, FreeMerge.RunColor,
           FreeMerge.Gain;
      ghost var h, cs, l, x, f, k := heap, chunks, list, sweepHp, lastFragment, Pos(list, flMerge);
      MergeReady(h, cs, l, flMerge, x, f);
      var skip := Skips(h, l, k, x);
      MergeComputed(h, cs, l, k, x, f, RunFrom(f, x), skip, RunEnd(h, l, k, x), if skip then l[k + 1..] else l[k..]);
      MergeFacts(h, cs, l, k, x, f, flPrev, skip);
      MergeRaw();
    }

    /** What `fl_merge_block` does, whatever the state of the list: it links the run after `fl_merge`. */
    method MergeRaw()
      requires sweepHp in heap && (Pos(list, flMerge) < |list| ==> list[Pos(list, flMerge)] in heap)
      modifies this
      ensures chunks == old(chunks) && sweeping == old(sweeping)
      ensures var h, l, x, k := old(heap), old(list), old(sweepHp), Pos(old(list), old(flMerge));
              var bp, skip, adj := RunFrom(old(lastFragment), x), Skips(h, l, k, x), RunEnd(h, l, k, x);
              var joins, above := Joins(h, l, k, bp), if skip then l[k + 1..] else l[k..];
              && sweepHp == adj
              && flPrev == (if skip && old(flPrev) == l[k] then At(l, k) else old(flPrev))
              && flCurSize == old(flCurSize) + 1 + h[x].size + (if old(lastFragment) + 1 == x then 1 else 0)
                              - (if joins || adj > bp + 1 then 0 else 1)
              && heap == Joined(h, if joins then At(l, k) else bp, adj, if joins || adj > bp + 1 then Blue else White)
              && list == (if joins || adj == bp + 1 then l[..k] + above else l[..k] + [bp] + above)
              && flMerge == (if joins || adj == bp + 1 then old(flMerge) else bp)
              && lastFragment == (if joins || adj > bp + 1 then old(lastFragment) else bp)
    {
      hide Joined, Joins, At, Pos;
      var b, size := sweepHp, heap[sweepHp].size;
      var k := Pos(list, flMerge);
      flCurSize := flCurSize + 1 + size;
      var bp := b;
      if lastFragment + 1 == b {
        bp, size := lastFragment, size + 1;
        flCurSize := flCurSize + 1;
      }
      var adj, above := bp + 1 + size, list[k..];
      var skip := k < |list| && adj == list[k];
      if skip {
        size := size + 1 + heap[list[k]].size;
        adj, above := bp + 1 + size, list[k + 1..];
      }
      MergeLinks(k, bp, size, adj, above, skip);
    }

    /**
     * The second half of `fl_merge_block`: the run from `bp` to `adj` joins the block before it, is linked, or stays a
     * fragment.
     */
    method MergeLinks(k: nat, bp: int, size: nat, adj: int, above: seq<int>, skip: bool)
      requires k <= |list| && (skip ==> k < |list|) && flCurSize >= 1
      modifies this
      ensures chunks == old(chunks) && sweeping == old(sweeping) && sweepHp == adj
      ensures flPrev == if skip && old(flPrev) == old(list)[k] then At(old(list), k) else old(flPrev)
      ensures flCurSize == old(flCurSize) - if Joins(old(heap), old(list), k, bp) || size != 0 then 0 else 1
      ensures heap == Joined(old(heap), if Joins(old(heap), old(list), k, bp) then At(old(list), k) else bp, adj,
                             if Joins(old(heap), old(list), k, bp) || size != 0 then Blue else White)
      ensures list == if Joins(old(heap), old(list), k, bp) || size == 0 then old(list)[..k] + above
              else old(list)[..k] + [bp] + above
      ensures flMerge == if Joins(old(heap), old(list), k, bp) || size == 0 then old(flMerge) else bp
      ensures lastFragment == if Joins(old(heap), old(list), k, bp) || size != 0 then old(lastFragment) else bp
    {
      hide Joined, Joins, At;
      if skip && flPrev == list[k] {
        flPrev := At(list, k);
      }
      if Joins(heap, list, k, bp) {
        heap := Joined(heap, At(list, k), adj, Blue);
        list := list[..k] + above;
      } else if size != 0 {
        heap := Joined(heap, bp, adj, Blue);
        list := list[..k] + [bp] + above;
        flMerge := bp;
      } else {
        heap := Joined(heap, bp, adj, White);
        list := list[..k] + above;
        lastFragment := bp;
        flCurSize := flCurSize - 1;
      }
      sweepHp := adj;
    }

    /** One iteration of the loop of `sweep_slice`. */
    method SweepStep()
      requires Valid() && sweeping
      modifies this
      ensures Valid() && chunks == old(chunks)
      ensures SweptMore(old(heap), old(list), old(flMerge), old(sweepHp), old(lastFragment), heap, sweeping, sweepHp)
      ensures !sweeping ==> Swept(heap)
    {
      hide Spread, Tiled, Separate, Housed, Listed, Sum, SweepOk, OnList, Joined, Merged, Swept, Distinct;
      if sweepHp in heap {
        match heap[sweepHp].color
        case White => MergeBlock();
        case Blue =>
          SweepBlue(heap, chunks, list, flMerge, sweepHp, lastFragment);
          flMerge := sweepHp;
          sweepHp := sweepHp + 1 + heap[sweepHp].size;
        case Black =>
          SweepBlack(heap, chunks, list, flMerge, sweepHp, lastFragment);
          var size := heap[sweepHp].size;
          heap := heap[sweepHp := Blk(size, White)];
          sweepHp := sweepHp + 1 + size;
      } else {
        AtChunkEnd(heap, chunks, list, flMerge, sweepHp, lastFragment);
        var found, lo := NextChunk(sweepHp);
        if found {
          GapFacts(heap, chunks, sweepHp, lo);
          SweepJump(heap, chunks, list, flMerge, sweepHp, lastFragment, lo);
          sweepHp := lo;
        } else {
          LastChunk(heap, chunks, sweepHp);
          SweptAll(heap, chunks, list, flMerge, sweepHp, lastFragment);
          sweeping := false;
        }
      }
    }

    /**
     * `fl_add_block`, just after an allocation failed: a new chunk, all free. It keeps the state in order unless it
     * appends the chunk to the list although the sweep is past it.
     */
    method AddBlock(b: int, size: nat)
      requires Valid() && flLast == At(list, |list|) && FreeAdd.Apart(heap, chunks, b, size)
      modifies this
      ensures heap == old(heap)[b := Blk(size, Blue)] && chunks == old(chunks) + [Chunk(b, b + 1 + size)]
      ensures flCurSize == old(flCurSize) + 1 + size && sweeping == old(sweeping) && sweepHp == old(sweepHp)
      ensures Valid() <==> !(old(sweeping) && old(flLast) < b < old(sweepHp))
      ensures b > old(flLast) ==>
              list == old(list) + [b] && flMerge == old(flMerge) && lastFragment == old(lastFragment)
    {
      hide Spread, Tiled, Separate, Housed, Listed, Sum, OnList, FreeAdd.Apart, Distinct;
      hide Boundary, LastBelow, Coalesced, Whitened, FragmentAt, Clear;
      ghost var h, cs, l := heap, chunks, list;
      var j := |list|;
      if b > flLast {
        LastIsLargest(h, l, b);
        list := list + [b];
        assert l[..j] + [b] + l[j..] == list;
      } else {
        j := 0;
        while j < |list| && list[j] < b
          invariant 0 <= j <= |list| && forall i {:trigger list[i]} :: 0 <= i < j ==> list[i] < b
        {
          j := j + 1;
        }
        CutHere(h, l, j, b);
        if At(list, j) == flMerge && b < sweepHp {
          flMerge := b;
        }
        list := list[..j] + [b] + list[j..];
      }
      flCurSize := flCurSize + 1 + size;
      heap := heap[b := Blk(size, Blue)];
      chunks := chunks + [Chunk(b, b + 1 + size)];
      AddFacts(h, cs, l, j, b, size, chunks, flPrev);
      if sweeping {
        AddSwept(h, cs, l, j, b, size, chunks, old(flMerge), sweepHp, lastFragment);
        if b > flLast { AppendFails(h, cs, l, b, size, old(flMerge), sweepHp); }
      }
    }
  }

  lemma FirstChunk(b: int, size: nat)
    requires b > 0 && size > 0
    ensures var h, cs := map[b := Blk(size, Blue)], [Chunk(b, b + 1 + size)];
            && Tiled(h, cs) && Separate(h, cs) && Housed(h, cs) && Distinct(cs) && Spread(h) && Listed(h, [b])
            && Sum(h, [b]) == 1 + size && OnList([b], 0)
  {
    var h, cs := map[b := Blk(size, Blue)], [Chunk(b, b + 1 + size)];
    var c := Chunk(b, b + 1 + size);
    assert c in cs && c.hi == End(h, b);
    assert [b][0] == b && [b][1..] == [] && At([b], 0) == 0;
    assert InChunk(cs, b);
  }

  /** Where the run to free starts: at the block, or at the fragment before it. */
  function RunFrom(frag: int, x: int): int { if frag + 1 == x then frag else x }

  /** The next free block starts where the block at `x` ends. */
  predicate Skips(h: Heap, list: seq<int>, k: nat, x: int) { k < |list| && x in h && x + 1 + h[x].size == list[k] }

  function RunEnd(h: Heap, list: seq<int>, k: nat, x: int): int {
    if x !in h then x
    else x + 1 + h[x].size + if Skips(h, list, k, x) && list[k] in h then 1 + h[list[k]].size else 0
  }

  lemma AppendFails(h: Heap, cs: seq<Chunk>, list: seq<int>, b: int, size: nat, merge: int, x: int)
    requires Tiled(h, cs) && Listed(h, list) && LastBelow(list, merge, x) && FreeAdd.Apart(h, cs, b, size) &&
             Cut(list, |list|, b)
    ensures LastBelow(list + [b], merge, x) <==> b >= x
  {
    hide LastBelow;
    if |list| > 0 { assert list[0] in h; }
    FreeAdd.AppendLast(list, merge, x, b);
  }

  /** A node of the list, or its head. */
  ghost predicate OnList(list: seq<int>, a: int) { exists k :: 0 <= k <= |list| && a == At(list, k) }

  /** Nodes `i` to `j` are too small. */
  ghost predicate Small(h: Heap, list: seq<int>, i: int, j: int, wo: nat) {
    0 <= i && j <= |list| && forall k {:trigger list[k]} :: i <= k < j ==> list[k] in h && h[list[k]].size < wo
  }

  /**
   * Searching the free blocks from address `from` on, and then from the first one, block `c` is the first that fits.
   */
  ghost predicate FirstFrom(h: Heap, from: int, c: int, wo: nat) {
    forall a {:trigger h[a]} :: a in h && h[a].color.Blue? && h[a].size >= wo ==>
      if c > from then a <= from || a >= c else c <= a <= from
  }

  /** The next search starts after `prev`: the free block before `c`, or the head of the list. */
  ghost predicate Before(h: Heap, prev: int, c: int) {
    && prev < c && (prev == 0 || (prev in h && h[prev].color.Blue?))
    && forall a {:trigger h[a]} :: a in h && h[a].color.Blue? && a < c ==> a <= prev
  }

  lemma FirstFit(h: Heap, cs: seq<Chunk>, list: seq<int>, from: int, p: nat, i: nat, wo: nat)
    requires Tiled(h, cs) && Listed(h, list) && p <= |list| && At(list, p) == from && i < |list|
    requires if i >= p then Small(h, list, p, i, wo) else Small(h, list, 0, i, wo) && Small(h, list, p, |list|, wo)
    ensures FirstFrom(h, from, list[i], wo) && Before(h, At(list, i), list[i])
  {
    hide Tiled;
    FirstPositive(h, cs, list);
    forall a {:trigger h[a]} | a in h && h[a].color.Blue?
      ensures h[a].size >= wo ==> if list[i] > from then a <= from || a >= list[i] else list[i] <= a <= from
      ensures a < list[i] ==> a <= At(list, i)
    {
      assert Has(list, a);
      var j :| 0 <= j < |list| && list[j] == a;
    }
  }

  lemma FirstPositive(h: Heap, cs: seq<Chunk>, list: seq<int>)
    requires Tiled(h, cs) && Listed(h, list)
    ensures forall i {:trigger list[i]} :: 0 <= i < |list| ==> list[i] > 0
  {
    forall i | 0 <= i < |list| ensures list[i] > 0 { assert list[i] in h; }
  }

  lemma PosOf(h: Heap, cs: seq<Chunk>, list: seq<int>, a: int)
    requires Tiled(h, cs) && Listed(h, list) && OnList(list, a)
    ensures At(list, Pos(list, a)) == a
  {
    var k :| 0 <= k <= |list| && a == At(list, k);
    assert |list| > 0 ==> list[0] in h;
    PosAt(list, k);
  }

  lemma AllSmall(h: Heap, list: seq<int>, p: int, wo: nat)
    requires Listed(h, list) && 0 <= p <= |list| && Small(h, list, 0, p, wo) && Small(h, list, p, |list|, wo)
    ensures forall a {:trigger a in h} :: a in h && h[a].color.Blue? ==> h[a].size < wo
  {
    forall a | a in h && h[a].color.Blue? ensures h[a].size < wo {
      assert Has(list, a);
      var i :| 0 <= i < |list| && list[i] == a;
    }
  }

  lemma FoundBlue(h: Heap, cs: seq<Chunk>, list: seq<int>, i: nat, wo: nat)
    requires Tiled(h, cs) && Listed(h, list) && i < |list| && list[i] in h && h[list[i]].size >= wo
    ensures list[i] > 0 && h[list[i]].color.Blue?
    ensures !(forall a {:trigger a in h} :: a in h && h[a].color.Blue? ==> h[a].size < wo)
  {
    assert h[list[i]].color.Blue?;
  }

  lemma Facts(h: Heap, cs: seq<Chunk>, list: seq<int>, i: nat, wo: nat, color: Color, c: int, r: int)
    requires Tiled(h, cs) && Separate(h, cs) && Housed(h, cs) && Spread(h) && Listed(h, list) &&
             FreeAlloc.Taken(h, list, i, wo, color, c, r)
    ensures var h', l := Split(h, c, r, color), FreeAlloc.ListAfter(list, i, c, r);
            && Tiled(h', cs) && Separate(h', cs) && Housed(h', cs) && Spread(h') && Listed(h', l)
            && Sum(h', l) == Sum(h, list) - (if r > c + 1 then wo + 1 else 1 + h[c].size)
            && l == (if r > c + 1 then list else list[..i] + list[i + 1..])
            && OnList(l, At(list, i))
  {
    hide Split, Sum, Tiled, Separate, Listed, Housed, Spread;
    SplitTiled(h, cs, c, r, color);
    SplitHoused(h, cs, c, r, color);
    FoundBlue(h, cs, list, i, wo);
    FreeAlloc.SplitSpread(h, cs, wo, color, c, r);
    FreeAlloc.SplitListed(h, cs, list, i, wo, color, c, r);
    FreeAlloc.SplitSum(h, cs, list, i, wo, color, c, r);
    var l := FreeAlloc.ListAfter(list, i, c, r);
    assert At(l, i) == At(list, i);
  }

  // ---- Merging ----------------------------------------------------------------------------------------------

  /** The white block at `x` has become part of one free block, with the free blocks around it. */
  ghost predicate Merged(h: Heap, list: seq<int>, merge: int, x: int, frag: int, h': Heap, x': int) {
    var k := Pos(list, merge);
    var start, stop := FreeMerge.Start(h, list, k, x, frag), FreeMerge.Stop(h, list, k, x);
    h' == Joined(h, start, stop, FreeMerge.RunColor(start, stop)) && x' == stop
  }

  /** The block before position `k` ends at `bp`. */
  predicate Joins(h: Heap, list: seq<int>, k: int, bp: int) { 0 < k <= |list| && End(h, list[k - 1]) == bp }

  lemma MergeReady(h: Heap, cs: seq<Chunk>, list: seq<int>, merge: int, x: int, frag: int)
    requires Tiled(h, cs) && Separate(h, cs) && Listed(h, list) && SweepOk(h, cs, list, merge, x, frag) && x in h &&
             h[x].color.White?
    ensures var k := Pos(list, merge);
            FreeMerge.Sweepable(h, cs, list, k, x, frag) && At(list, k) == merge && 0 <= k <= |list|
    ensures Pos(list, merge) < |list| ==> list[Pos(list, merge)] in h
  {
    var k :| Cut(list, k, x) && merge == At(list, k);
    assert |list| > 0 ==> list[0] in h;
    PosAt(list, k);
  }

  /** The state after a merge. */
  lemma MergeFacts(h: Heap, cs: seq<Chunk>, list: seq<int>, k: int, x: int, frag: int, prev: int, skip: bool)
    requires FreeMerge.Sweepable(h, cs, list, k, x, frag) && Housed(h, cs) && Spread(h) && OnList(list, prev) &&
             0 <= k <= |list|
    requires skip == (k < |list| && list[k] == End(h, x))
    ensures var start, stop := FreeMerge.Start(h, list, k, x, frag), FreeMerge.Stop(h, list, k, x);
            var c, l := FreeMerge.RunColor(start, stop), FreeMerge.ListAfter(h, list, k, x, frag);
            var h' := Joined(h, start, stop, c);
            && Tiled(h', cs) && Separate(h', cs) && Housed(h', cs) && Spread(h') && Listed(h', l)
            && Sum(h', l) == Sum(h, list) + FreeMerge.Gain(h, x, frag, start, stop)
            && SweepOk(h', cs, l, if c.Blue? then start else At(list, k), stop, if c.Blue? then frag else start)
            && OnList(l, if skip && prev == list[k] then At(list, k) else prev)
  {
    hide Tiled, Separate, Listed, Sum, SweepOk, Joined, Housed, Spread, FreeMerge.Sweepable, FreeMerge.ListAfter,
         FreeMerge.Gain, At, OnList;
    MergeTiled(h, cs, list, k, x, frag);
    FreeMerge.MergeSpread(h, cs, list, k, x, frag,
                          FreeMerge.RunColor(FreeMerge.Start(h, list, k, x, frag), FreeMerge.Stop(h, list, k, x)));
    FreeMerge.MergeListed(h, cs, list, k, x, frag);
    FreeMerge.MergeSum(h, cs, list, k, x, frag);
    FreeMerge.MergeSweep(h, cs, list, k, x, frag);
    MergePrev(h, cs, list, k, x, frag, prev);
  }

  /** The run, its list and its words, as the code computes them. */
  lemma MergeComputed(h: Heap, cs: seq<Chunk>, list: seq<int>, k: int, x: int, frag: int, bp: int, skip: bool, adj: int,
                      above: seq<int>)
    requires FreeMerge.Sweepable(h, cs, list, k, x, frag) && x in h && 0 <= k <= |list|
    requires bp == (if frag + 1 == x then frag else x) && skip == (k < |list| && x + 1 + h[x].size == list[k])
    requires above == (if skip then list[k + 1..] else list[k..]) && (skip ==> list[k] in h)
    requires adj == x + 1 + h[x].size + if skip then 1 + h[list[k]].size else 0
    ensures skip == (k < |list| && list[k] == End(h, x))
    ensures var start, stop := FreeMerge.Start(h, list, k, x, frag), FreeMerge.Stop(h, list, k, x);
            var joins := Joins(h, list, k, bp);
            && stop == adj && start == (if joins then At(list, k) else bp)
            && FreeMerge.RunColor(start, stop) == (if joins || adj > bp + 1 then Blue else White)
            && FreeMerge.ListAfter(h, list, k, x, frag) ==
               (if joins || adj == bp + 1 then list[..k] + above else list[..k] + [bp] + above)
            && FreeMerge.Gain(h, x, frag, start, stop) ==
               1 + h[x].size + (if frag + 1 == x then 1 else 0) - (if joins || adj > bp + 1 then 0 else 1)
  {
    hide Tiled, Separate, Coalesced, Whitened, FragmentAt, Sorted, Has;
    FreeMerge.RunWords(h, cs, list, k, x, frag);
    if k > 0 { assert list[k - 1] in h && h[list[k - 1]].size > 0; }
  }

  lemma MergeTiled(h: Heap, cs: seq<Chunk>, list: seq<int>, k: int, x: int, frag: int)
    requires FreeMerge.Sweepable(h, cs, list, k, x, frag) && Housed(h, cs)
    ensures var start, stop := FreeMerge.Start(h, list, k, x, frag), FreeMerge.Stop(h, list, k, x);
            var h' := Joined(h, start, stop, FreeMerge.RunColor(start, stop));
            Tiled(h', cs) && Separate(h', cs) && Housed(h', cs)
  {
    hide Tiled, Separate, Listed, Coalesced, Whitened, FragmentAt, Run, Joined, Housed, FreeMerge.Start, FreeMerge.Stop;
    var start, stop := FreeMerge.Start(h, list, k, x, frag), FreeMerge.Stop(h, list, k, x);
    var c := FreeMerge.RunColor(start, stop);
    FreeMerge.RunOfMerge(h, cs, list, k, x, frag);
    RunStart(h, cs, start, stop);
    JoinedTiled(h, cs, start, stop, c);
    JoinedSeparate(h, cs, start, stop, c);
    JoinedHoused(h, cs, start, stop, c);
  }

  /** Only the free block after `x` leaves the list. */
  lemma NodeStays(h: Heap, cs: seq<Chunk>, list: seq<int>, k: int, x: int, frag: int, p: int)
    requires FreeMerge.Sweepable(h, cs, list, k, x, frag) && Has(list, p) &&
             !(k < |list| && p == list[k] && list[k] == End(h, x))
    ensures Has(FreeMerge.ListAfter(h, list, k, x, frag), p)
  {
    hide Tiled, Separate, Listed, Coalesced, Whitened, FragmentAt, Sorted, FreeMerge.ListAfter, FreeMerge.Start,
         FreeMerge.Stop;
    var i :| 0 <= i < |list| && list[i] == p;
    FreeMerge.ListParts(h, cs, list, k, x, frag);
    FreeMerge.NodesOutside(h, cs, list, k, x, frag, i);
    StartBlue(h, cs, list, k, x, frag);
  }

  lemma StartBlue(h: Heap, cs: seq<Chunk>, list: seq<int>, k: int, x: int, frag: int)
    requires FreeMerge.Sweepable(h, cs, list, k, x, frag)
    ensures k > 0 && list[k - 1] == FreeMerge.Start(h, list, k, x, frag) ==>
              FreeMerge.RunColor(FreeMerge.Start(h, list, k, x, frag), FreeMerge.Stop(h, list, k, x)).Blue?
  {
    hide Tiled, Separate, Coalesced, Whitened, FragmentAt, Sorted, Has, FreeMerge.Start, FreeMerge.Stop;
    FreeMerge.RunWords(h, cs, list, k, x, frag);
  }

  lemma MergePrev(h: Heap, cs: seq<Chunk>, list: seq<int>, k: int, x: int, frag: int, prev: int)
    requires FreeMerge.Sweepable(h, cs, list, k, x, frag) && OnList(list, prev) && 0 <= k <= |list|
    ensures OnList(FreeMerge.ListAfter(h, list, k, x, frag), if k < |list| && prev == list[k] && list[k] == End(h, x)
                   then At(list, k) else prev)
  {
    hide Tiled, Separate, Listed, Coalesced, Whitened, FragmentAt, FreeMerge.ListAfter;
    var l := FreeMerge.ListAfter(h, list, k, x, frag);
    var p := if k < |list| && prev == list[k] && list[k] == End(h, x) then At(list, k) else prev;
    assert At(l, 0) == 0;
    HasNode(list, prev);
    assert p == 0 || (Has(list, p) && !(k < |list| && p == list[k] && list[k] == End(h, x))) by {
      assert Sorted(list) by { SweepSorted(h, cs, list, k, x, frag); }
      if k > 0 { assert At(list, k) == list[k - 1]; }
    }
    if p != 0 {
      NodeStays(h, cs, list, k, x, frag, p);
      var i :| 0 <= i < |l| && l[i] == p;
      assert At(l, i + 1) == p;
    }
  }

  lemma SweepSorted(h: Heap, cs: seq<Chunk>, list: seq<int>, k: int, x: int, frag: int)
    requires FreeMerge.Sweepable(h, cs, list, k, x, frag)
    ensures Sorted(list)
  {
  }

  lemma HasNode(list: seq<int>, a: int)
    requires OnList(list, a)
    ensures a == 0 || Has(list, a)
  {
  }

  // ---- From chunk to chunk ------------------------------------------------------------------------------------

  lemma RunStart(h: Heap, cs: seq<Chunk>, x: int, y: int)
    requires Run(h, cs, x, y)
    ensures x in h
  {
  }

  lemma NoChunk(h: Heap, cs: seq<Chunk>)
    requires Tiled(h, cs) && Housed(h, cs) && forall c {:trigger c in cs} :: c in cs ==> c.lo < 0
    ensures h == map[]
  {
    assert forall c {:trigger c in cs} :: c in cs ==> c.lo in h;
    assert forall a {:trigger InChunk(cs, a)} :: !InChunk(cs, a);
    forall a ensures a !in h { assert !InChunk(cs, a); }
  }

  /** All blocks are from the first chunk on. */
  lemma SweepFrom(h: Heap, cs: seq<Chunk>, list: seq<int>, lo: int)
    requires Tiled(h, cs) && Separate(h, cs) && Housed(h, cs) && Listed(h, list) && IsStart(cs, lo)
    requires forall c {:trigger c in cs} :: c in cs && c.lo >= 0 ==> lo <= c.lo
    ensures SweepOk(h, cs, list, 0, lo, -1) && forall a {:trigger a in h} :: a in h ==> a >= lo
  {
    forall a | a in h ensures a >= lo {
      assert InChunk(cs, a);
      var c :| c in cs && c.lo <= a < c.hi;
      assert c.lo in h;
    }
    var d :| d in cs && d.lo == lo;
    assert lo in h;
    hide Tiled, Housed;
    assert Cut(list, 0, lo) && At(list, 0) == 0;
    assert forall a {:trigger End(h, a)} :: a in h ==> End(h, a) > lo;
  }

  /** No block between the end of a chunk and the start of the next one. */
  lemma NoneBetween(h: Heap, cs: seq<Chunk>, x: int, lo: int, a: int)
    requires Housed(h, cs) && IsEnd(cs, x) && a in h && a >= x
    requires forall c {:trigger c in cs} :: c in cs && c.lo >= x ==> lo <= c.lo
    ensures a >= lo
  {
    assert InChunk(cs, a);
    var d :| d in cs && d.lo <= a < d.hi;
    var c :| c in cs && c.hi == x;
    assert d.lo >= x;
  }

  lemma GapFacts(h: Heap, cs: seq<Chunk>, x: int, lo: int)
    requires Tiled(h, cs) && Separate(h, cs) && Housed(h, cs) && IsEnd(cs, x) && IsStart(cs, lo)
    requires forall c {:trigger c in cs} :: c in cs && c.lo >= x ==> lo <= c.lo
    ensures lo in h && forall a {:trigger a in h} :: a in h && a >= x ==> a >= lo
    ensures forall a {:trigger End(h, a)} :: a in h ==> End(h, a) != lo
  {
    hide IsEnd;
    forall a | a in h && a >= x ensures a >= lo { NoneBetween(h, cs, x, lo, a); }
    var d :| d in cs && d.lo == lo;
    forall a | a in h ensures End(h, a) != lo { assert End(h, a) != d.lo; }
  }

  /** Going over the gap between two chunks. */
  lemma SweepJump(h: Heap, cs: seq<Chunk>, list: seq<int>, merge: int, x: int, frag: int, lo: int)
    requires Listed(h, list) && SweepOk(h, cs, list, merge, x, frag) && x !in h && lo in h && lo >= x
    requires forall a {:trigger a in h} :: a in h && a >= x ==> a >= lo
    requires forall a {:trigger End(h, a)} :: a in h ==> End(h, a) != lo
    ensures SweepOk(h, cs, list, merge, lo, frag)
  {
    var k :| Cut(list, k, x) && merge == At(list, k);
    assert Cut(list, k, lo);
  }

  /** After the last chunk. */
  lemma LastChunk(h: Heap, cs: seq<Chunk>, x: int)
    requires Housed(h, cs) && IsEnd(cs, x) && forall c {:trigger c in cs} :: c in cs ==> c.lo < x
    ensures forall a {:trigger a in h} :: a in h ==> a < x
  {
    forall a | a in h ensures a < x {
      assert InChunk(cs, a);
      var d :| d in cs && d.lo <= a < d.hi;
      var c :| c in cs && c.hi == x;
      assert d != c ==> d.hi < c.lo || c.hi < d.lo;
    }
  }

  // ---- Steps of the sweep -------------------------------------------------------------------------------------

  /** Nothing is left to free or to coalesce. */
  ghost predicate Swept(h: Heap) {
    && (forall a {:trigger h[a]} :: a in h ==> !h[a].color.Black?)
    && (forall a {:trigger End(h, a)} :: a in h && End(h, a) in h ==> !(IsFree(h[a]) && IsFree(h[End(h, a)])))
  }

  /** What a step of the sweep does to the heap. */
  ghost predicate SweptMore(h: Heap, list: seq<int>, merge: int, x: int, frag: int, h': Heap, sweeping': bool,
                            x': int) {
    if x in h then
      && sweeping'
      && match h[x].color
         case White => Merged(h, list, merge, x, frag, h', x')
         case Blue => h' == h && x' == End(h, x)
         case Black => h' == h[x := Blk(h[x].size, White)] && x' == End(h, x)
    else h' == h && x' >= x && (sweeping' ==> x' > x && forall a {:trigger a in h} :: a in h && a >= x ==> a >= x')
                 && (!sweeping' ==> forall a {:trigger a in h} :: a in h ==> a < x)
  }

  lemma AtChunkEnd(h: Heap, cs: seq<Chunk>, list: seq<int>, merge: int, x: int, frag: int)
    requires SweepOk(h, cs, list, merge, x, frag) && x !in h
    ensures IsEnd(cs, x)
  {
  }

  lemma SweptAll(h: Heap, cs: seq<Chunk>, list: seq<int>, merge: int, x: int, frag: int)
    requires SweepOk(h, cs, list, merge, x, frag) && forall a {:trigger a in h} :: a in h ==> a < x
    ensures Swept(h)
  {
  }

  /** Nothing lies between a block and its end. */
  lemma NextAfter(h: Heap, cs: seq<Chunk>, x: int)
    requires Tiled(h, cs) && x in h
    ensures Boundary(h, cs, End(h, x)) && End(h, x) > x
    ensures forall a {:trigger a in h} :: a in h && a != x ==> a < x || a >= End(h, x)
    ensures forall a {:trigger End(h, a)} :: a in h && a < x ==> End(h, a) <= x
  {
    forall a | a in h && a != x ensures a < x || a >= End(h, x) { assert End(h, a) >= a; }
    forall a | a in h && a < x ensures End(h, a) <= x { assert End(h, x) >= x; }
  }

  lemma SweepBlue(h: Heap, cs: seq<Chunk>, list: seq<int>, merge: int, x: int, frag: int)
    requires Tiled(h, cs) && Listed(h, list) && Spread(h) && SweepOk(h, cs, list, merge, x, frag) && x in h &&
             h[x].color.Blue?
    ensures SweepOk(h, cs, list, x, End(h, x), frag)
  {
    hide Tiled, IsEnd, Boundary;
    NextAfter(h, cs, x);
    var k :| Cut(list, k, x) && merge == At(list, k);
    assert Has(list, x);
    var i :| 0 <= i < |list| && list[i] == x;
    assert i == k by { assert i >= k; assert list[k] <= list[i]; }
    assert Cut(list, k + 1, End(h, x)) && At(list, k + 1) == x;
  }

  lemma SweepBlack(h: Heap, cs: seq<Chunk>, list: seq<int>, merge: int, x: int, frag: int)
    requires Tiled(h, cs) && Separate(h, cs) && Housed(h, cs) && Listed(h, list) && Spread(h) &&
             SweepOk(h, cs, list, merge, x, frag) && x in h && h[x].color.Black?
    ensures var h' := h[x := Blk(h[x].size, White)];
            && Tiled(h', cs) && Separate(h', cs) && Housed(h', cs) && Spread(h') && Listed(h', list) &&
               Sum(h', list) == Sum(h, list)
            && SweepOk(h', cs, list, merge, End(h, x), frag)
  {
    hide Tiled, Separate, Housed, Spread, Listed, Sum, SweepOk, Clear;
    var h' := h[x := Blk(h[x].size, White)];
    Recolored(h, cs, x, h');
    RecoloredList(h, list, x, h');
    RecoloredSweep(h, cs, list, merge, x, frag, h');
  }

  lemma Recolored(h: Heap, cs: seq<Chunk>, x: int, h': Heap)
    requires Tiled(h, cs) && Separate(h, cs) && Housed(h, cs) && Spread(h) && x in h && h[x].color.Black? &&
             h' == h[x := Blk(h[x].size, White)]
    ensures Tiled(h', cs) && Separate(h', cs) && Housed(h', cs) && Spread(h')
  {
    assert forall a {:trigger End(h', a)} :: End(h', a) == End(h, a);
    assert forall a {:trigger a in h'} :: a in h' <==> a in h;
    forall a | a in h' ensures Boundary(h', cs, End(h', a)) { assert Boundary(h, cs, End(h, a)); }
  }

  lemma RecoloredList(h: Heap, list: seq<int>, x: int, h': Heap)
    requires Listed(h, list) && x in h && h[x].color.Black? && h' == h[x := Blk(h[x].size, White)]
    ensures Listed(h', list) && Sum(h', list) == Sum(h, list)
  {
    SumSame(h, h', list);
  }

  lemma RecoloredSweep(h: Heap, cs: seq<Chunk>, list: seq<int>, merge: int, x: int, frag: int, h': Heap)
    requires Tiled(h, cs) && Listed(h, list) && Spread(h) && SweepOk(h, cs, list, merge, x, frag) && x in h &&
             h[x].color.Black?
    requires h' == h[x := Blk(h[x].size, White)]
    ensures SweepOk(h', cs, list, merge, End(h, x), frag)
  {
    hide Tiled, IsEnd;
    NextAfter(h, cs, x);
    assert forall a {:trigger End(h', a)} :: End(h', a) == End(h, a);
    assert forall a {:trigger a in h'} :: a in h' <==> a in h;
    assert h[x].size > 0;
    var e := End(h, x);
    var k :| Cut(list, k, x) && merge == At(list, k);
    assert Cut(list, k, e) by {
      forall i | k <= i < |list| ensures list[i] >= e { assert list[i] in h && h[list[i]].color.Blue?; }
    }
  }

  // ---- Adding a chunk -----------------------------------------------------------------------------------------

  lemma LastIsLargest(h: Heap, list: seq<int>, b: int)
    requires Listed(h, list) && b > At(list, |list|)
    ensures Cut(list, |list|, b)
  {
    forall i | 0 <= i < |list| ensures list[i] < b { assert i < |list| - 1 ==> list[i] < list[|list| - 1]; }
  }

  lemma CutHere(h: Heap, list: seq<int>, j: nat, b: int)
    requires Listed(h, list) && j <= |list| && (forall i {:trigger list[i]} :: 0 <= i < j ==> list[i] < b) &&
             (j < |list| ==> list[j] >= b)
    ensures Cut(list, j, b)
  {
    forall i | j <= i < |list| ensures list[i] >= b { assert j < i ==> list[j] < list[i]; }
  }

  lemma AddFacts(h: Heap, cs: seq<Chunk>, list: seq<int>, j: nat, b: int, size: nat, cs': seq<Chunk>, prev: int)
    requires Tiled(h, cs) && Separate(h, cs) && Housed(h, cs) && Spread(h) && Listed(h, list) &&
             FreeAdd.Apart(h, cs, b, size)
    requires cs' == cs + [Chunk(b, b + 1 + size)] && j <= |list| && Cut(list, j, b) && OnList(list, prev)
    ensures var h', l := h[b := Blk(size, Blue)], list[..j] + [b] + list[j..];
            && Tiled(h', cs') && Separate(h', cs') && Housed(h', cs') && Spread(h') && Listed(h', l)
            && Sum(h', l) == Sum(h, list) + 1 + size && OnList(l, prev) && (Distinct(cs) ==> Distinct(cs'))
  {
    hide Tiled, Separate, Housed, Spread, Listed, Sum, FreeAdd.Apart, Distinct;
    FreeAdd.AddTiled(h, cs, b, size, cs');
    FreeAdd.AddHoused(h, cs, b, size, cs');
    FreeAdd.AddDistinct(h, cs, b, size, cs');
    FreeAdd.AddSpread(h, cs, b, size);
    FreeAdd.AddListed(h, cs, list, j, b, size);
    FreeAdd.AddSum(h, cs, list, j, b, size);
    var l := list[..j] + [b] + list[j..];
    var k :| 0 <= k <= |list| && prev == At(list, k);
    assert At(l, if k <= j then k else k + 1) == prev;
  }

  lemma AddSwept(h: Heap, cs: seq<Chunk>, list: seq<int>, j: nat, b: int, size: nat, cs': seq<Chunk>, merge: int,
                 x: int, frag: int)
    requires Tiled(h, cs) && Spread(h) && Listed(h, list) && FreeAdd.Apart(h, cs, b, size) &&
             SweepOk(h, cs, list, merge, x, frag)
    requires cs' == cs + [Chunk(b, b + 1 + size)] && j <= |list| && Cut(list, j, b)
    ensures SweepOk(h[b := Blk(size, Blue)], cs', list[..j] + [b] + list[j..], if At(list, j) == merge && b < x then b
                    else merge, x, frag)
  {
    hide Coalesced, Whitened, FragmentAt, Clear, Boundary, LastBelow, Spread, At;
    FreeAdd.AddSweep(h, cs, b, size, cs', x, frag);
    assert b > 0 && b !in h;
    if |list| > 0 { assert list[0] in h; }
    FreeAdd.InsertLast(list, merge, x, j, b);
  }
}
