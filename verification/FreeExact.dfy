/**
 * What a whole sweep computes: the white blocks and the free blocks are gathered in maximal runs, each of which
 * is one free block, or a fragment if it is a lone header; the black blocks are white.
 */
module FreeExact {
  import opened FreeSpec
  import FreeMerge
  import opened FreeList

  /** No block in use from `a` to `b`. */
  ghost predicate Unused(h0: Heap, a: int, b: int) {
    forall y {:trigger y in h0} :: y in h0 && a <= y < b ==> !h0[y].color.Black?
  }

  /** Block `a` is a black block of `h0`, now white, or stands for a run of the blocks of `h0` that are not in use. */
  ghost predicate Accounted(h0: Heap, h: Heap, a: int) {
    && a in h0 && a in h
    && if h0[a].color.Black? then h[a] == Blk(h0[a].size, White)
       else Unused(h0, a, End(h, a)) && h[a].color == if h[a].size > 0 then Blue else White
  }

  /** The blocks below `x` have been swept, those from `x` on have not. */
  ghost predicate Half(h0: Heap, h: Heap, x: int) {
    && (forall a {:trigger a in h0} :: a >= x && a in h0 ==> a in h && h[a] == h0[a])
    && (forall a {:trigger a in h} :: a >= x && a in h ==> a in h0)
    && (forall a {:trigger a in h0} :: a < x && a in h0 && h0[a].color.Black? ==> a in h)
    && (forall a {:trigger Accounted(h0, h, a)} :: a < x && a in h ==> Accounted(h0, h, a))
  }

  /** `h` is what sweeping `h0` must give. */
  ghost predicate Refines(h0: Heap, h: Heap) {
    && (forall a {:trigger Accounted(h0, h, a)} :: a in h ==> Accounted(h0, h, a))
    && (forall a {:trigger a in h0} :: a in h0 && h0[a].color.Black? ==> a in h)
    && Swept(h)
  }

  lemma HalfStart(h: Heap, x: int)
    requires forall a {:trigger a in h} :: a in h ==> a >= x
    ensures Half(h, h, x)
  {
  }

  lemma HalfEnd(h0: Heap, h: Heap, x: int)
    requires Half(h0, h, x) && Swept(h) && forall a {:trigger a in h} :: a in h ==> a < x
    ensures Refines(h0, h)
  {
    hide Swept;
    forall a | a in h0 && h0[a].color.Black? ensures a in h { }
  }

  /** A block of the list or a fragment below `x` stands for an unused run. */
  lemma FreeBelow(h0: Heap, h: Heap, x: int, a: int)
    requires Half(h0, h, x) && a in h && a < x && IsFree(h[a]) &&
             (forall y {:trigger h0[y]} :: y in h0 && h0[y].color.Black? ==> h0[y].size > 0)
    ensures a in h0 && !h0[a].color.Black? && Unused(h0, a, End(h, a))
  {
    assert Accounted(h0, h, a);
  }

  lemma UnusedJoin(h0: Heap, a: int, b: int, c: int)
    requires Unused(h0, a, b) && Unused(h0, b, c)
    ensures Unused(h0, a, c)
  {
  }

  /** A block from `x` on, and what comes after it. */
  lemma UnusedOne(h0: Heap, h: Heap, cs: seq<Chunk>, x: int, a: int)
    requires Half(h0, h, x) && Tiled(h, cs) && a in h && a >= x && !h[a].color.Black?
    ensures Unused(h0, a, End(h, a)) && a in h0
  {
    forall y | y in h0 && a <= y < End(h, a) ensures !h0[y].color.Black? {
      assert y in h && End(h, y) >= y && End(h, a) >= a;
    }
  }

  /** The run that a merge makes contains no block in use. */
  lemma MergeUnused(h0: Heap, h: Heap, cs: seq<Chunk>, list: seq<int>, k: int, x: int, frag: int)
    requires FreeMerge.Sweepable(h, cs, list, k, x, frag) && Half(h0, h, x)
    requires forall y {:trigger h0[y]} :: y in h0 && h0[y].color.Black? ==> h0[y].size > 0
    ensures var start, stop := FreeMerge.Start(h, list, k, x, frag), FreeMerge.Stop(h, list, k, x);
            Unused(h0, start, stop) && start in h0 && !h0[start].color.Black?
  {
    hide Unused, Coalesced, Whitened, Separate;
    var start, stop := FreeMerge.Start(h, list, k, x, frag), FreeMerge.Stop(h, list, k, x);
    UnusedOne(h0, h, cs, x, x);
    if k < |list| && list[k] == End(h, x) {
      assert h[list[k]].color.Blue? && list[k] >= x;
      UnusedOne(h0, h, cs, x, list[k]);
      UnusedJoin(h0, x, End(h, x), stop);
    }
    var f := FreeMerge.FragStart(x, frag);
    if f != x {
      FreeBelow(h0, h, x, frag);
      UnusedJoin(h0, f, x, stop);
    }
    if start != f {
      assert h[list[k - 1]].color.Blue? && list[k - 1] < x;
      FreeBelow(h0, h, x, start);
      UnusedJoin(h0, start, f, stop);
    }
    assert x in h0 && h0[x] == h[x];
  }

  lemma MergeHalf(h0: Heap, h: Heap, cs: seq<Chunk>, list: seq<int>, k: int, x: int, frag: int)
    requires FreeMerge.Sweepable(h, cs, list, k, x, frag) && Half(h0, h, x)
    requires forall y {:trigger h0[y]} :: y in h0 && h0[y].color.Black? ==> h0[y].size > 0
    ensures var start, stop := FreeMerge.Start(h, list, k, x, frag), FreeMerge.Stop(h, list, k, x);
            Half(h0, Joined(h, start, stop, FreeMerge.RunColor(start, stop)), stop)
  {
    hide FreeMerge.Start, FreeMerge.Stop, Joined, Unused, Run, Coalesced, Whitened, FragmentAt, Separate, Listed, Tiled;
    var start, stop := FreeMerge.Start(h, list, k, x, frag), FreeMerge.Stop(h, list, k, x);
    var h' := Joined(h, start, stop, FreeMerge.RunColor(start, stop));
    FreeMerge.RunOfMerge(h, cs, list, k, x, frag);
    FreeMerge.JoinedEnds(h, cs, start, stop, FreeMerge.RunColor(start, stop));
    MergeUnused(h0, h, cs, list, k, x, frag);
    forall a | a < stop && a in h' ensures Accounted(h0, h', a) {
      if a != start {
        assert Accounted(h0, h, a) && End(h', a) == End(h, a);
      }
    }
    forall a | a in h0 && a >= stop ensures a in h' && h'[a] == h0[a] { assert End(h', a) == End(h, a); }
    forall a | a < stop && a in h0 && h0[a].color.Black?
      ensures a in h'
    {
      UnusedAt(h0, start, stop, a);
      assert a < x ==> a in h;
    }
  }

  lemma UnusedAt(h0: Heap, a: int, b: int, y: int)
    requires Unused(h0, a, b) && y in h0 && h0[y].color.Black?
    ensures !(a <= y < b)
  {
  }

  /** One step keeps the account. */
  lemma StepHalf(h0: Heap, h: Heap, cs: seq<Chunk>, list: seq<int>, merge: int, x: int, frag: int, h': Heap,
                 sweeping': bool, x': int)
    requires Tiled(h, cs) && Separate(h, cs) && Listed(h, list) && SweepOk(h, cs, list, merge, x, frag) &&
             Half(h0, h, x)
    requires forall y {:trigger h0[y]} :: y in h0 && h0[y].color.Black? ==> h0[y].size > 0
    requires SweptMore(h, list, merge, x, frag, h', sweeping', x')
    ensures Half(h0, h', x') && (sweeping' ==> x' > x)
  {
    hide Joined, FreeMerge.Start, FreeMerge.Stop, FreeMerge.RunColor, Separate, Listed, SweepOk;
    if x in h && h[x].color.White? {
      MergeReady(h, cs, list, merge, x, frag);
      MergeHalf(h0, h, cs, list, Pos(list, merge), x, frag);
      FreeMerge.RunOfMerge(h, cs, list, Pos(list, merge), x, frag);
    } else if x in h {
      BlueSized(h, list, x);
      NextHalf(h0, h, cs, x, h');
    } else {
      forall a | a < x' && a in h' ensures Accounted(h0, h', a) { }
    }
  }

  lemma BlueSized(h: Heap, list: seq<int>, x: int)
    requires Listed(h, list) && x in h
    ensures h[x].color.Blue? ==> h[x].size > 0
  {
    if h[x].color.Blue? {
      assert Has(list, x);
      var i :| 0 <= i < |list| && list[i] == x;
    }
  }

  lemma NextHalf(h0: Heap, h: Heap, cs: seq<Chunk>, x: int, h': Heap)
    requires Tiled(h, cs) && Half(h0, h, x) && x in h && !h[x].color.White?
    requires h[x].color.Blue? ==> h' == h && h[x].size > 0
    requires h[x].color.Black? ==> h' == h[x := Blk(h[x].size, White)]
    ensures Half(h0, h', End(h, x))
  {
    NextAfter(h, cs, x);
    UnusedBlue(h0, h, cs, x);
    hide Tiled, Unused;
    assert x in h0 && h0[x] == h[x];
    forall a | a < End(h, x) && a in h' ensures Accounted(h0, h', a) {
      if a != x { assert Accounted(h0, h, a) && End(h', a) == End(h, a); }
    }
  }

  lemma UnusedBlue(h0: Heap, h: Heap, cs: seq<Chunk>, x: int)
    requires Tiled(h, cs) && Half(h0, h, x) && x in h
    ensures h[x].color.Blue? ==> Unused(h0, x, End(h, x))
  {
    if h[x].color.Blue? { UnusedOne(h0, h, cs, x, x); }
  }

  function Top(cs: seq<Chunk>): int {
    if cs == [] then 0 else if cs[0].hi > Top(cs[1..]) then cs[0].hi else Top(cs[1..])
  }

  lemma {:induction false} BelowTop(cs: seq<Chunk>, c: Chunk)
    requires c in cs
    ensures c.hi <= Top(cs)
  {
    if c != cs[0] { BelowTop(cs[1..], c); }
  }

  lemma SweepBelowTop(h: Heap, cs: seq<Chunk>, list: seq<int>, merge: int, x: int, frag: int)
    requires Housed(h, cs) && SweepOk(h, cs, list, merge, x, frag)
    ensures x <= Top(cs)
  {
    if x in h {
      assert InChunk(cs, x);
      var c :| c in cs && c.lo <= x < c.hi;
      BelowTop(cs, c);
    } else {
      var c :| c in cs && c.hi == x;
      BelowTop(cs, c);
    }
  }

  lemma BlackSized(h: Heap)
    requires Spread(h)
    ensures forall y {:trigger h[y]} :: y in h && h[y].color.Black? ==> h[y].size > 0
  {
  }

  /** A whole sweep, without interruption. */
  method SweepAll(a: Allocator)
    requires a.Valid() && !a.sweeping
    modifies a
    ensures a.Valid() && !a.sweeping && Refines(old(a.heap), a.heap)
  {
    hide Tiled, Separate, Housed, Spread, Listed, Sum, SweepOk, OnList, Half, Refines, Swept, SweptMore, Top;
    ghost var h0, cs := a.heap, a.chunks;
    BlackSized(h0);
    a.StartSweep();
    if a.sweeping {
      HalfStart(h0, a.sweepHp);
      SweepBelowTop(a.heap, a.chunks, a.list, a.flMerge, a.sweepHp, a.lastFragment);
    } else {
      NothingToSweep(h0);
    }
    while a.sweeping
      invariant a.Valid() && a.chunks == cs
      invariant a.sweeping ==> Half(h0, a.heap, a.sweepHp) && a.sweepHp <= Top(cs)
      invariant !a.sweeping ==> Refines(h0, a.heap)
      decreases a.sweeping, Top(cs) - a.sweepHp
    {
      ghost var h, l, m, x, f := a.heap, a.list, a.flMerge, a.sweepHp, a.lastFragment;
      a.SweepStep();
      StepHalf(h0, h, cs, l, m, x, f, a.heap, a.sweeping, a.sweepHp);
      if a.sweeping {
        SweepBelowTop(a.heap, a.chunks, a.list, a.flMerge, a.sweepHp, a.lastFragment);
      } else {
        EndOfSweep(h, l, m, x, f, a.heap, a.sweeping, a.sweepHp);
        HalfEnd(h0, a.heap, a.sweepHp);
      }
    }
  }

  lemma EndOfSweep(h: Heap, list: seq<int>, merge: int, x: int, frag: int, h': Heap, sweeping': bool, x': int)
    requires SweptMore(h, list, merge, x, frag, h', sweeping', x') && !sweeping'
    ensures forall a {:trigger a in h'} :: a in h' ==> a < x'
  {
  }

  lemma NothingToSweep(h: Heap)
    requires h == map[]
    ensures Refines(h, h)
  {
  }

  // ---- Conservation -------------------------------------------------------------------------------------------

  datatype Kind = Live | Free | Fragment

  function KindOf(b: Blk): Kind { if b.size == 0 then Fragment else if b.color.Blue? then Free else Live }

  /** The words, headers included, of the blocks of a kind from `a` to `hi`. */
  function Words(h: Heap, a: int, hi: int, kind: Kind): nat
    decreases hi - a
  {
    if a in h && a < hi then (if KindOf(h[a]) == kind then 1 + h[a].size else 0) + Words(h, End(h, a), hi, kind) else 0
  }

  lemma NextInChunk(h: Heap, cs: seq<Chunk>, c: Chunk, a: int)
    requires Tiled(h, cs) && Separate(h, cs) && Housed(h, cs) && c in cs && c.lo <= a < c.hi && a in h
    ensures End(h, a) <= c.hi && (End(h, a) in h || End(h, a) == c.hi)
  {
    assert !(a < c.hi < End(h, a)) && Boundary(h, cs, End(h, a));
    if End(h, a) !in h {
      var d :| d in cs && d.hi == End(h, a);
      assert d != c ==> d.hi < c.lo || c.hi < d.lo;
    }
  }

  /** Live, free and fragment words fill a chunk. */
  lemma {:induction false} Conservation(h: Heap, cs: seq<Chunk>, c: Chunk, a: int)
    requires Tiled(h, cs) && Separate(h, cs) && Housed(h, cs) && c in cs && c.lo <= a <= c.hi && (a in h || a == c.hi)
    ensures Words(h, a, c.hi, Live) + Words(h, a, c.hi, Free) + Words(h, a, c.hi, Fragment) == c.hi - a
    decreases c.hi - a
  {
    if a < c.hi {
      NextInChunk(h, cs, c, a);
      Conservation(h, cs, c, End(h, a));
    }
  }
}
