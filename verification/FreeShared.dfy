/** A sweep shared with the allocator: what is in use, whatever the two do in between. */
module FreeShared {
  import opened FreeSpec
  import opened FreeList
  import FreeAdd
  import FreeMerge
  import FreeExact

  /** A block is in use: it is black where the sweep has still to come, and white where it has been. */
  predicate InUse(h: Heap, sweeping: bool, x: int, a: int) {
    a in h && h[a].size > 0 && h[a].color == if sweeping && a >= x then Black else White
  }

  /** The blocks in use are the same, and so are their sizes. */
  ghost predicate SameUse(h: Heap, sweeping: bool, x: int, h': Heap, sweeping': bool, x': int) {
    forall a {:trigger InUse(h, sweeping, x, a)} {:trigger InUse(h', sweeping', x', a)} ::
      (InUse(h, sweeping, x, a) <==> InUse(h', sweeping', x', a)) &&
        (InUse(h, sweeping, x, a) ==> h'[a].size == h[a].size)
  }

  /** One more block is in use, at `r`. */
  ghost predicate OneMore(h: Heap, sweeping: bool, x: int, r: int, wo: nat, h': Heap) {
    && !InUse(h, sweeping, x, r) && InUse(h', sweeping, x, r) && h'[r].size == wo
    && forall a {:trigger InUse(h, sweeping, x, a)} {:trigger InUse(h', sweeping, x, a)} :: a != r ==>
         (InUse(h, sweeping, x, a) <==> InUse(h', sweeping, x, a)) &&
           (InUse(h, sweeping, x, a) ==> h'[a].size == h[a].size)
  }

  /** What lies in a run that is freed: free blocks, the fragment, and the white block at `x`. */
  lemma RunUnused(h: Heap, cs: seq<Chunk>, list: seq<int>, k: int, x: int, frag: int, a: int)
    requires FreeMerge.Sweepable(h, cs, list, k, x, frag)
    ensures FreeMerge.Start(h, list, k, x, frag) <= a < FreeMerge.Stop(h, list, k, x) ==> !InUse(h, true, x, a)
  {
    hide Separate, Coalesced, Whitened, Sorted, Has;
    var start, stop := FreeMerge.Start(h, list, k, x, frag), FreeMerge.Stop(h, list, k, x);
    if a in h && start <= a < stop {
      assert End(h, a) >= a && End(h, x) >= x;
      if k > 0 { assert list[k - 1] in h && h[list[k - 1]].color.Blue? && End(h, list[k - 1]) >= list[k - 1]; }
      if k < |list| { assert list[k] in h && h[list[k]].color.Blue? && End(h, list[k]) >= list[k]; }
      assert frag + 1 == x ==> frag in h && h[frag].size == 0 && End(h, frag) == x;
    }
  }

  /** Freeing a run touches no block in use. */
  lemma MergeUse(h: Heap, cs: seq<Chunk>, list: seq<int>, k: int, x: int, frag: int)
    requires FreeMerge.Sweepable(h, cs, list, k, x, frag)
    ensures var start, stop := FreeMerge.Start(h, list, k, x, frag), FreeMerge.Stop(h, list, k, x);
            SameUse(h, true, x, Joined(h, start, stop, FreeMerge.RunColor(start, stop)), true, stop)
  {
    var start, stop := FreeMerge.Start(h, list, k, x, frag), FreeMerge.Stop(h, list, k, x);
    var c := FreeMerge.RunColor(start, stop);
    var h' := Joined(h, start, stop, c);
    FreeMerge.RunOfMerge(h, cs, list, k, x, frag);
    FreeMerge.JoinedEnds(h, cs, start, stop, c);
    forall a
      ensures (InUse(h, true, x, a) <==> InUse(h', true, stop, a)) && (InUse(h, true, x, a) ==> h'[a].size == h[a].size)
    {
      RunUnused(h, cs, list, k, x, frag, a);
      if a in h' && a != start { assert End(h', a) == End(h, a); }
    }
  }

  /** A step of the sweep keeps the blocks in use. */
  lemma StepUse(h: Heap, cs: seq<Chunk>, list: seq<int>, merge: int, x: int, frag: int, h': Heap, sweeping': bool,
                x': int)
    requires Tiled(h, cs) && Separate(h, cs) && Listed(h, list) && SweepOk(h, cs, list, merge, x, frag)
    requires SweptMore(h, list, merge, x, frag, h', sweeping', x')
    ensures SameUse(h, true, x, h', sweeping', x') && (sweeping' ==> x' > x)
  {
    hide Joined, FreeMerge.Start, FreeMerge.Stop, FreeMerge.RunColor, Separate, Listed, SweepOk;
    if x in h && h[x].color.White? {
      MergeReady(h, cs, list, merge, x, frag);
      MergeUse(h, cs, list, Pos(list, merge), x, frag);
      FreeMerge.RunOfMerge(h, cs, list, Pos(list, merge), x, frag);
    } else if x in h {
      NextAfter(h, cs, x);
    }
  }

  /** An allocation adds its block to those in use, wherever the sweep is. */
  lemma SplitUse(h: Heap, cs: seq<Chunk>, c: int, r: int, wo: nat, sweeping: bool, x: int)
    requires Tiled(h, cs) && c in h && h[c].color.Blue? && c <= r && r + 1 + wo == End(h, c) && wo > 0
    ensures OneMore(h, sweeping, x, r, wo, Split(h, c, r, if sweeping && r >= x then Black else White))
  {
    var h' := Split(h, c, r, if sweeping && r >= x then Black else White);
    SplitEnds(h, cs, c, r, if sweeping && r >= x then Black else White);
    assert r in h ==> r == c;
    forall a | a != r
      ensures (InUse(h, sweeping, x, a) <==> InUse(h', sweeping, x, a)) &&
              (InUse(h, sweeping, x, a) ==> h'[a].size == h[a].size)
    {
      if a in h && a != c { assert End(h', a) == End(h, a); }
    }
  }

  lemma AddUse(h: Heap, b: int, size: nat, sweeping: bool, x: int)
    requires b !in h
    ensures SameUse(h, sweeping, x, h[b := Blk(size, Blue)], sweeping, x)
  {
  }

  // ---- Any interleaving ---------------------------------------------------------------------------------------------

  /** What happens between two steps of the sweep: an allocation, or one that fails and adds a chunk. */
  datatype Request = Allocate(wo: nat) | Grow(wo: nat, b: int, size: nat)

  /** The blocks in use are those of the start and those allocated since, none of them at the place of another. */
  ghost predicate Accounts(h0: Heap, x0: int, got: map<int, nat>, h: Heap, sweeping: bool, x: int) {
    && (forall a {:trigger InUse(h, sweeping, x, a)} :: InUse(h, sweeping, x, a) <==>
        InUse(h0, true, x0, a) || a in got)
    && (forall a {:trigger a in got} :: a in got ==> !InUse(h0, true, x0, a) && a in h && h[a].size == got[a])
    && (forall a {:trigger InUse(h0, true, x0, a)} :: InUse(h0, true, x0, a) ==> a in h && h[a].size == h0[a].size)
  }

  lemma AccountsStart(h: Heap, x: int)
    ensures Accounts(h, x, map[], h, true, x)
  {
  }

  lemma AccountsSame(h0: Heap, x0: int, got: map<int, nat>, h: Heap, s: bool, x: int, h': Heap, s': bool, x': int)
    requires Accounts(h0, x0, got, h, s, x) && SameUse(h, s, x, h', s', x')
    ensures Accounts(h0, x0, got, h', s', x')
  {
    forall a | a in got
      ensures a in h' && h'[a].size == got[a]
    {
      assert InUse(h, s, x, a);
    }
    forall a | InUse(h0, true, x0, a)
      ensures a in h' && h'[a].size == h0[a].size
    {
      assert InUse(h, s, x, a);
    }
  }

  lemma AccountsMore(h0: Heap, x0: int, got: map<int, nat>, h: Heap, s: bool, x: int, r: int, wo: nat, h': Heap)
    requires Accounts(h0, x0, got, h, s, x) && OneMore(h, s, x, r, wo, h')
    ensures r !in got && Accounts(h0, x0, got[r := wo], h', s, x)
  {
    assert !InUse(h, s, x, r);
    forall a | a in got
      ensures a in h' && h'[a].size == got[a] && a != r
    {
      assert InUse(h, s, x, a);
    }
    forall a | InUse(h0, true, x0, a)
      ensures a in h' && h'[a].size == h0[a].size && a != r
    {
      assert InUse(h, s, x, a);
    }
  }

  /**
   * Serves one request, with a chunk only where there is room for it; `stale` tells that a chunk was appended behind
   * the sweep.
   */
  method Serve(m: Allocator, q: Request, ghost h0: Heap, ghost x0: int, ghost got0: map<int, nat>)
    returns (stale: bool, ghost got: map<int, nat>)
    requires m.Valid() && Accounts(h0, x0, got0, m.heap, m.sweeping, m.sweepHp) && q.wo > 0
    modifies m
    ensures (stale <==> !m.Valid()) && m.sweeping == old(m.sweeping) && m.sweepHp == old(m.sweepHp)
    ensures Accounts(h0, x0, got, m.heap, m.sweeping, m.sweepHp)
  {
    hide Tiled, Separate, Housed, Distinct, Spread, Listed, Sum, OnList, SweepOk, FreeAdd.Apart, Accounts, Split;
    stale, got := false, got0;
    var r;
    ghost var c;
    ghost var h := m.heap;
    r, c := m.Allocate(q.wo);
    if r != 0 {
      SplitUse(h, m.chunks, c, r, q.wo, m.sweeping, m.sweepHp);
      AccountsMore(h0, x0, got0, h, m.sweeping, m.sweepHp, r, q.wo, m.heap);
      got := got0[r := q.wo];
    } else if q.Grow? && FreeAdd.Apart(m.heap, m.chunks, q.b, q.size) {
      ApartFrom(m.heap, m.chunks, q.b, q.size);
      stale := m.sweeping && m.flLast < q.b < m.sweepHp;
      m.AddBlock(q.b, q.size);
      AddUse(h, q.b, q.size, m.sweeping, m.sweepHp);
      AccountsSame(h0, x0, got0, h, m.sweeping, m.sweepHp, m.heap, m.sweeping, m.sweepHp);
    }
  }

  lemma ApartFrom(h: Heap, cs: seq<Chunk>, b: int, size: nat)
    requires FreeAdd.Apart(h, cs, b, size)
    ensures b !in h
  {
  }

  /** `h` holds, as blocks in use, the black blocks of `h0` and those of `got`, with their sizes. */
  ghost predicate Kept(h0: Heap, got: map<int, nat>, h: Heap) {
    forall a {:trigger a in h} {:trigger a in h0} {:trigger a in got} ::
      && ((a in h && h[a].size > 0 && h[a].color.White?) <==> (a in h0 && h0[a].color.Black?) || a in got)
      && (a in h0 && h0[a].color.Black? ==> h[a].size == h0[a].size && a !in got)
      && (a in got ==> h[a].size == got[a])
  }

  lemma KeptAtEnd(h0: Heap, x0: int, got: map<int, nat>, h: Heap, x: int)
    requires Accounts(h0, x0, got, h, false, x) && Spread(h0) && forall a {:trigger a in h0} :: a in h0 ==> a >= x0
    ensures Kept(h0, got, h)
  {
    forall a
      ensures InUse(h, false, x, a) <==> a in h && h[a].size > 0 && h[a].color.White?
      ensures InUse(h0, true, x0, a) <==> a in h0 && h0[a].color.Black?
    {
    }
  }

  lemma KeptNothing(h: Heap)
    requires h == map[]
    ensures Kept(h, map[], h) && Swept(h)
  {
  }

  /**
   * A sweep with any requests served between its steps. Unless a chunk is appended behind it, it ends with no two free
   * blocks side by side, and with exactly the blocks that were black and those allocated since in use.
   */
  method SweepShared(m: Allocator, requests: seq<Request>) returns (stale: bool, ghost got: map<int, nat>)
    requires m.Valid() && !m.sweeping && forall i {:trigger requests[i]} :: 0 <= i < |requests| ==> requests[i].wo > 0
    modifies m
    ensures stale <==> !m.Valid()
    ensures !stale ==> !m.sweeping && Swept(m.heap) && Kept(old(m.heap), got, m.heap)
  {
    hide Tiled, Separate, Housed, Distinct, Spread, Listed, Sum, OnList, SweepOk, Accounts, Kept, Swept, SweptMore;
    hide FreeExact.Top;
    stale, got := false, map[];
    ghost var h0 := m.heap;
    m.StartSweep();
    if !m.sweeping {
      KeptNothing(h0);
      return;
    }
    ghost var x0 := m.sweepHp;
    AccountsStart(h0, x0);
    FreeExact.SweepBelowTop(m.heap, m.chunks, m.list, m.flMerge, m.sweepHp, m.lastFragment);
    var i := 0;
    while m.sweeping
      invariant m.Valid() && 0 <= i <= |requests| && !stale
      invariant Accounts(h0, x0, got, m.heap, m.sweeping, m.sweepHp)
      invariant if m.sweeping then m.sweepHp <= FreeExact.Top(m.chunks) else Swept(m.heap)
      decreases |requests| - i, m.sweeping, FreeExact.Top(m.chunks) - m.sweepHp
    {
      var serve := *;
      if i < |requests| && serve {
        stale, got := Serve(m, requests[i], h0, x0, got);
        if stale { return; }
        i := i + 1;
      } else {
        ghost var h, l, e, x, f := m.heap, m.list, m.flMerge, m.sweepHp, m.lastFragment;
        m.SweepStep();
        StepUse(h, m.chunks, l, e, x, f, m.heap, m.sweeping, m.sweepHp);
        AccountsSame(h0, x0, got, h, true, x, m.heap, m.sweeping, m.sweepHp);
      }
      if m.sweeping {
        FreeExact.SweepBelowTop(m.heap, m.chunks, m.list, m.flMerge, m.sweepHp, m.lastFragment);
      }
    }
    KeptAtEnd(h0, x0, got, m.heap, m.sweepHp);
  }
}
