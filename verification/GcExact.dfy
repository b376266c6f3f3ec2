/**
 * A cycle that the mutator does not interrupt keeps exactly the blocks that can be reached, in the heap as
 * it was when the cycle started, from the roots and from the values about to be finalised.
 */
module GcExact {
  import opened GcHeap
  import opened GcState
  import opened GcSteps
  import opened GcSafety

  /** What a cycle started on `h` has established: the marker's half, then the sweeper's. */
  ghost predicate Exact(h: Heap, s: Gc) {
    match s.phase
    case Mark => Tracing(h, s)
    case Sweep => forall a {:trigger Kept(s, a)} :: Kept(s, a) <==> a in h && Reach(h, RootSet(s), a)
    case Idle => forall a {:trigger a in s.heap} :: a in s.heap <==> a in h && Reach(h, RootSet(s), a)
  }

  predicate NonWhite(h: Heap, a: int) { a in h && !h[a].color.White? }

  ghost predicate Tracing(h: Heap, s: Gc) {
    && s.heap.Keys == h.Keys
    && (forall a {:trigger IsBlack(s.heap, a)} :: a in h && !IsBlack(s.heap, a) ==> Refs(s.heap[a]) == Refs(h[a]))
    && (forall a {:trigger NonWhite(s.heap, a)} :: NonWhite(s.heap, a) ==> Reach(h, RootSet(s), a))
    && (forall a, b {:trigger Edge(h, a, b)} :: IsBlack(s.heap, a) && Edge(h, a, b) && b in h ==> NonWhite(s.heap, b))
    && (forall a {:trigger a in RootSet(s)} :: a in RootSet(s) && a in h ==> NonWhite(s.heap, a))
  }

  ghost predicate ExactKept(s: Gc, s': Gc) {
    forall h {:trigger Exact(h, s)} :: Exact(h, s) ==> Exact(h, s')
  }

  lemma ReachRoot(h: Heap, from: set<int>, a: int)
    requires a in from
    ensures Reach(h, from, a)
  {
    assert ReachN(h, from, a, 0);
  }

  lemma ReachStep(h: Heap, from: set<int>, a: int, b: int)
    requires Reach(h, from, a) && Edge(h, a, b)
    ensures Reach(h, from, b)
  {
    var n: nat :| ReachN(h, from, a, n);
    assert ReachN(h, from, b, n + 1);
  }

  lemma {:induction false} ReachMoreN(h: Heap, from: set<int>, more: set<int>, a: int, n: nat)
    requires from <= more && ReachN(h, from, a, n)
    ensures ReachN(h, more, a, n)
    decreases n
  {
    if n > 0 {
      var b :| ReachN(h, from, b, n - 1) && Edge(h, b, a);
      ReachMoreN(h, from, more, b, n - 1);
    }
  }

  lemma ReachMore(h: Heap, from: set<int>, more: set<int>, a: int)
    requires from <= more && Reach(h, from, a)
    ensures Reach(h, more, a)
  {
    var n: nat :| ReachN(h, from, a, n);
    ReachMoreN(h, from, more, a, n);
  }

  lemma StartExact(s: Gc, s': Gc)
    requires Inv(s) && StartCycle(s, s')
    ensures Exact(s.heap, s')
  {
    assert RootSet(s') == RootSet(s);
    forall a | NonWhite(s'.heap, a) ensures Reach(s.heap, RootSet(s'), a) {
      ReachRoot(s.heap, RootSet(s), a);
    }
  }

  lemma ShadeFacts(h: Heap, at: set<int>)
    ensures var g := Shade(h, at);
            && g.Keys == h.Keys
            && (forall a :: a in h ==> Refs(g[a]) == Refs(h[a]))
            && (forall a {:trigger NonWhite(g, a)} :: NonWhite(g, a) <==> NonWhite(h, a) || (a in h && a in at))
            && (forall a {:trigger IsBlack(g, a)} :: IsBlack(g, a) <==> IsBlack(h, a))
  {
  }

  lemma ScanFacts(h: Heap, v: int)
    requires IsGray(h, v)
    ensures var g := Scan(h, v);
            && g.Keys == h.Keys
            && (forall a :: a in h && a != v ==> Refs(g[a]) == Refs(h[a]))
            && (forall a {:trigger NonWhite(g, a)} :: NonWhite(g, a) <==> NonWhite(h, a) || (a in h && a in Refs(h[v])))
            && (forall a {:trigger IsBlack(g, a)} :: IsBlack(g, a) <==> IsBlack(h, a) || a == v)
  {
    var g := Scan(h, v);
    if h[v].tag < NO_SCAN_TAG { ShadeFacts(h, Refs(h[v])); }
  }

  lemma PopExact(h: Heap, s: Gc, s': Gc)
    requires s.phase.Mark? && Inv(s) && Tracing(h, s) && MarkPop(s, s')
    ensures Tracing(h, s')
  {
    var v := s.gray[|s.gray|-1];
    assert v in s.gray && IsGray(s.heap, v);
    assert RootSet(s') == RootSet(s);
    ScanFacts(s.heap, v);
    hide RootSet, Inv, Pushed, Reach, Refs, Scan, WhiteIn;
    assert !IsBlack(s.heap, v) && NonWhite(s.heap, v);
    assert forall b :: Edge(h, v, b) <==> b in Refs(s.heap[v]);
    forall a | NonWhite(s'.heap, a) ensures Reach(h, RootSet(s), a) {
      if !NonWhite(s.heap, a) {
        assert Edge(h, v, a);
        ReachStep(h, RootSet(s), v, a);
      }
    }
  }

  lemma WeakExact(h: Heap, s: Gc, s': Gc)
    requires s.phase.Mark? && s.sub.WeakPass? && Inv(s) && Tracing(h, s) && MarkWeak(s, s')
    ensures Tracing(h, s')
  {
    assert RootSet(s') == RootSet(s);
    assert WeakGoodAt(s, s.weakDone);
    hide RootSet, Inv, Reach, CleanFields, Bases;
    assert s'.heap.Keys == s.heap.Keys;
    assert forall a :: a in h ==> Refs(s'.heap[a]) == Refs(s.heap[a]) && s'.heap[a].color == s.heap[a].color;
    assert forall a :: NonWhite(s'.heap, a) == NonWhite(s.heap, a) && IsBlack(s'.heap, a) == IsBlack(s.heap, a);
  }

  /** `final_update` changes neither the functions that wait for their value nor those that are due. */
  lemma FinalFuns(s: Gc, s': Gc, f: Final)
    requires MarkFinal(s, s')
    ensures f in s'.finals || f in s'.finalising ==>
              exists g :: (g in s.finals || g in s.finalising) && g.fun == f.fun
    ensures f in s.finals || f in s.finalising ==>
              exists g :: (g in s'.finals || g in s'.finalising) && g.fun == f.fun
  {
    var move, keep := MoveOf(s.heap, s.finals), KeepOf(s.heap, s.finals);
    var g := Settled(s.heap, f);
    assert f in s.finals ==> g in keep || g in move;
    assert f in keep || f in move ==> exists g :: g in s.finals && g.fun == f.fun;
    hide MoveOf, KeepOf;
    assert g in Entries(s'.finals) <==> g in keep;
    assert g in Entries(s'.finalising) <==> g in Entries(s.finalising) || g in move;
    assert f in Entries(s'.finals) <==> f in keep;
    assert f in Entries(s'.finalising) <==> f in Entries(s.finalising) || f in move;
  }

  lemma FinalVals(s: Gc, s': Gc)
    requires MarkFinal(s, s')
    ensures (set f | f in s'.finalising :: f.val) ==
            (set f | f in s.finalising :: f.val) + ValsOf(MoveOf(s.heap, s.finals))
  {
    var move := MoveOf(s.heap, s.finals);
    hide MoveOf, KeepOf;
    assert ValsOf(Entries(s'.finalising)) == ValsOf(Entries(s.finalising)) + ValsOf(move);
    assert ValsOf(Entries(s'.finalising)) == set f | f in s'.finalising :: f.val;
    assert ValsOf(Entries(s.finalising)) == set f | f in s.finalising :: f.val;
  }

  /** `final_update` adds to the roots the values that it schedules. */
  lemma FinalRoots(s: Gc, s': Gc)
    requires MarkFinal(s, s')
    ensures RootSet(s') == RootSet(s) + ValsOf(MoveOf(s.heap, s.finals))
  {
    FinalVals(s, s');
    forall f | f in s'.finals || f in s'.finalising
      ensures f.fun.Ptr? ==> f.fun.base in RootSet(s)
    {
      FinalFuns(s, s', f);
      var g :| (g in s.finals || g in s.finalising) && g.fun == f.fun;
    }
    forall f | f in s.finals || f in s.finalising
      ensures f.fun.Ptr? ==> f.fun.base in RootSet(s')
    {
      FinalFuns(s, s', f);
      var g :| (g in s'.finals || g in s'.finalising) && g.fun == f.fun;
    }
  }

  lemma FinalExact(h: Heap, s: Gc, s': Gc)
    requires s.phase.Mark? && Tracing(h, s) && MarkFinal(s, s')
    ensures Tracing(h, s')
  {
    var vals := ValsOf(MoveOf(s.heap, s.finals));
    FinalRoots(s, s');
    ShadeFacts(s.heap, vals);
    hide RootSet, Reach, Pushed, MoveOf, KeepOf, ValsOf, Settles, Shade, Refs, WhiteIn;
    forall a | NonWhite(s'.heap, a) ensures Reach(h, RootSet(s'), a) {
      if NonWhite(s.heap, a) {
        ReachMore(h, RootSet(s), RootSet(s'), a);
      } else {
        ReachRoot(h, RootSet(s'), a);
      }
    }
  }

  lemma {:induction false} ReachBlackN(h: Heap, s: Gc, a: int, n: nat)
    requires Tracing(h, s) && (forall b :: b in h ==> !IsGray(s.heap, b))
    requires ReachN(h, RootSet(s), a, n) && a in h
    ensures IsBlack(s.heap, a)
    decreases n
  {
    if n == 0 {
      assert NonWhite(s.heap, a);
    } else {
      var b :| ReachN(h, RootSet(s), b, n - 1) && Edge(h, b, a);
      ReachBlackN(h, s, b, n - 1);
      assert NonWhite(s.heap, a);
    }
  }

  lemma ToSweepExact(h: Heap, s: Gc, s': Gc)
    requires s.phase.Mark? && Inv(s) && s.sub.FinalPass? && |s.gray| == 0 && !s.scanning && s.pure
    requires s' == s.(phase := Sweep, sweepHp := 0) && Tracing(h, s)
    ensures Exact(h, s')
  {
    NothingGray(s);
    assert RootSet(s') == RootSet(s);
    assert ColorsGood(s);
    hide RootSet, Inv;
    forall a ensures Kept(s', a) <==> a in h && Reach(h, RootSet(s), a) {
      if a in h && Reach(h, RootSet(s), a) {
        var n: nat :| ReachN(h, RootSet(s), a, n);
        ReachBlackN(h, s, a, n);
      }
      if Kept(s', a) {
        assert 0 <= a;
        assert NonWhite(s.heap, a);
      }
    }
  }

  lemma RescanExact(h: Heap, s: Gc, s': Gc)
    requires s.phase.Mark? && Tracing(h, s)
    requires s' == s.(gray := s'.gray, pure := s'.pure, scanning := s'.scanning, markhp := s'.markhp, sub := s'.sub,
                      weakDone := s'.weakDone)
    ensures Exact(h, s')
  {
    assert RootSet(s') == RootSet(s);
  }

  lemma MarkIterExact(h: Heap, s: Gc, s': Gc)
    requires Inv(s) && MarkIter(s, s') && Exact(h, s)
    ensures Exact(h, s')
  {
    hide Inv, Tracing, RootSet, Scan, CleanFields, MoveOf, KeepOf, Pushed, NextBlock, Shade, WhiteIn;
    if |s.gray| > 0 {
      PopExact(h, s, s');
    } else if s.scanning || !s.pure {
      RescanExact(h, s, s');
    } else if s.sub.Main? {
      RescanExact(h, s, s');
    } else if s.sub.WeakPass? {
      if s.weakDone < |s.weak| { WeakExact(h, s, s'); } else { FinalExact(h, s, s'); }
    } else {
      ToSweepExact(h, s, s');
    }
  }

  lemma SweepExact(h: Heap, s: Gc, s': Gc)
    requires Inv(s) && SweepIter(s, s') && Exact(h, s)
    ensures Exact(h, s')
  {
    assert RootSet(s') == RootSet(s);
    assert ColorsGood(s);
    hide RootSet, Inv, Reach;
    if s'.phase.Idle? {
      forall a ensures a in s'.heap <==> Kept(s, a) { }
    } else {
      forall a ensures Kept(s', a) <==> Kept(s, a) { }
    }
  }
}
