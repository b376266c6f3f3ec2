/**
 * Which values a cycle schedules for finalisation, when the mutator does not interrupt it: those that cannot be
 * reached, in the heap as it was when the cycle started, from the roots as they were then.
 */
module GcFinal {
  import opened GcHeap
  import opened GcState
  import opened GcSteps
  import opened GcSafety
  import opened GcProgress
  import opened GcExact

  /** The heap of a state, with what its roots reach in black and the rest in white. */
  ghost function Divided(s: Gc): Heap {
    map a | a in s.heap :: s.heap[a].(color := if Reach(s.heap, RootSet(s), a) then Black else White)
  }

  /** The white blocks are as they were. */
  ghost predicate WhiteSame(h: Heap, g: Heap) {
    g.Keys == h.Keys && forall a {:trigger IsWhite(g, a)} :: IsWhite(g, a) ==>
      g[a].tag == h[a].tag && g[a].fields == h[a].fields
  }

  /** What a cycle started in `s0` has done with the finalisable values. */
  ghost predicate Scheduled(s0: Gc, s: Gc) {
    if s.phase.Mark? && !s.sub.FinalPass? then
      && s.finals == s0.finals && s.finalising == s0.finalising && RootSet(s) == RootSet(s0)
      && WhiteSame(s0.heap, s.heap) && Tracing(s0.heap, s)
    else
      && Entries(s.finals) == KeepOf(Divided(s0), s0.finals)
      && Entries(s.finalising) == Entries(s0.finalising) + MoveOf(Divided(s0), s0.finals)
  }

  ghost predicate ScheduleKept(s: Gc, s': Gc) {
    forall s0 {:trigger Scheduled(s0, s)} :: Scheduled(s0, s) ==> Scheduled(s0, s')
  }

  // ---- Heaps that agree on the white blocks ----------------------------------------------------------------------

  ghost predicate AgreeWhite(h: Heap, g: Heap) {
    forall a {:trigger IsWhite(h, a)} {:trigger IsWhite(g, a)} ::
      (IsWhite(h, a) <==> IsWhite(g, a)) && (IsWhite(h, a) ==> g[a].tag == h[a].tag && g[a].fields == h[a].fields)
  }

  lemma {:induction false} FollowAgrees(h: Heap, g: Heap, a: int, n: nat)
    requires AgreeWhite(h, g)
    ensures WhiteFollow(h, a, n) == WhiteFollow(g, a, n)
    decreases n
  {
    assert IsWhite(h, a) <==> IsWhite(g, a);
    if n > 0 && IsWhite(h, a) && IsForward(h, Ptr(a, 0)) && h[a].fields[0].Ptr? && h[a].fields[0].ofs == 0 {
      FollowAgrees(h, g, h[a].fields[0].base, n - 1);
    }
  }

  lemma SettlesAgrees(h: Heap, g: Heap, a: int, b: int)
    requires AgreeWhite(h, g)
    ensures Settles(h, a, b) <==> Settles(g, a, b)
  {
    forall n: nat
      ensures WhiteFollow(h, a, n) == WhiteFollow(g, a, n)
    {
      FollowAgrees(h, g, a, n);
    }
    assert IsWhite(h, b) <==> IsWhite(g, b);
  }

  lemma SettleAgrees(h: Heap, g: Heap, a: int)
    requires AgreeWhite(h, g)
    ensures SettleOf(h, a) == SettleOf(g, a)
  {
    hide Settles, AgreeWhite;
    forall b
      ensures Settles(h, a, b) <==> Settles(g, a, b)
    {
      SettlesAgrees(h, g, a, b);
    }
    if b :| Settles(h, a, b) {
      SettleUnique(h, a, b);
      SettleUnique(g, a, b);
    }
  }

  lemma FinalsAgree(h: Heap, g: Heap, fs: seq<Final>)
    requires AgreeWhite(h, g)
    ensures KeepOf(h, fs) == KeepOf(g, fs) && MoveOf(h, fs) == MoveOf(g, fs)
  {
    hide AgreeWhite, SettleOf;
    forall f | f in fs
      ensures Settled(h, f) == Settled(g, f) && (Stays(h, f) <==> Stays(g, f))
    {
      SettleAgrees(h, g, f.val);
      WhiteAgrees(h, g, SettleOf(h, f.val));
    }
  }

  lemma WhiteAgrees(h: Heap, g: Heap, a: int)
    requires AgreeWhite(h, g)
    ensures IsWhite(h, a) <==> IsWhite(g, a)
  {
  }

  // ---- Steps -------------------------------------------------------------------------------------------------------

  lemma StartSchedule(s: Gc, s': Gc)
    requires Inv(s) && StartCycle(s, s')
    ensures Scheduled(s, s')
  {
    StartExact(s, s');
    assert RootSet(s') == RootSet(s);
  }

  /** When marking is complete, the blocks that the roots do not reach are the white ones. */
  lemma MarkedDivides(s0: Gc, s: Gc)
    requires Scheduled(s0, s) && s.phase.Mark? && !s.sub.FinalPass? && GrayGood(s) && |s.gray| == 0 && !s.scanning &&
             s.pure
    ensures AgreeWhite(s.heap, Divided(s0))
  {
    hide RootSet, GrayGood;
    NothingGray(s);
    var h, g := s0.heap, Divided(s0);
    forall a
      ensures IsWhite(s.heap, a) <==> IsWhite(g, a)
      ensures IsWhite(s.heap, a) ==> g[a].tag == s.heap[a].tag && g[a].fields == s.heap[a].fields
    {
      if a in h {
        if Reach(h, RootSet(s), a) {
          var n: nat :| ReachN(h, RootSet(s), a, n);
          ReachBlackN(h, s, a, n);
        } else {
          assert !NonWhite(s.heap, a);
        }
      }
    }
  }

  lemma FinalSchedules(s0: Gc, s: Gc, s': Gc)
    requires Scheduled(s0, s) && s.phase.Mark? && !s.sub.FinalPass? && GrayGood(s) && |s.gray| == 0 && !s.scanning &&
             s.pure
    requires MarkFinal(s, s')
    ensures Scheduled(s0, s')
  {
    MarkedDivides(s0, s);
    FinalsAgree(s.heap, Divided(s0), s.finals);
    hide KeepOf, MoveOf, Divided, AgreeWhite, GrayGood, Tracing, Pushed, Settles, Shade, WhiteIn;
  }

  lemma PopWhite(h: Heap, s: Gc, s': Gc)
    requires s.phase.Mark? && Inv(s) && WhiteSame(h, s.heap) && MarkPop(s, s')
    ensures WhiteSame(h, s'.heap)
  {
    var v := s.gray[|s.gray|-1];
    assert v in s.gray && IsGray(s.heap, v);
    hide Inv, Pushed, WhiteIn, ForwardFields;
    forall a | IsWhite(s'.heap, a)
      ensures s'.heap[a].tag == h[a].tag && s'.heap[a].fields == h[a].fields
    {
      assert a != v && IsWhite(s.heap, a);
    }
  }

  lemma WeakWhite(h: Heap, s: Gc, s': Gc)
    requires WhiteSame(h, s.heap) && MarkWeak(s, s')
    ensures WhiteSame(h, s'.heap)
  {
    hide CleanFields;
    var cur := s.weak[s.weakDone];
    forall a | IsWhite(s'.heap, a)
      ensures s'.heap[a].tag == h[a].tag && s'.heap[a].fields == h[a].fields
    {
      assert IsWhite(s.heap, a) && s'.heap[a] == s.heap[a];
    }
  }

  /** A step that is not the update of the finalisable values leaves them and the roots alone. */
  lemma RootsSame(s: Gc, s': Gc)
    requires MarkIter(s, s')
    ensures var update := |s.gray| == 0 && !s.scanning && s.pure && s.sub.WeakPass? && s.weakDone >= |s.weak|;
            && (!update ==> s'.finals == s.finals && s'.finalising == s.finalising && RootSet(s') == RootSet(s))
            && (!update && !s.sub.FinalPass? ==> s'.phase.Mark? && !s'.sub.FinalPass?)
            && (s.sub.FinalPass? ==> s'.phase.Sweep? || s'.sub.FinalPass?)
  {
    hide Scan, Pushed, CleanFields, NextBlock, MarkFinal;
  }

  lemma RescanSchedule(s0: Gc, s: Gc, s': Gc)
    requires s.phase.Mark? && !s.sub.FinalPass? && Scheduled(s0, s)
    requires |s.gray| == 0 && (s.scanning || !s.pure || s.sub.Main?) && MarkIter(s, s')
    ensures Scheduled(s0, s')
  {
    hide MarkFinal, MarkWeak, NextBlock;
    RootsSame(s, s');
    RescanExact(s0.heap, s, s');
  }

  lemma MarkIterSchedule(s0: Gc, s: Gc, s': Gc)
    requires Inv(s) && MarkIter(s, s') && Scheduled(s0, s)
    ensures Scheduled(s0, s')
  {
    hide Tracing, WhiteSame, MarkPop, MarkWeak, MarkFinal, MarkRescan, KeepOf, MoveOf, Divided, WeakGood, FinalsGood,
         EdgesGood;
    RootsSame(s, s');
    if s.sub.FinalPass? {
      assert s'.finals == s.finals && s'.finalising == s.finalising && (s'.phase.Sweep? || s'.sub.FinalPass?);
    } else if |s.gray| > 0 {
      PopWhite(s0.heap, s, s');
      PopExact(s0.heap, s, s');
    } else if s.scanning || !s.pure || s.sub.Main? {
      RescanSchedule(s0, s, s');
    } else if s.weakDone < |s.weak| {
      WeakExact(s0.heap, s, s');
      WeakWhite(s0.heap, s, s');
    } else {
      FinalSchedules(s0, s, s');
    }
  }

  lemma SweepSchedule(s0: Gc, s: Gc, s': Gc)
    requires SweepIter(s, s') && Scheduled(s0, s)
    ensures Scheduled(s0, s')
  {
    assert s'.finals == s.finals && s'.finalising == s.finalising && !s'.phase.Mark?;
  }
}
