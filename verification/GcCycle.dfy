/**
 * The weak arrays after a whole cycle that the mutator does not interrupt: exactly the pointers to what the roots did
 * not reach are erased.
 */
module GcCycle {
  import opened GcHeap
  import opened GcState
  import opened GcSteps
  import opened GcFinal
  import opened GcContents

  /** The pointer is infix, or leads to a block that the roots of `s0` do not reach. */
  ghost predicate Unreached(s0: Gc, x: Value) {
    x.Ptr? && x.base in s0.heap && (x.ofs != 0 || !Reach(s0.heap, RootSet(s0), x.base))
  }

  /** What a weak pointer becomes in a cycle started in `s0`. */
  ghost predicate WeakEnds(s0: Gc, v: Value, w: Value) {
    exists x :: ChainEnd(s0.heap, v, x) && w == if Unreached(s0, x) then Imm(0) else x
  }

  ghost predicate ArrayEnds(s0: Gc, vs: seq<Value>, ws: seq<Value>) {
    |ws| == |vs| && forall i {:trigger ws[i]} :: 0 <= i < |vs| ==> WeakEnds(s0, vs[i], ws[i])
  }

  /** Array number `j` of the list has been cleaned. */
  predicate PassedBy(s: Gc, j: int) { !s.phase.Mark? || s.sub.FinalPass? || (s.sub.WeakPass? && j < s.weakDone) }

  ghost predicate ArraySame(s0: Gc, s: Gc, a: int)
    requires a in s0.heap && a in s.heap
  {
    s.heap[a].fields == s0.heap[a].fields
  }

  ghost predicate ArrayDone(s0: Gc, s: Gc, a: int)
    requires a in s0.heap && a in s.heap
  {
    ArrayEnds(s0, s0.heap[a].fields, s.heap[a].fields)
  }

  /** What a cycle started in `s0` has done to the weak arrays. */
  ghost predicate WeakCycle(s0: Gc, s: Gc) {
    && (forall a {:trigger a in s0.weak} :: a in s0.weak && a in s0.heap && a in s.heap ==>
          ArraySame(s0, s, a) || ArrayDone(s0, s, a))
    && (forall j {:trigger s.weak[j]} ::
          0 <= j < |s.weak| && PassedBy(s, j) && s.weak[j] in s0.heap && s.weak[j] in s.heap ==>
            ArrayDone(s0, s, s.weak[j]))
    && (forall a {:trigger a in s0.weak} :: a in s0.weak && Reach(s0.heap, RootSet(s0), a) ==> a in s.weak)
  }

  ghost predicate Cycle(s0: Gc, s: Gc) { Inv(s0) && Scheduled(s0, s) && Since(s0, s) && WeakCycle(s0, s) }

  ghost predicate CycleKept(s: Gc, s': Gc) { forall s0 {:trigger Cycle(s0, s)} :: Cycle(s0, s) ==> Cycle(s0, s') }

  lemma StartCycles(s: Gc, s': Gc)
    requires Inv(s) && StartCycle(s, s')
    ensures Cycle(s, s')
  {
    StartSchedule(s, s');
    hide Scheduled, Since, Inv;
    assert Step(s, Start, s');
    SinceOne(s, Start, s');
  }

  /** A step that changes no weak array, nor the list, nor what has been cleaned. */
  lemma WeakStill(s0: Gc, s: Gc, s': Gc)
    requires WeakCycle(s0, s) && s'.weak == s.weak
    requires forall j {:trigger PassedBy(s', j)} :: 0 <= j < |s.weak| && PassedBy(s', j) ==> PassedBy(s, j)
    requires forall a {:trigger a in s'.heap} :: a in s'.heap && a in s0.weak ==>
               a in s.heap && s'.heap[a].fields == s.heap[a].fields
    requires forall j {:trigger s.weak[j]} :: 0 <= j < |s.weak| ==> s.weak[j] in s0.weak
    ensures WeakCycle(s0, s')
  {
    hide ArrayEnds, PassedBy;
    forall a {:trigger a in s0.weak} | a in s0.weak && a in s0.heap && a in s'.heap
      ensures ArraySame(s0, s', a) || ArrayDone(s0, s', a)
    {
      assert ArraySame(s0, s, a) || ArrayDone(s0, s, a);
    }
    forall j {:trigger s'.weak[j]} | 0 <= j < |s'.weak| && PassedBy(s', j) && s'.weak[j] in s0.heap &&
      s'.weak[j] in s'.heap
      ensures ArrayDone(s0, s', s'.weak[j])
    {
      assert s.weak[j] in s0.weak && s.weak[j] in s.heap;
    }
  }

  // ---- Cleaning one array -------------------------------------------------------------------------------------------

  lemma ForwardsSame(h0: Heap, h: Heap, v: Value)
    requires BlocksKept(h0, h) && h.Keys == h0.Keys
    ensures Forwards(h, v) <==> Forwards(h0, v)
  {
    hide BlockKept;
    if v.Ptr? && v.base in h { TagsKept(h0, h, v.base); }
  }

  lemma EndSame(h0: Heap, h: Heap, v: Value, x: Value)
    requires BlocksKept(h0, h) && h.Keys == h0.Keys && ChainEnd(h, v, x)
    ensures ChainEnd(h0, v, x)
  {
    OnChainBack(h0, h, v, x);
    ForwardsSame(h0, h, x);
  }

  /** Marking is complete: white is what the roots did not reach. */
  ghost predicate AllMarked(s0: Gc, s: Gc) {
    && BlocksKept(s0.heap, s.heap) && s.heap.Keys == s0.heap.Keys
    && forall a {:trigger IsWhite(s.heap, a)} :: a in s0.heap ==>
       (IsWhite(s.heap, a) <==> !Reach(s0.heap, RootSet(s0), a))
  }

  lemma DeadIs(s0: Gc, s: Gc, x: Value)
    requires AllMarked(s0, s)
    ensures Dead(s.heap, x) <==> Unreached(s0, x)
  {
    hide Reach, BlocksKept;
    if x.Ptr? && x.base in s0.heap { assert IsWhite(s.heap, x.base) <==> !Reach(s0.heap, RootSet(s0), x.base); }
  }

  lemma CleanFirst(s0: Gc, s: Gc, v: Value, w: Value)
    requires AllMarked(s0, s) && FieldCleaned(s.heap, v, w)
    ensures WeakEnds(s0, v, w)
  {
    hide Dead, Unreached, ChainEnd;
    var x :| ChainEnd(s.heap, v, x) && w == if Dead(s.heap, x) then Imm(0) else x;
    EndSame(s0.heap, s.heap, v, x);
    DeadIs(s0, s, x);
  }

  lemma CleanAgain(s0: Gc, s: Gc, v: Value, w: Value, w': Value)
    requires AllMarked(s0, s) && WeakEnds(s0, v, w) && FieldCleaned(s.heap, w, w')
    ensures w' == w
  {
    hide Dead, Unreached, AllMarked;
    var x :| ChainEnd(s0.heap, v, x) && w == if Unreached(s0, x) then Imm(0) else x;
    var y :| ChainEnd(s.heap, w, y) && w' == if Dead(s.heap, y) then Imm(0) else y;
    DeadIs(s0, s, y);
    ImmStays(s.heap, w, w');
    if w == x {
      assert !Forwards(s.heap, x) by { MarkedForwards(s0, s, x); }
      OnChainIs(s.heap, x, y);
    }
  }

  lemma MarkedForwards(s0: Gc, s: Gc, x: Value)
    requires AllMarked(s0, s)
    ensures Forwards(s.heap, x) <==> Forwards(s0.heap, x)
  {
    ForwardsSame(s0.heap, s.heap, x);
  }

  lemma CleanArray(s0: Gc, s: Gc, vs: seq<Value>, ws: seq<Value>, ws': seq<Value>)
    requires AllMarked(s0, s) && ArrayCleaned(s.heap, ws, ws') && (ws == vs || ArrayEnds(s0, vs, ws))
    ensures ArrayEnds(s0, vs, ws')
  {
    hide AllMarked, WeakEnds, FieldCleaned;
    forall i {:trigger ws'[i]} | 0 <= i < |ws'|
      ensures WeakEnds(s0, vs[i], ws'[i])
    {
      assert FieldCleaned(s.heap, ws[i], ws'[i]);
      if ws == vs {
        CleanFirst(s0, s, vs[i], ws'[i]);
      } else {
        assert WeakEnds(s0, vs[i], ws[i]);
        CleanAgain(s0, s, vs[i], ws[i], ws'[i]);
      }
    }
  }

  lemma Marked(s0: Gc, s: Gc)
    requires Scheduled(s0, s) && Since(s0, s) && s.phase.Mark? && !s.sub.FinalPass?
    requires GrayGood(s) && |s.gray| == 0 && !s.scanning && s.pure
    ensures AllMarked(s0, s)
  {
    MarkedDivides(s0, s);
    hide BlocksKept, Reach, RootSet, GrayGood;
    var g := Divided(s0);
    forall a {:trigger IsWhite(s.heap, a)} | a in s0.heap
      ensures IsWhite(s.heap, a) <==> !Reach(s0.heap, RootSet(s0), a)
    {
      assert IsWhite(s.heap, a) <==> IsWhite(g, a);
    }
  }

  lemma WeakPassCycle(s0: Gc, s: Gc, s': Gc)
    requires Cycle(s0, s) && Inv(s) && s.phase.Mark? && s.sub.WeakPass? && |s.gray| == 0 && !s.scanning && s.pure
    requires s.weakDone < |s.weak| && MarkWeak(s, s')
    ensures WeakCycle(s0, s')
  {
    Marked(s0, s);
    assert WeakGoodAt(s, s.weakDone);
    WeakContents(s, s');
    hide Inv, Scheduled, Since, AllMarked, ArrayEnds, CleanFields;
    var k := s.weakDone;
    var cur := s.weak[k];
    if IsWhite(s.heap, cur) {
      assert !Reach(s0.heap, RootSet(s0), cur) by { MarkedWhite(s0, s, cur); }
      Unlinked(s0, s, s');
    } else {
      assert cur in s0.weak && cur in s0.heap by { InOld(s0, s, k); }
      CleanedHere(s0, s, s');
    }
  }

  lemma MarkedWhite(s0: Gc, s: Gc, a: int)
    requires AllMarked(s0, s) && IsWhite(s.heap, a)
    ensures a in s0.heap && !Reach(s0.heap, RootSet(s0), a)
  {
  }

  lemma InOld(s0: Gc, s: Gc, k: nat)
    requires Inv(s0) && Since(s0, s) && k < |s.weak|
    ensures s.weak[k] in s0.weak && s.weak[k] in s0.heap
  {
    WeakTag(s0, s.weak[k]);
  }

  lemma Unlinked(s0: Gc, s: Gc, s': Gc)
    requires WeakCycle(s0, s) && s.phase.Mark? && s.sub.WeakPass? && s.weakDone < |s.weak|
    requires s' == s.(weak := s.weak[..s.weakDone] + s.weak[s.weakDone + 1..])
    requires !Reach(s0.heap, RootSet(s0), s.weak[s.weakDone])
    ensures WeakCycle(s0, s')
  {
    hide ArrayDone, ArraySame, Reach;
    var k := s.weakDone;
    forall j {:trigger s'.weak[j]} | 0 <= j < |s'.weak| && PassedBy(s', j) && s'.weak[j] in s0.heap &&
      s'.weak[j] in s'.heap
      ensures ArrayDone(s0, s', s'.weak[j])
    {
      assert j < k && s'.weak[j] == s.weak[j] && PassedBy(s, j);
      assert ArrayDone(s0, s, s.weak[j]);
      DoneSame(s0, s, s', s.weak[j]);
    }
    forall a {:trigger a in s0.weak} | a in s0.weak && a in s0.heap && a in s'.heap
      ensures ArraySame(s0, s', a) || ArrayDone(s0, s', a)
    {
      assert ArraySame(s0, s, a) || ArrayDone(s0, s, a);
      DoneSame(s0, s, s', a);
    }
    forall a {:trigger a in s0.weak} | a in s0.weak && Reach(s0.heap, RootSet(s0), a)
      ensures a in s'.weak
    {
      var j :| 0 <= j < |s.weak| && s.weak[j] == a;
      if j < k { assert s'.weak[j] == a; } else { assert s'.weak[j - 1] == a; }
    }
  }

  lemma DoneSame(s0: Gc, s: Gc, s': Gc, a: int)
    requires a in s0.heap && a in s.heap && a in s'.heap && s'.heap[a].fields == s.heap[a].fields
    ensures ArrayDone(s0, s, a) <==> ArrayDone(s0, s', a)
    ensures ArraySame(s0, s, a) <==> ArraySame(s0, s', a)
  {
  }

  lemma CleanedHere(s0: Gc, s: Gc, s': Gc)
    requires WeakCycle(s0, s) && AllMarked(s0, s) && s.phase.Mark? && s.sub.WeakPass? && s.weakDone < |s.weak|
    requires var cur := s.weak[s.weakDone];
             && cur in s.heap && cur in s0.weak && cur in s0.heap && !IsWhite(s.heap, cur) && WeakKept(s, s') &&
                MarkWeak(s, s')
    ensures WeakCycle(s0, s')
  {
    hide Reach, AllMarked, ArrayDone, ArraySame, WeakKept;
    var cur, k := s.weak[s.weakDone], s.weakDone;
    CurDone(s0, s, s');
    assert s'.weak == s.weak && s'.weakDone == k + 1 && s'.phase == s.phase && s'.sub == s.sub;
    assert forall a {:trigger s'.heap[a]} :: a in s.heap && a != cur ==> a in s'.heap && s'.heap[a] == s.heap[a];
    assert s'.heap.Keys == s.heap.Keys;
    hide MarkWeak;
    forall j {:trigger s'.weak[j]} | 0 <= j < |s'.weak| && PassedBy(s', j) && s'.weak[j] in s0.heap &&
      s'.weak[j] in s'.heap
      ensures ArrayDone(s0, s', s'.weak[j])
    {
      if s.weak[j] != cur {
        assert PassedBy(s, j) && ArrayDone(s0, s, s.weak[j]);
        DoneSame(s0, s, s', s.weak[j]);
      }
    }
    forall a {:trigger a in s0.weak} | a in s0.weak && a in s0.heap && a in s'.heap
      ensures ArraySame(s0, s', a) || ArrayDone(s0, s', a)
    {
      if a != cur {
        assert ArraySame(s0, s, a) || ArrayDone(s0, s, a);
        DoneSame(s0, s, s', a);
      }
    }
  }

  lemma CurDone(s0: Gc, s: Gc, s': Gc)
    requires WeakCycle(s0, s) && AllMarked(s0, s) && s.weakDone < |s.weak|
    requires var cur := s.weak[s.weakDone];
             && cur in s.heap && cur in s0.weak && cur in s0.heap && !IsWhite(s.heap, cur) && MarkWeak(s, s')
    ensures s.weak[s.weakDone] in s'.heap && ArrayDone(s0, s', s.weak[s.weakDone])
  {
    hide Reach, AllMarked, ArrayEnds, CleanField;
    var cur, h := s.weak[s.weakDone], s.heap;
    var ws :| CleanFields(h, h[cur].fields, ws) &&
              s' == s.(heap := h[cur := h[cur].(fields := ws)], weakDone := s.weakDone + 1);
    forall i {:trigger ws[i]} | 0 <= i < |ws|
      ensures FieldCleaned(h, h[cur].fields[i], ws[i])
    {
      CleanIs(h, h[cur].fields[i], ws[i]);
    }
    assert ArraySame(s0, s, cur) || ArrayDone(s0, s, cur);
    CleanArray(s0, s, s0.heap[cur].fields, h[cur].fields, ws);
  }

  // ---- Every step ---------------------------------------------------------------------------------------------------

  lemma SameFields(s: Gc, op: Op, s': Gc)
    requires Inv(s) && Step(s, op, s') && (op.MarkOne? || op.SweepOne?)
    requires op.MarkOne? ==> !(|s.gray| == 0 && !s.scanning && s.pure && s.sub.WeakPass? && s.weakDone < |s.weak|)
    ensures forall a {:trigger a in s'.heap} :: a in s'.heap ==>
            a in s.heap && (s.heap[a].tag >= 251 ==> s'.heap[a].fields == s.heap[a].fields)
  {
    if op.MarkOne? && |s.gray| > 0 { RawSame(s.heap, s.gray[|s.gray|-1]); }
  }

  lemma SamePassed(s: Gc, op: Op, s': Gc)
    requires Inv(s) && Step(s, op, s') && (op.MarkOne? || op.SweepOne?)
    requires op.MarkOne? ==> !(|s.gray| == 0 && !s.scanning && s.pure && s.sub.WeakPass? && s.weakDone < |s.weak|)
    ensures forall j {:trigger PassedBy(s', j)} :: 0 <= j < |s.weak| && PassedBy(s', j) ==> PassedBy(s, j)
  {
    hide RootsGood, EdgesGood, ColorsGood, GrayGood, FinalsGood, WeakGoodAt;
  }

  lemma OtherCycle(s0: Gc, s: Gc, op: Op, s': Gc)
    requires Cycle(s0, s) && Inv(s) && Step(s, op, s') && (op.MarkOne? || op.SweepOne?)
    requires op.MarkOne? ==> !(|s.gray| == 0 && !s.scanning && s.pure && s.sub.WeakPass? && s.weakDone < |s.weak|)
    ensures WeakCycle(s0, s')
  {
    hide Step, Scheduled, WeakCycle, Inv;
    SameList(s, op, s');
    SameFields(s, op, s');
    SamePassed(s, op, s');
    forall a {:trigger a in s'.heap} | a in s'.heap && a in s0.weak
      ensures a in s.heap && s'.heap[a].fields == s.heap[a].fields
    {
      WeakTag(s0, a);
      TagsKept(s0.heap, s.heap, a);
    }
    WeakStill(s0, s, s');
  }

  lemma CycleStep(s0: Gc, s: Gc, op: Op, s': Gc)
    requires Cycle(s0, s) && Inv(s) && Step(s, op, s') && (op.MarkOne? || op.SweepOne?)
    ensures Cycle(s0, s')
  {
    assert Scheduled(s0, s') by {
      hide Scheduled, Since, WeakCycle;
      if op.MarkOne? { MarkIterSchedule(s0, s, s'); } else { SweepSchedule(s0, s, s'); }
    }
    hide Scheduled, Since, WeakCycle, MarkWeak, Inv, SweepIter, MarkPop, MarkRescan, MarkFinal;
    SinceStep(s0, s, op, s');
    if op.MarkOne? && |s.gray| == 0 && !s.scanning && s.pure && s.sub.WeakPass? && s.weakDone < |s.weak| {
      WeakPassCycle(s0, s, s');
    } else {
      OtherCycle(s0, s, op, s');
    }
  }
}
