/**
 * What collection does to the contents of blocks, said of the heaps before and after: a field changes only if it
 * pointed to a forwarding block, and then to a value behind it; a weak pointer is erased if its header is white or
 * infix.
 */
module GcContents {
  import opened GcHeap
  import opened GcState
  import opened GcSteps
  import opened GcRuns

  /** `v` is a pointer to a forwarding block. */
  predicate Forwards(h: Heap, v: Value) {
    v.Ptr? && v.ofs == 0 && v.base in h && h[v.base].tag == 250 && |h[v.base].fields| > 0
  }

  /** From `v`, `n` forwarding blocks lead to `w`. */
  predicate LeadsIn(h: Heap, v: Value, w: Value, n: nat)
    decreases n
  {
    if n == 0 then v == w else Forwards(h, v) && LeadsIn(h, h[v.base].fields[0], w, n - 1)
  }

  /** `w` is `v`, or a value behind the forwarding block that `v` points to. */
  ghost predicate OnChain(h: Heap, v: Value, w: Value) { exists n: nat :: LeadsIn(h, v, w, n) }

  ghost predicate ChainEnd(h: Heap, v: Value, w: Value) { OnChain(h, v, w) && !Forwards(h, w) }

  /** A field keeps its value, unless it points to a forwarding block. */
  lemma OnChainIs(h: Heap, v: Value, w: Value)
    ensures OnChain(h, v, w) <==> v == w || (Forwards(h, v) && OnChain(h, h[v.base].fields[0], w))
  {
    if OnChain(h, v, w) {
      var n: nat :| LeadsIn(h, v, w, n);
      if n > 0 { assert LeadsIn(h, h[v.base].fields[0], w, n - 1); }
    }
    if v == w { assert LeadsIn(h, v, w, 0); }
    if Forwards(h, v) && OnChain(h, h[v.base].fields[0], w) {
      var n: nat :| LeadsIn(h, h[v.base].fields[0], w, n);
      assert LeadsIn(h, v, w, n + 1);
    }
  }

  /** The same tag and number of fields; in a block that the collector scans, each field is kept. */
  ghost predicate BlockKept(h: Heap, b: Block, b': Block) {
    && b'.tag == b.tag && |b'.fields| == |b.fields|
    && (b.tag < 251 ==> forall i {:trigger b'.fields[i]} :: 0 <= i < |b.fields| ==>
        OnChain(h, b.fields[i], b'.fields[i]))
  }

  /** No block appears, and those that stay are kept. */
  ghost predicate BlocksKept(h: Heap, h': Heap) {
    forall a {:trigger h'[a]} {:trigger a in h'} :: a in h' ==> a in h && BlockKept(h, h[a], h'[a])
  }

  /** Data that are not values, outside weak arrays, are the same. */
  ghost predicate RawKept(s: Gc, s': Gc) {
    forall a {:trigger s'.heap[a]} :: a in s'.heap && a in s.heap && s.heap[a].tag >= 251 && a !in s.weak ==>
      s'.heap[a].fields == s.heap[a].fields
  }

  /** A weak pointer is erased if the header just before what it leads to is white, or an infix header. */
  predicate Dead(h: Heap, x: Value) { x.Ptr? && x.base in h && (x.ofs != 0 || h[x.base].color.White?) }

  ghost predicate FieldCleaned(h: Heap, v: Value, w: Value) {
    exists x :: ChainEnd(h, v, x) && w == if Dead(h, x) then Imm(0) else x
  }

  ghost predicate ArrayCleaned(h: Heap, vs: seq<Value>, ws: seq<Value>) {
    |ws| == |vs| && forall i {:trigger ws[i]} :: 0 <= i < |vs| ==> FieldCleaned(h, vs[i], ws[i])
  }

  /** A weak array is as it was, or has been cleaned. */
  ghost predicate WeakKept(s: Gc, s': Gc) {
    forall a {:trigger s'.heap[a]} :: a in s'.heap && a in s.heap && a in s.weak ==>
      s'.heap[a].fields == s.heap[a].fields || ArrayCleaned(s.heap, s.heap[a].fields, s'.heap[a].fields)
  }

  ghost predicate Contents(s: Gc, s': Gc) { BlocksKept(s.heap, s'.heap) && RawKept(s, s') && WeakKept(s, s') }

  // ---- Steps --------------------------------------------------------------------------------------------------------

  lemma {:induction false} FollowChain(h: Heap, v: Value, n: nat)
    ensures OnChain(h, v, Follow(h, v, n))
    decreases n
  {
    OnChainIs(h, v, Follow(h, v, n));
    if n > 0 {
      if Forwards(h, v) {
        FollowChain(h, h[v.base].fields[0], n - 1);
      } else {
        FollowChain(h, v, n - 1);
      }
    }
  }

  lemma SameContents(s: Gc, s': Gc)
    requires forall a {:trigger a in s'.heap} :: a in s'.heap ==>
               a in s.heap && s'.heap[a].tag == s.heap[a].tag && s'.heap[a].fields == s.heap[a].fields
    ensures Contents(s, s')
  {
    forall a | a in s'.heap
      ensures a in s.heap && BlockKept(s.heap, s.heap[a], s'.heap[a])
    {
      forall i | 0 <= i < |s.heap[a].fields|
        ensures OnChain(s.heap, s.heap[a].fields[i], s'.heap[a].fields[i])
      {
        OnChainIs(s.heap, s.heap[a].fields[i], s'.heap[a].fields[i]);
      }
    }
  }

  lemma PopContents(s: Gc, s': Gc)
    requires MarkPop(s, s') && (forall j {:trigger s.weak[j]} :: 0 <= j < |s.weak| ==>
               s.weak[j] in s.heap && s.heap[s.weak[j]].tag >= 251)
    ensures Contents(s, s')
  {
    var v := s.gray[|s.gray|-1];
    var h, h' := s.heap, s'.heap;
    forall a | a in h'
      ensures a in h && BlockKept(h, h[a], h'[a])
    {
      forall i {:trigger h'[a].fields[i]} | 0 <= i < |h[a].fields| == |h'[a].fields|
        ensures OnChain(h, h[a].fields[i], h'[a].fields[i])
      {
        var f := h[a].fields[i];
        OnChainIs(h, f, h'[a].fields[i]);
        if Forwards(h, f) { OnChainIs(h, h[f.base].fields[0], h[f.base].fields[0]); }
      }
    }
    hide Scan, Pushed, WhiteIn;
    RawSame(h, v);
    assert WeakKept(s, s') by {
      forall a {:trigger h'[a]} | a in h' && a in h && a in s.weak
        ensures h'[a].fields == h[a].fields
      {
        var j :| 0 <= j < |s.weak| && s.weak[j] == a;
      }
    }
  }

  lemma RawSame(h: Heap, v: int)
    requires v in h
    ensures var h' := Scan(h, v);
            forall a {:trigger h'[a]} :: a in h' && a in h && h[a].tag >= 251 ==> h'[a].fields == h[a].fields
  {
  }

  lemma WeakContents(s: Gc, s': Gc)
    requires MarkWeak(s, s') && s.weak[s.weakDone] in s.heap && s.heap[s.weak[s.weakDone]].tag >= 251
    ensures Contents(s, s')
  {
    var cur, h := s.weak[s.weakDone], s.heap;
    if IsWhite(h, cur) {
      SameContents(s, s');
    } else {
      var ws :| CleanFields(h, h[cur].fields, ws) &&
                s' == s.(heap := h[cur := h[cur].(fields := ws)], weakDone := s.weakDone + 1);
      forall i {:trigger ws[i]} | 0 <= i < |ws|
        ensures FieldCleaned(h, h[cur].fields[i], ws[i])
      {
        CleanIs(h, h[cur].fields[i], ws[i]);
      }
      SameContents(s, s.(weakDone := s.weakDone + 1));
      assert s'.heap[cur].fields == ws;
    }
  }

  lemma CleanIs(h: Heap, v: Value, w: Value)
    requires CleanField(h, v, w)
    ensures FieldCleaned(h, v, w)
  {
    var x :| EndsAt(h, v, x) && w == if WhiteHeader(h, x) then Imm(0) else x;
    var n: nat :| Follow(h, v, n) == x;
    FollowChain(h, v, n);
    assert ChainEnd(h, v, x);
  }

  /** Every step of the collector keeps the contents. */
  lemma StepContents(s: Gc, op: Op, s': Gc)
    requires Inv(s) && Step(s, op, s') && (op.Start? || op.MarkOne? || op.SweepOne?)
    ensures Contents(s, s')
  {
    hide Contents;
    if op.MarkOne? {
      MarkContents(s, s');
    } else {
      SameContents(s, s');
    }
  }

  lemma MarkContents(s: Gc, s': Gc)
    requires Inv(s) && MarkIter(s, s')
    ensures Contents(s, s')
  {
    hide Contents, MarkPop, MarkWeak, RootsGood, EdgesGood, FinalsGood, ColorsGood;
    forall j {:trigger s.weak[j]} | 0 <= j < |s.weak|
      ensures s.weak[j] in s.heap && s.heap[s.weak[j]].tag >= 251
    {
      assert WeakGoodAt(s, j);
    }
    if |s.gray| > 0 {
      PopContents(s, s');
    } else if !s.scanning && s.pure && s.sub.WeakPass? && s.weakDone < |s.weak| {
      WeakContents(s, s');
    } else {
      SameContents(s, s');
    }
  }

  // ---- Several steps ------------------------------------------------------------------------------------------------

  lemma {:induction false} ChainTrans(h: Heap, u: Value, v: Value, w: Value, n: nat)
    requires LeadsIn(h, u, v, n) && OnChain(h, v, w)
    ensures OnChain(h, u, w)
    decreases n
  {
    OnChainIs(h, u, w);
    if n > 0 { ChainTrans(h, h[u.base].fields[0], v, w, n - 1); }
  }

  lemma OnChainTrans(h: Heap, u: Value, v: Value, w: Value)
    requires OnChain(h, u, v) && OnChain(h, v, w)
    ensures OnChain(h, u, w)
  {
    var n: nat :| LeadsIn(h, u, v, n);
    ChainTrans(h, u, v, w, n);
  }

  /** What a chain leads to later, it led to before. */
  lemma {:induction false} ChainBack(h: Heap, h': Heap, v: Value, w: Value, n: nat)
    requires BlocksKept(h, h') && LeadsIn(h', v, w, n)
    ensures OnChain(h, v, w)
    decreases n
  {
    OnChainIs(h, v, w);
    if n > 0 {
      var u, u' := h[v.base].fields[0], h'[v.base].fields[0];
      assert BlockKept(h, h[v.base], h'[v.base]) && OnChain(h, u, u');
      ChainBack(h, h', u', w, n - 1);
      OnChainTrans(h, u, u', w);
    }
  }

  lemma OnChainBack(h: Heap, h': Heap, v: Value, w: Value)
    requires BlocksKept(h, h') && OnChain(h', v, w)
    ensures OnChain(h, v, w)
  {
    var n: nat :| LeadsIn(h', v, w, n);
    ChainBack(h, h', v, w, n);
  }

  lemma BlocksTrans(h: Heap, h1: Heap, h2: Heap)
    requires BlocksKept(h, h1) && BlocksKept(h1, h2)
    ensures BlocksKept(h, h2)
  {
    hide OnChain;
    forall a | a in h2
      ensures a in h && BlockKept(h, h[a], h2[a])
    {
      assert BlockKept(h, h[a], h1[a]) && BlockKept(h1, h1[a], h2[a]);
      forall i {:trigger h2[a].fields[i]} | h[a].tag < 251 && 0 <= i < |h[a].fields|
        ensures OnChain(h, h[a].fields[i], h2[a].fields[i])
      {
        assert OnChain(h, h[a].fields[i], h1[a].fields[i]) && OnChain(h1, h1[a].fields[i], h2[a].fields[i]);
        OnChainBack(h, h1, h1[a].fields[i], h2[a].fields[i]);
        OnChainTrans(h, h[a].fields[i], h1[a].fields[i], h2[a].fields[i]);
      }
    }
  }

  /** A weak array leaves the list only if its header is white. */
  ghost predicate ListKept(s: Gc, s': Gc) {
    && (forall j {:trigger s'.weak[j]} :: 0 <= j < |s'.weak| ==> s'.weak[j] in s.weak)
    && (forall j {:trigger s.weak[j]} :: 0 <= j < |s.weak| ==> s.weak[j] in s'.weak || IsWhite(s.heap, s.weak[j]))
  }

  lemma StepList(s: Gc, op: Op, s': Gc)
    requires Step(s, op, s') && (op.Start? || op.MarkOne? || op.SweepOne?)
    ensures ListKept(s, s')
  {
    hide MarkPop, MarkRescan, CleanFields, MarkFinal, NextBlock;
    if op.MarkOne? && |s.gray| == 0 && !s.scanning && s.pure && s.sub.WeakPass? && s.weakDone < |s.weak| {
      WeakList(s, s');
    } else {
      assert s'.weak == s.weak by { hide CleanFields; SameList(s, op, s'); }
    }
  }

  lemma SameList(s: Gc, op: Op, s': Gc)
    requires Step(s, op, s') && (op.Start? || op.MarkOne? || op.SweepOne?)
    requires op.MarkOne? ==> !(|s.gray| == 0 && !s.scanning && s.pure && s.sub.WeakPass? && s.weakDone < |s.weak|)
    ensures s'.weak == s.weak
  {
  }

  lemma WeakList(s: Gc, s': Gc)
    requires MarkWeak(s, s')
    ensures ListKept(s, s')
  {
    hide CleanFields;
    var k := s.weakDone;
    if IsWhite(s.heap, s.weak[k]) {
      forall j {:trigger s.weak[j]} | 0 <= j < |s.weak|
        ensures s.weak[j] in s'.weak || IsWhite(s.heap, s.weak[j])
      {
        if j < k { assert s'.weak[j] == s.weak[j]; } else if j > k { assert s'.weak[j - 1] == s.weak[j]; }
      }
    } else {
      assert s'.weak == s.weak;
    }
  }

  /** After any number of steps of the collector: blocks kept, data the same, and no array new on the list. */
  ghost predicate Since(s0: Gc, s: Gc) {
    && BlocksKept(s0.heap, s.heap) && RawKept(s0, s)
    && (forall j {:trigger s.weak[j]} :: 0 <= j < |s.weak| ==> s.weak[j] in s0.weak)
  }

  lemma SinceSelf(s: Gc)
    ensures Since(s, s)
  {
    SameContents(s, s);
  }

  lemma SinceTrans(s0: Gc, s1: Gc, s2: Gc)
    requires Since(s0, s1) && Since(s1, s2)
    ensures Since(s0, s2)
  {
    BlocksTrans(s0.heap, s1.heap, s2.heap);
    hide BlockKept;
    forall a {:trigger s2.heap[a]} | a in s2.heap && a in s0.heap && s0.heap[a].tag >= 251 && a !in s0.weak
      ensures s2.heap[a].fields == s0.heap[a].fields
    {
      assert a in s1.heap && s1.heap[a].tag == s0.heap[a].tag by { TagsKept(s0.heap, s1.heap, a); }
      Sublist(s0.weak, s1.weak, a);
    }
    forall j {:trigger s2.weak[j]} | 0 <= j < |s2.weak|
      ensures s2.weak[j] in s0.weak
    {
      Sublist(s0.weak, s1.weak, s2.weak[j]);
    }
  }

  lemma Sublist(big: seq<int>, small: seq<int>, a: int)
    requires forall j {:trigger small[j]} :: 0 <= j < |small| ==> small[j] in big
    ensures a in small ==> a in big
  {
  }

  lemma TagsKept(h: Heap, h': Heap, a: int)
    requires BlocksKept(h, h') && a in h'
    ensures a in h && h'[a].tag == h[a].tag && |h'[a].fields| == |h[a].fields|
  {
  }

  lemma SinceOne(s: Gc, op: Op, s': Gc)
    requires Inv(s) && Step(s, op, s') && (op.Start? || op.MarkOne? || op.SweepOne?)
    ensures Since(s, s')
  {
    hide Inv, Step, BlocksKept, RawKept, WeakKept;
    StepContents(s, op, s');
    StepList(s, op, s');
  }

  lemma SinceStep(s0: Gc, s: Gc, op: Op, s': Gc)
    requires Since(s0, s) && Inv(s) && Step(s, op, s') && (op.Start? || op.MarkOne? || op.SweepOne?)
    ensures Since(s0, s')
  {
    hide Since, Inv, Step;
    SinceOne(s, op, s');
    SinceTrans(s0, s, s');
  }

  /** A weak field of a segment of a run: kept, or erased at a moment when its header was white or infix. */
  ghost predicate WeakField(states: seq<Gc>, n: nat, v: Value, w: Value)
    requires 0 < |states|
  {
    || OnChain(states[0].heap, v, w)
    || (w == Imm(0) && exists k, x :: ErasedAt(states, n, v, k, x))
  }

  ghost predicate ErasedAt(states: seq<Gc>, n: nat, v: Value, k: int, x: Value)
    requires 0 < |states|
  {
    0 <= k < n && k < |states| && OnChain(states[0].heap, v, x) && Dead(states[k].heap, x)
  }

  ghost predicate CollectorOnly(ops: seq<Op>) {
    forall i {:trigger ops[i]} :: 0 <= i < |ops| ==> ops[i].Start? || ops[i].MarkOne? || ops[i].SweepOne?
  }

  lemma WeakFieldStep(states: seq<Gc>, n: nat, v: Value, w: Value, w': Value)
    requires n < |states| && BlocksKept(states[0].heap, states[n].heap) && WeakField(states, n, v, w)
    requires w' == w || FieldCleaned(states[n].heap, w, w')
    ensures WeakField(states, n + 1, v, w')
  {
    hide BlocksKept, Dead;
    var h0, h := states[0].heap, states[n].heap;
    ImmStays(h, w, w');
    if w' == w {
      if !OnChain(h0, v, w) {
        var k, x :| ErasedAt(states, n, v, k, x);
        assert ErasedAt(states, n + 1, v, k, x);
      }
    } else {
      var x :| ChainEnd(h, w, x) && w' == if Dead(h, x) then Imm(0) else x;
      OnChainBack(h0, h, w, x);
      OnChainTrans(h0, v, w, x);
      if Dead(h, x) { assert ErasedAt(states, n + 1, v, n, x); }
    }
  }

  lemma ImmStays(h: Heap, w: Value, w': Value)
    requires w' == w || FieldCleaned(h, w, w')
    ensures w.Imm? ==> w' == w
  {
    if w' != w {
      var x :| ChainEnd(h, w, x) && w' == if Dead(h, x) then Imm(0) else x;
      OnChainIs(h, w, x);
    }
  }

  /**
   * A segment of a run in which only the collector works, over any number of cycles: what is left of the heap has the
   * same tags, sizes and data, fields change only along forwarding blocks, and weak pointers are erased only when
   * their header is white or infix.
   */
  lemma {:induction false} SegmentContents(states: seq<Gc>, ops: seq<Op>, n: nat)
    requires Run(states, ops) && Inv(states[0]) && CollectorOnly(ops) && n <= |ops|
    ensures Inv(states[n]) && Since(states[0], states[n])
    ensures forall a, i {:trigger states[n].heap[a].fields[i]} ::
              a in states[n].heap && a in states[0].heap && a in states[0].weak &&
                0 <= i < |states[0].heap[a].fields| &&
              i < |states[n].heap[a].fields| ==>
                WeakField(states, n, states[0].heap[a].fields[i], states[n].heap[a].fields[i])
    decreases n
  {
    hide Inv, Since, Step, WeakField, Contents;
    if n == 0 {
      SinceSelf(states[0]);
      forall a, i {:trigger states[n].heap[a].fields[i]} |
        a in states[0].heap && a in states[0].weak && 0 <= i < |states[0].heap[a].fields|
        ensures WeakField(states, n, states[0].heap[a].fields[i], states[n].heap[a].fields[i])
      {
        WeakFieldStart(states, states[0].heap[a].fields[i]);
      }
    } else {
      SegmentContents(states, ops, n - 1);
      var s, op, s' := states[n-1], ops[n-1], states[n];
      assert Step(s, op, s');
      StepInv(s, op, s');
      SinceStep(states[0], s, op, s');
      forall a, i {:trigger states[n].heap[a].fields[i]} |
        a in states[n].heap && a in states[0].heap && a in states[0].weak && 0 <= i < |states[0].heap[a].fields| &&
        i < |states[n].heap[a].fields|
        ensures WeakField(states, n, states[0].heap[a].fields[i], states[n].heap[a].fields[i])
      {
        SegmentField(states, n - 1, op, a, i);
      }
    }
  }

  lemma WeakFieldStart(states: seq<Gc>, v: Value)
    requires 0 < |states|
    ensures WeakField(states, 0, v, v)
  {
    OnChainIs(states[0].heap, v, v);
  }

  lemma SegmentField(states: seq<Gc>, n: nat, op: Op, a: int, i: nat)
    requires n + 1 < |states| && Inv(states[n]) && Since(states[0], states[n]) && Step(states[n], op, states[n + 1])
    requires op.Start? || op.MarkOne? || op.SweepOne?
    requires a in states[n + 1].heap && a in states[0].heap && a in states[0].weak
    requires i < |states[0].heap[a].fields| && i < |states[n + 1].heap[a].fields|
    requires a in states[n].heap && i < |states[n].heap[a].fields| ==>
               WeakField(states, n, states[0].heap[a].fields[i], states[n].heap[a].fields[i])
    requires Inv(states[0])
    ensures WeakField(states, n + 1, states[0].heap[a].fields[i], states[n + 1].heap[a].fields[i])
  {
    hide Inv, Step, WeakField, OnChain, ArrayCleaned;
    var s, s' := states[n], states[n + 1];
    StepContents(s, op, s');
    TagsKept(s.heap, s'.heap, a);
    TagsKept(states[0].heap, s.heap, a);
    WeakTag(states[0], a);
    var w, w' := s.heap[a].fields[i], s'.heap[a].fields[i];
    assert s'.heap[a].fields == s.heap[a].fields || ArrayCleaned(s.heap, s.heap[a].fields, s'.heap[a].fields);
    assert w' == w || FieldCleaned(s.heap, w, w') by { CleanedAt(s, s', a, i); }
    WeakFieldStep(states, n, states[0].heap[a].fields[i], w, w');
  }

  lemma CleanedAt(s: Gc, s': Gc, a: int, i: nat)
    requires a in s.heap && a in s'.heap && i < |s.heap[a].fields| && i < |s'.heap[a].fields|
    requires s'.heap[a].fields == s.heap[a].fields || ArrayCleaned(s.heap, s.heap[a].fields, s'.heap[a].fields)
    ensures var w, w' := s.heap[a].fields[i], s'.heap[a].fields[i]; w' == w || FieldCleaned(s.heap, w, w')
  {
  }

  lemma WeakTag(s: Gc, a: int)
    requires Inv(s) && a in s.weak
    ensures a in s.heap && s.heap[a].tag == 251
  {
    var j :| 0 <= j < |s.weak| && s.weak[j] == a;
    assert WeakGoodAt(s, j);
  }
}
