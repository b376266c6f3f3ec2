/** Every step keeps the invariant of the collector. */
module GcSafety {
  import opened GcHeap
  import opened GcState
  import opened GcSteps

  // ---- Marking steps in general --------------------------------------------------------------

  lemma RespectsSelf(h: Heap)
    ensures Respects(h, h)
  {
  }

  lemma ShadeRespects(h: Heap, at: set<int>)
    ensures Respects(h, Shade(h, at))
    ensures forall a, b {:trigger Edge(h, a, b)} {:trigger Edge(Shade(h, at), a, b)} :: Edge(h, a, b) <==>
            Edge(Shade(h, at), a, b)
  {
  }

  /** Weak arrays and other unscanned blocks keep their contents. */
  ghost predicate RawKept(h: Heap, h': Heap) {
    forall a {:trigger h'[a]} :: a in h && h[a].tag >= NO_SCAN_TAG ==>
      a in h' && h'[a].tag == h[a].tag && h'[a].fields == h[a].fields
  }

  lemma MarkWeakKept(s: Gc, s': Gc)
    requires s.phase.Mark? && s'.phase.Mark? && Respects(s.heap, s'.heap) && RawKept(s.heap, s'.heap)
    requires s'.weak == s.weak && s'.weakDone == s.weakDone && s'.sub == s.sub
    requires WeakGood(s)
    ensures WeakGood(s')
  {
    forall i | 0 <= i < |s.weak| ensures WeakGoodAt(s', i) {
      assert WeakGoodAt(s, i);
      var a := s.weak[i];
      assert a in s'.heap && s'.heap[a].fields == s.heap[a].fields;
      forall b | b in Bases(s'.heap[a].fields) ensures b in s'.heap && (Cleaned(s', i) ==> Safe(s'.heap, b)) {
        assert b in Bases(s.heap[a].fields);
        if Cleaned(s', i) { SafeKept(s.heap, s'.heap, b); }
      }
    }
  }

  lemma MarkFinalsKept(s: Gc, s': Gc)
    requires s.phase.Mark? && s'.phase.Mark? && Respects(s.heap, s'.heap)
    requires s'.finals == s.finals && s'.sub == s.sub
    requires FinalsGood(s)
    ensures FinalsGood(s')
  {
    forall f | f in s.finals ensures f.val in s'.heap && (s.sub.FinalPass? ==> Safe(s'.heap, f.val)) {
      if s.sub.FinalPass? { SafeKept(s.heap, s'.heap, f.val); }
    }
  }

  lemma MarkRootsKept(s: Gc, s': Gc)
    requires s.phase.Mark? && s'.phase.Mark? && Respects(s.heap, s'.heap)
    requires RootsGood(s)
    requires forall a :: a in RootSet(s') ==> a in RootSet(s) || Safe(s'.heap, a)
    ensures RootsGood(s')
  {
    hide RootSet;
    forall a | a in RootSet(s') ensures Good(s', a) {
      if a in RootSet(s) { SafeKept(s.heap, s'.heap, a); }
    }
  }

  /** Edges of blocks that were black already, or that are not black yet. */
  lemma MarkEdgeKept(s: Gc, s': Gc, a: int, b: int)
    requires s.phase.Mark? && s'.phase.Mark? && Respects(s.heap, s'.heap) && EdgesGood(s)
    requires Edge(s.heap, a, b)
    ensures b in s'.heap && (IsBlack(s.heap, a) ==> Safe(s'.heap, b))
  {
    if IsBlack(s.heap, a) { SafeKept(s.heap, s'.heap, b); }
  }

  /** The gray stack after pushing `added` on `base`. */
  lemma PushedGray(s: Gc, base: seq<int>, added: set<int>, s': Gc)
    requires Pushed(s, base, added, s') && s'.phase.Mark?
    requires forall a :: a in base || a in added ==> IsGray(s'.heap, a)
    requires s'.scanning == s.scanning && s'.markhp == s.markhp
    requires s.pure ==> forall a {:trigger IsGray(s'.heap, a)} :: IsGray(s'.heap, a) ==>
               a in base || a in added || (s.scanning && s.markhp <= a)
    ensures GrayGood(s')
  {
  }

  // ---- darken --------------------------------------------------------------------------------

  lemma DarkenGray(s: Gc, at: set<int>, s': Gc)
    requires s.phase.Mark? && GrayGood(s) && SameButMarks(s, s')
    requires s'.heap == Shade(s.heap, at) && Pushed(s, s.gray, WhiteIn(s.heap, at), s')
    ensures GrayGood(s')
  {
    forall a | IsGray(s'.heap, a) && s.pure
      ensures a in s.gray || a in WhiteIn(s.heap, at) || (s.scanning && s.markhp <= a)
    {
      if IsWhite(s.heap, a) { assert a in WhiteIn(s.heap, at); } else { assert IsGray(s.heap, a); }
    }
    PushedGray(s, s.gray, WhiteIn(s.heap, at), s');
  }

  /** Darkening any blocks keeps the invariant and makes them safe. */
  lemma DarkenInv(s: Gc, at: set<int>, s': Gc)
    requires s.phase.Mark? && Inv(s) && SameButMarks(s, s')
    requires s'.heap == Shade(s.heap, at) && Pushed(s, s.gray, WhiteIn(s.heap, at), s')
    ensures Inv(s') && Respects(s.heap, s'.heap)
    ensures forall a :: a in at && a in s.heap ==> Safe(s'.heap, a)
  {
    ShadeRespects(s.heap, at);
    DarkenGray(s, at, s');
    assert RootSet(s') == RootSet(s);
    MarkRootsKept(s, s');
    MarkWeakKept(s, s');
    MarkFinalsKept(s, s');
    forall a, b | Edge(s'.heap, a, b) ensures b in s'.heap && (IsBlack(s'.heap, a) ==> Safe(s'.heap, b)) {
      assert Edge(s.heap, a, b);
      MarkEdgeKept(s, s', a, b);
    }
    forall a | a in at && a in s.heap ensures Safe(s'.heap, a) {
      if IsGray(s'.heap, a) { GraySafe(s'.heap, a); }
    }
  }

  // ---- Starting a cycle ------------------------------------------------------------------------

  lemma StartInv(s: Gc, s': Gc)
    requires Inv(s) && StartCycle(s, s')
    ensures Inv(s')
  {
    var at := RootSet(s);
    ShadeRespects(s.heap, at);
    assert RootSet(s') == RootSet(s);
    forall a | a in RootSet(s') ensures Good(s', a) {
      assert a in s.heap;
      GraySafe(s'.heap, a);
    }
    forall a, b | Edge(s'.heap, a, b) ensures b in s'.heap && (IsBlack(s'.heap, a) ==> Safe(s'.heap, b)) {
      assert Edge(s.heap, a, b);
    }
    forall i | 0 <= i < |s.weak| ensures WeakGoodAt(s', i) {
      assert WeakGoodAt(s, i);
      assert s'.heap[s.weak[i]].fields == s.heap[s.weak[i]].fields;
    }
    StartGray(s, s');
  }

  lemma StartGray(s: Gc, s': Gc)
    requires Inv(s) && StartCycle(s, s')
    ensures GrayGood(s')
  {
    hide RootSet;
    forall a | IsGray(s'.heap, a) ensures a in WhiteIn(s.heap, RootSet(s)) {
    }
  }

  // ---- Scanning a gray block ---------------------------------------------------------------------

  lemma ScanRespects(h: Heap, v: int)
    requires IsGray(h, v)
    ensures Respects(h, Scan(h, v)) && RawKept(h, Scan(h, v)) && IsBlack(Scan(h, v), v)
  {
    var h' := Scan(h, v);
    forall a, b | Edge(h, a, b) && b in h && !h[a].color.Black? && IsWhite(h', b)
      ensures !IsBlack(h', a) && Edge(h', a, b)
    {
    }
  }

  /** The references of a scanned block: those it had, and those of the forwarding blocks it went through. */
  lemma ScanRefs(h: Heap, v: int, b: int)
    requires IsGray(h, v) && Edge(Scan(h, v), v, b)
    ensures Edge(h, v, b) || exists c :: Edge(h, v, c) && Edge(h, c, b)
  {
    var fs, fs' := h[v].fields, Scan(h, v)[v].fields;
    var w :| w in fs' && w.Ptr? && w.base == b;
    var i :| 0 <= i < |fs'| && fs'[i] == w;
    if IsForward(h, fs[i]) {
      var c := fs[i].base;
      assert fs[i] in fs && c in Bases(fs) && Edge(h, v, c);
      assert h[c].fields[0] in h[c].fields && Edge(h, c, b);
    } else {
      assert fs[i] in fs && b in Bases(fs);
    }
  }

  lemma ScanEdgeBlack(s: Gc, v: int, b: int)
    requires s.phase.Mark? && EdgesGood(s) && IsGray(s.heap, v) && Edge(Scan(s.heap, v), v, b)
    ensures Safe(Scan(s.heap, v), b)
  {
    var h, h' := s.heap, Scan(s.heap, v);
    ScanRespects(h, v);
    ScanRefs(h, v, b);
    if Edge(h, v, b) {
      ScanChild(h, v, b);
    } else {
      var c :| Edge(h, v, c) && Edge(h, c, b);
      assert c in h && b in h;
      ScanChild(h, v, c);
      if IsBlack(h, c) {
        SafeKept(h, h', b);
      } else {
        assert c != v;
        assert h'[c].fields == h[c].fields && h'[c].tag == h[c].tag && Edge(h', c, b);
        EdgeSafe(h', c, b);
      }
    }
  }

  lemma ScanChild(h: Heap, v: int, b: int)
    requires IsGray(h, v) && Edge(h, v, b) && b in h
    ensures !IsWhite(Scan(h, v), b) && Safe(Scan(h, v), b)
  {
    if IsGray(Scan(h, v), b) { GraySafe(Scan(h, v), b); }
  }

  lemma PopGray(s: Gc, s': Gc)
    requires s.phase.Mark? && GrayGood(s) && MarkPop(s, s')
    ensures GrayGood(s')
  {
    var v := s.gray[|s.gray|-1];
    var base := s.gray[..|s.gray|-1];
    var added := WhiteIn(s.heap, Refs(s.heap[v]));
    assert v in s.gray && IsGray(s.heap, v);
    assert v !in base;
    forall a | a in base ensures IsGray(s'.heap, a) { assert a in s.gray; }
    forall a | IsGray(s'.heap, a) && s.pure ensures a in base || a in added || (s.scanning && s.markhp <= a) {
      if IsGray(s.heap, a) {
        assert a in s.gray ==> a in base || a == v;
      } else {
        assert a in added;
      }
    }
    PushedGray(s, base, added, s');
  }

  lemma PopInv(s: Gc, s': Gc)
    requires s.phase.Mark? && Inv(s) && MarkPop(s, s')
    ensures Inv(s')
  {
    var v := s.gray[|s.gray|-1];
    assert v in s.gray && IsGray(s.heap, v);
    ScanRespects(s.heap, v);
    PopGray(s, s');
    assert RootSet(s') == RootSet(s);
    MarkRootsKept(s, s');
    MarkWeakKept(s, s');
    MarkFinalsKept(s, s');
    forall a, b | Edge(s'.heap, a, b) ensures b in s'.heap && (IsBlack(s'.heap, a) ==> Safe(s'.heap, b)) {
      if a == v {
        ScanEdgeBlack(s, v, b);
        SafeAllocated(s'.heap, b);
      } else {
        ScanOther(s.heap, v, a, b);
        MarkEdgeKept(s, s', a, b);
      }
    }
    ScanShape(s, v, s');
  }

  lemma ScanOther(h: Heap, v: int, a: int, b: int)
    requires IsGray(h, v) && a != v && Edge(Scan(h, v), a, b)
    ensures Edge(h, a, b) && (IsBlack(Scan(h, v), a) ==> IsBlack(h, a))
  {
  }

  lemma ScanShape(s: Gc, v: int, s': Gc)
    requires s.phase.Mark? && s'.phase.Mark? && ColorsGood(s) && IsGray(s.heap, v) && s'.heap == Scan(s.heap, v)
    ensures ColorsGood(s')
  {
  }

  // ---- Rescanning after an overflow, and the changes of subphase ------------------------------------

  /** The heap, the roots and the tables are the same; only the marker's own bookkeeping changes. */
  lemma BookkeepingInv(s: Gc, s': Gc)
    requires s.phase.Mark? && Inv(s) && GrayGood(s')
    requires s' == s.(gray := s'.gray, pure := s'.pure, scanning := s'.scanning, markhp := s'.markhp)
    ensures Inv(s')
  {
    RespectsSelf(s.heap);
    MarkWeakKept(s, s');
    assert RootSet(s') == RootSet(s);
  }

  lemma RescanInv(s: Gc, s': Gc)
    requires s.phase.Mark? && Inv(s) && |s.gray| == 0 && s.scanning && MarkRescan(s, s')
    ensures Inv(s')
  {
    assert GrayGood(s');
    BookkeepingInv(s, s');
  }

  lemma RestartInv(s: Gc, s': Gc)
    requires s.phase.Mark? && Inv(s) && |s.gray| == 0 && !s.scanning && !s.pure
    requires s' == s.(pure := true, scanning := true, markhp := 0)
    ensures Inv(s')
  {
    BookkeepingInv(s, s');
  }

  /** When the stack is empty, the heap pure and no rescan is on, no block is gray. */
  lemma NothingGray(s: Gc)
    requires GrayGood(s) && |s.gray| == 0 && !s.scanning && s.pure
    ensures forall a :: !IsGray(s.heap, a)
    ensures forall a :: Safe(s.heap, a) <==> IsBlack(s.heap, a)
  {
    forall a ensures !Prot(s.heap, a) {
      if n: nat :| ProtN(s.heap, a, n) { NoGrayNoProt(s.heap, a, n); }
    }
  }

  lemma ToWeakInv(s: Gc, s': Gc)
    requires s.phase.Mark? && Inv(s) && s.sub.Main? && s' == s.(sub := WeakPass, weakDone := 0)
    ensures Inv(s')
  {
    assert RootSet(s') == RootSet(s);
    forall i | 0 <= i < |s.weak| ensures WeakGoodAt(s', i) {
      assert WeakGoodAt(s, i);
    }
  }

  // ---- The weak list ---------------------------------------------------------------------------------

  /** Following forwarding blocks stays in the heap. */
  lemma {:induction false} FollowIn(s: Gc, v: Value, n: nat)
    requires s.phase.Mark? && EdgesGood(s) && (v.Ptr? ==> v.base in s.heap)
    ensures Follow(s.heap, v, n).Ptr? ==> Follow(s.heap, v, n).base in s.heap
    decreases n
  {
    if n > 0 {
      var w := Forwarded(s.heap, v);
      if IsForward(s.heap, v) && w.Ptr? {
        assert w in s.heap[v.base].fields;
        assert Edge(s.heap, v.base, w.base);
      }
      FollowIn(s, w, n - 1);
    }
  }

  lemma CleanIn(s: Gc, vs: seq<Value>, ws: seq<Value>, b: int)
    requires s.phase.Mark? && EdgesGood(s) && CleanFields(s.heap, vs, ws) && b in Bases(ws)
    requires forall c :: c in Bases(vs) ==> c in s.heap
    ensures b in s.heap && !IsWhite(s.heap, b)
  {
    var w :| w in ws && w.Ptr? && w.base == b;
    var i :| 0 <= i < |ws| && ws[i] == w;
    assert CleanField(s.heap, vs[i], ws[i]);
    var x :| EndsAt(s.heap, vs[i], x) && w == if WhiteHeader(s.heap, x) then Imm(0) else x;
    var n: nat :| Follow(s.heap, vs[i], n) == x;
    if vs[i].Ptr? { assert vs[i] in vs && vs[i].base in Bases(vs); }
    FollowIn(s, vs[i], n);
  }

  /** Changing the contents of a weak array changes no edge and no colour. */
  lemma WeakFieldsRespect(h: Heap, cur: int, ws: seq<Value>)
    requires cur in h && h[cur].tag >= NO_SCAN_TAG
    ensures var h' := h[cur := h[cur].(fields := ws)];
            && Respects(h, h')
            && (forall a, b {:trigger Edge(h', a, b)} :: Edge(h', a, b) <==> Edge(h, a, b))
            && (forall a {:trigger IsGray(h', a)} :: IsGray(h', a) <==> IsGray(h, a))
            && (forall a {:trigger IsBlack(h', a)} :: IsBlack(h', a) <==> IsBlack(h, a))
  {
  }

  /** Everything but the weak list itself is unaffected by a change in a weak array. */
  lemma WeakArrayInv(s: Gc, cur: int, ws: seq<Value>, s': Gc)
    requires s.phase.Mark? && Inv(s) && cur in s.heap && s.heap[cur].tag == ABSTRACT_TAG
    requires s' == s.(heap := s.heap[cur := s.heap[cur].(fields := ws)], weakDone := s'.weakDone)
    requires WeakGood(s')
    ensures Inv(s')
  {
    WeakFieldsRespect(s.heap, cur, ws);
    assert RootSet(s') == RootSet(s);
    MarkRootsKept(s, s');
    MarkFinalsKept(s, s');
    forall a, b | Edge(s'.heap, a, b) ensures b in s'.heap && (IsBlack(s'.heap, a) ==> Safe(s'.heap, b)) {
      MarkEdgeKept(s, s', a, b);
    }
    assert GrayGood(s') by { hide RootsGood, EdgesGood, WeakGood, FinalsGood; }
  }

  lemma MarkWeakInv(s: Gc, s': Gc)
    requires s.phase.Mark? && Inv(s) && s.sub.WeakPass? && |s.gray| == 0 && !s.scanning && s.pure && MarkWeak(s, s')
    ensures Inv(s')
  {
    var cur := s.weak[s.weakDone];
    assert WeakGoodAt(s, s.weakDone);
    if IsWhite(s.heap, cur) {
      assert RootSet(s') == RootSet(s);
      forall i | 0 <= i < |s'.weak| ensures WeakGoodAt(s', i) {
        var j := if i < s.weakDone then i else i + 1;
        assert WeakGoodAt(s, j) && s'.weak[i] == s.weak[j];
      }
      assert GrayGood(s');
    } else {
      var ws :| CleanFields(s.heap, s.heap[cur].fields, ws) &&
                s' == s.(heap := s.heap[cur := s.heap[cur].(fields := ws)], weakDone := s.weakDone + 1);
      WeakCleaned(s, ws, s');
      WeakArrayInv(s, cur, ws, s');
    }
  }

  lemma WeakCleaned(s: Gc, ws: seq<Value>, s': Gc)
    requires s.phase.Mark? && Inv(s) && s.sub.WeakPass? && |s.gray| == 0 && !s.scanning && s.pure &&
             s.weakDone < |s.weak|
    requires var cur := s.weak[s.weakDone];
             && cur in s.heap && !IsWhite(s.heap, cur) && CleanFields(s.heap, s.heap[cur].fields, ws)
             && s' == s.(heap := s.heap[cur := s.heap[cur].(fields := ws)], weakDone := s.weakDone + 1)
    ensures WeakGood(s')
  {
    var cur := s.weak[s.weakDone];
    assert WeakGoodAt(s, s.weakDone);
    WeakFieldsRespect(s.heap, cur, ws);
    NothingGray(s);
    forall i | 0 <= i < |s'.weak| ensures WeakGoodAt(s', i) {
      assert WeakGoodAt(s, i);
      var a := s.weak[i];
      forall b | b in Bases(s'.heap[a].fields) ensures b in s'.heap && (Cleaned(s', i) ==> Safe(s'.heap, b)) {
        if a == cur {
          CleanIn(s, s.heap[cur].fields, ws, b);
          assert !IsGray(s.heap, b);
          assert IsBlack(s.heap, b);
        } else if Cleaned(s', i) {
          assert Cleaned(s, i);
          SafeKept(s.heap, s'.heap, b);
        }
      }
    }
  }

  // ---- Finalised values ------------------------------------------------------------------------------

  lemma {:induction false} WhiteFollowIn(s: Gc, a: int, n: nat)
    requires s.phase.Mark? && EdgesGood(s) && a in s.heap
    ensures WhiteFollow(s.heap, a, n) in s.heap
    decreases n
  {
    if n > 0 && IsWhite(s.heap, a) && IsForward(s.heap, Ptr(a, 0)) && s.heap[a].fields[0].Ptr? &&
      s.heap[a].fields[0].ofs == 0 {
      var w := s.heap[a].fields[0];
      assert w in s.heap[a].fields;
      assert Edge(s.heap, a, w.base);
      WhiteFollowIn(s, w.base, n - 1);
    }
  }

  lemma KeptFinal(s: Gc, s': Gc, f: Final)
    requires MarkFinal(s, s') && f in s'.finals
    ensures exists g :: g in s.finals && f == Settled(s.heap, g) && !IsWhite(s.heap, f.val)
  {
    assert f in Entries(s'.finals);
  }

  lemma MovedFinal(s: Gc, s': Gc, f: Final)
    requires MarkFinal(s, s') && f in s'.finalising && f !in s.finalising
    ensures f.val in ValsOf(MoveOf(s.heap, s.finals))
    ensures exists g :: g in s.finals && f == Settled(s.heap, g) && IsWhite(s.heap, f.val)
  {
    assert f in Entries(s'.finalising);
  }

  lemma FinalRoots(s: Gc, s': Gc, a: int)
    requires MarkFinal(s, s') && a in RootSet(s')
    ensures a in RootSet(s) || a in ValsOf(MoveOf(s.heap, s.finals))
  {
    if f :| f in s'.finals && f.fun.Ptr? && f.fun.base == a {
      KeptFinal(s, s', f);
    } else if f :| f in s'.finalising && f.fun.Ptr? && f.fun.base == a {
      if f !in s.finalising { MovedFinal(s, s', f); }
    } else if f :| f in s'.finalising && f.val == a {
      if f !in s.finalising { MovedFinal(s, s', f); }
    }
  }

  lemma MovedAllocated(s: Gc, a: int)
    requires a in ValsOf(MoveOf(s.heap, s.finals))
    ensures a in s.heap
  {
    var f :| f in MoveOf(s.heap, s.finals) && f.val == a;
  }

  /** `final_update`: what stays finalisable is black, what is moved is darkened. */
  lemma FinalInv(s: Gc, s': Gc)
    requires s.phase.Mark? && Inv(s) && s.sub.WeakPass? && |s.gray| == 0 && !s.scanning && s.pure &&
             s.weakDone == |s.weak|
    requires MarkFinal(s, s')
    ensures Inv(s')
  {
    FinalTables(s, s');
    hide Inv, RootSet, Pushed, FinalsGood;
    forall a | a in RootSet(s')
      ensures a in RootSet(s) || a in ValsOf(MoveOf(s.heap, s.finals))
    {
      FinalRoots(s, s', a);
    }
    forall a | a in ValsOf(MoveOf(s.heap, s.finals)) ensures a in s.heap { MovedAllocated(s, a); }
    FinalMarks(s, ValsOf(MoveOf(s.heap, s.finals)), s');
  }

  lemma FinalMarks(s: Gc, at: set<int>, s': Gc)
    requires s.phase.Mark? && Inv(s) && s.sub.WeakPass? && s.weakDone == |s.weak| && FinalsGood(s')
    requires s' == s.(heap := s'.heap, gray := s'.gray, cap := s'.cap, pure := s'.pure, sub := FinalPass,
                      finals := s'.finals, finalising := s'.finalising)
    requires s'.heap == Shade(s.heap, at) && Pushed(s, s.gray, WhiteIn(s.heap, at), s')
    requires forall a :: a in at ==> a in s.heap
    requires forall a :: a in RootSet(s') ==> a in RootSet(s) || a in at
    ensures Inv(s')
  {
    var s1 := s.(heap := s'.heap, gray := s'.gray, cap := s'.cap, pure := s'.pure);
    DarkenInv(s, at, s1);
    hide RootSet, Bases, Shade;
    forall a | a in RootSet(s') ensures Good(s', a) {
      if a in RootSet(s) { SafeKept(s.heap, s'.heap, a); }
    }
    forall i | 0 <= i < |s'.weak| ensures WeakGoodAt(s', i) { assert WeakGoodAt(s1, i); }
  }

  lemma FinalTables(s: Gc, s': Gc)
    requires s.phase.Mark? && Inv(s) && |s.gray| == 0 && !s.scanning && s.pure && MarkFinal(s, s')
    ensures FinalsGood(s')
  {
    NothingGray(s);
    ShadeRespects(s.heap, ValsOf(MoveOf(s.heap, s.finals)));
    forall f | f in s'.finals ensures f.val in s'.heap && Safe(s'.heap, f.val) {
      KeptFinal(s, s', f);
      var g :| g in s.finals && f == Settled(s.heap, g) && !IsWhite(s.heap, f.val);
      assert Settles(s.heap, g.val, f.val);
      var n: nat :| WhiteFollow(s.heap, g.val, n) == f.val;
      WhiteFollowIn(s, g.val, n);
      assert !IsGray(s.heap, f.val);
      SafeKept(s.heap, s'.heap, f.val);
    }
  }

  // ---- The sweep -------------------------------------------------------------------------------------

  /** When marking ends, the safe blocks are exactly the black ones. */
  lemma ToSweepInv(s: Gc, s': Gc)
    requires s.phase.Mark? && Inv(s) && s.sub.FinalPass? && |s.gray| == 0 && !s.scanning && s.pure
    requires s' == s.(phase := Sweep, sweepHp := 0)
    ensures Inv(s')
  {
    NothingGray(s);
    assert RootSet(s') == RootSet(s);
    hide RootSet, Safe, Bases;
    forall a ensures IsBlack(s.heap, a) ==> Kept(s', a) { }
    forall a, b | Edge(s'.heap, a, b) && Kept(s', a) ensures Kept(s', b) {
      assert Edge(s.heap, a, b) && !IsGray(s.heap, a);
    }
    forall i | 0 <= i < |s.weak| ensures WeakGoodAt(s', i) {
      assert WeakGoodAt(s, i) && !IsGray(s.heap, s.weak[i]);
    }
    forall a | a in s'.heap ensures !s'.heap[a].color.Gray? { assert !IsGray(s.heap, a); }
    SweepGray(s, s');
  }

  lemma SweepGray(s: Gc, s': Gc)
    requires GrayGood(s) && |s.gray| == 0 && !s.scanning && s.pure && s' == s.(phase := Sweep, sweepHp := 0)
    ensures GrayGood(s')
  {
  }

  lemma SweepInv(s: Gc, s': Gc)
    requires Inv(s) && SweepIter(s, s')
    ensures Inv(s')
    ensures forall a :: a in s.heap && a !in s'.heap ==> !Kept(s, a)
  {
    assert RootSet(s') == RootSet(s);
    hide RootSet, Bases, Refs;
    if (forall a :: a in s.heap ==> a < s.sweepHp) && s' == s.(phase := Idle) {
      SweepDone(s, s');
    } else {
      var q :| NextBlock(s.heap, s.sweepHp, q) &&
               s' == if IsWhite(s.heap, q) then s.(heap := s.heap - {q}, sweepHp := q + 1)
                     else s.(heap := s.heap[q := s.heap[q].(color := White)], sweepHp := q + 1);
      SweepOneBlock(s, q, s');
    }
  }

  lemma SweepDone(s: Gc, s': Gc)
    requires Inv(s) && s.phase.Sweep? && (forall a :: a in s.heap ==> a < s.sweepHp) && s' == s.(phase := Idle)
    ensures Inv(s')
  {
    assert RootSet(s') == RootSet(s);
    hide RootSet, Bases, Refs;
    forall a, b | Edge(s'.heap, a, b) ensures b in s'.heap {
      assert Edge(s.heap, a, b) && Kept(s, a);
    }
    forall i | 0 <= i < |s.weak| ensures WeakGoodAt(s', i) { assert WeakGoodAt(s, i); }
  }

  lemma SweepOneBlock(s: Gc, q: int, s': Gc)
    requires Inv(s) && s.phase.Sweep? && NextBlock(s.heap, s.sweepHp, q)
    requires s' == if IsWhite(s.heap, q) then s.(heap := s.heap - {q}, sweepHp := q + 1)
                   else s.(heap := s.heap[q := s.heap[q].(color := White)], sweepHp := q + 1)
    ensures Inv(s')
    ensures forall a :: a in s.heap && a !in s'.heap ==> !Kept(s, a)
  {
    assert RootSet(s') == RootSet(s);
    hide RootSet, Bases;
    forall a ensures Kept(s', a) <==> Kept(s, a) { }
    forall a, b | Edge(s'.heap, a, b) && Kept(s', a) ensures Kept(s', b) {
      assert Edge(s.heap, a, b);
    }
    hide Refs;
    forall i | 0 <= i < |s.weak| ensures WeakGoodAt(s', i) { assert WeakGoodAt(s, i); }
    forall a ensures !IsGray(s'.heap, a) { }
  }

  // ---- The mutator ------------------------------------------------------------------------------------

  function Stored(h: Heap, a: int, i: int, v: Value): Heap
    requires a in h && 0 <= i < |h[a].fields|
  {
    h[a := h[a].(fields := h[a].fields[i := v])]
  }

  lemma StoredEdges(h: Heap, a: int, i: int, v: Value, x: int, y: int)
    requires a in h && 0 <= i < |h[a].fields|
    ensures Edge(Stored(h, a, i, v), x, y) ==> Edge(h, x, y) || (x == a && v == Ptr(y, if v.Ptr? then v.ofs else 0))
    ensures Edge(h, x, y) && !(x == a && h[a].fields[i].Ptr? && h[a].fields[i].base == y) ==>
            Edge(Stored(h, a, i, v), x, y)
  {
    var fs, fs' := h[a].fields, h[a].fields[i := v];
    if x == a && Edge(Stored(h, a, i, v), x, y) {
      var w :| w in fs' && w.Ptr? && w.base == y;
      var k :| 0 <= k < |fs'| && fs'[k] == w;
      if k != i { assert fs[k] in fs; }
    }
    if x == a && Edge(h, x, y) {
      var w :| w in fs && w.Ptr? && w.base == y;
      var k :| 0 <= k < |fs| && fs[k] == w;
      if k != i { assert fs'[k] in fs'; }
    }
  }

  lemma StoreRespects(h: Heap, a: int, i: int, v: Value)
    requires a in h && 0 <= i < |h[a].fields| && h[a].tag < NO_SCAN_TAG
    requires h[a].fields[i].Ptr? ==> !IsWhite(h, h[a].fields[i].base)
    ensures Respects(h, Stored(h, a, i, v)) && RawKept(h, Stored(h, a, i, v))
  {
    forall x, y | Edge(h, x, y) && y in h && !h[x].color.Black? && IsWhite(Stored(h, a, i, v), y)
      ensures !IsBlack(Stored(h, a, i, v), x) && Edge(Stored(h, a, i, v), x, y)
    {
      StoredEdges(h, a, i, v, x, y);
    }
  }

  /** A store whose new value is good and, during marking, whose old value is white no more. */
  lemma StoreInv(s: Gc, a: int, i: int, v: Value, s': Gc)
    requires Inv(s) && a in s.heap && 0 <= i < |s.heap[a].fields| && s.heap[a].tag < NO_SCAN_TAG
    requires v.Ptr? ==> Good(s, v.base)
    requires s.phase.Mark? && s.heap[a].fields[i].Ptr? ==> !IsWhite(s.heap, s.heap[a].fields[i].base)
    requires s' == s.(heap := Stored(s.heap, a, i, v))
    ensures Inv(s')
  {
    assert RootSet(s') == RootSet(s);
    StoreGray(s, a, i, v, s');
    hide Stored, RootSet, GrayGood, ColorsGood;
    if s.phase.Mark? {
      StoreRespects(s.heap, a, i, v);
      MarkRootsKept(s, s');
      MarkWeakKept(s, s');
      MarkFinalsKept(s, s');
    } else {
      StoreTables(s, a, i, v, s');
    }
    StoreEdgesGood(s, a, i, v, s');
  }

  lemma StoreGray(s: Gc, a: int, i: int, v: Value, s': Gc)
    requires GrayGood(s) && ColorsGood(s) && a in s.heap && 0 <= i < |s.heap[a].fields|
    requires s' == s.(heap := Stored(s.heap, a, i, v))
    ensures GrayGood(s') && ColorsGood(s')
  {
    forall x ensures IsGray(s'.heap, x) <==> IsGray(s.heap, x) { }
  }

  lemma StoreEdgesGood(s: Gc, a: int, i: int, v: Value, s': Gc)
    requires Inv(s) && a in s.heap && 0 <= i < |s.heap[a].fields| && s.heap[a].tag < NO_SCAN_TAG
    requires v.Ptr? ==> Good(s, v.base)
    requires s.phase.Mark? && s.heap[a].fields[i].Ptr? ==> !IsWhite(s.heap, s.heap[a].fields[i].base)
    requires s' == s.(heap := Stored(s.heap, a, i, v))
    ensures EdgesGood(s')
  {
    hide RootsGood, WeakGood, FinalsGood, GrayGood;
    if s.phase.Mark? { StoreRespects(s.heap, a, i, v); }
    forall x, y | Edge(s'.heap, x, y)
      ensures match s'.phase
              case Idle => y in s'.heap
              case Mark => y in s'.heap && (IsBlack(s'.heap, x) ==> Safe(s'.heap, y))
              case Sweep => Kept(s', x) ==> Kept(s', y)
    {
      StoredEdges(s.heap, a, i, v, x, y);
      if s.phase.Mark? {
        if Edge(s.heap, x, y) {
          MarkEdgeKept(s, s', x, y);
        } else {
          SafeKept(s.heap, s'.heap, y);
          SafeAllocated(s'.heap, y);
        }
      }
    }
  }

  lemma StoreTables(s: Gc, a: int, i: int, v: Value, s': Gc)
    requires Inv(s) && !s.phase.Mark? && a in s.heap && 0 <= i < |s.heap[a].fields| && s.heap[a].tag < NO_SCAN_TAG
    requires s' == s.(heap := Stored(s.heap, a, i, v))
    ensures RootsGood(s') && WeakGood(s') && FinalsGood(s')
  {
    assert RootSet(s') == RootSet(s);
    hide RootSet, Bases, GrayGood, ColorsGood, EdgesGood;
    forall x ensures Kept(s', x) <==> Kept(s, x) { }
    forall j | 0 <= j < |s.weak| ensures WeakGoodAt(s', j) { assert WeakGoodAt(s, j); }
  }

  /** `Modify` is a darkening followed by a store. */
  lemma ModifyInv(s: Gc, a: int, i: int, v: Value, s': Gc)
    requires Inv(s) && Modify(s, a, i, v, s')
    ensures Inv(s')
  {
    if v.Ptr? { ReachGood(s, v.base); }
    var old_ := s.heap[a].fields[i];
    if s.phase.Mark? {
      var at := if old_.Ptr? then {old_.base} else {};
      var s2 := s.(heap := Shade(s.heap, at), gray := s'.gray, cap := s'.cap, pure := s'.pure);
      ModifySwap(s, a, i, v, at, s', s2);
      hide Inv, Pushed, Stored, Shade, Modify, Reachable;
      DarkenInv(s, at, s2);
      if v.Ptr? { SafeKept(s.heap, s2.heap, v.base); }
      StoreInv(s2, a, i, v, s');
    } else {
      StoreInv(s, a, i, v, s');
    }
  }

  lemma ModifySwap(s: Gc, a: int, i: int, v: Value, at: set<int>, s': Gc, s2: Gc)
    requires s.phase.Mark? && Modify(s, a, i, v, s')
    requires at == if s.heap[a].fields[i].Ptr? then {s.heap[a].fields[i].base} else {}
    requires s2 == s.(heap := Shade(s.heap, at), gray := s'.gray, cap := s'.cap, pure := s'.pure)
    ensures SameButMarks(s, s2) && Pushed(s, s.gray, WhiteIn(s.heap, at), s2)
    ensures a in s2.heap && 0 <= i < |s2.heap[a].fields| && s2.heap[a].tag < NO_SCAN_TAG
    ensures s2.heap[a].fields[i].Ptr? ==> !IsWhite(s2.heap, s2.heap[a].fields[i].base)
    ensures s' == s2.(heap := Stored(s2.heap, a, i, v))
  {
    var h1 := Stored(s.heap, a, i, v);
    hide Reachable;
    assert WhiteIn(h1, at) == WhiteIn(s.heap, at);
    assert Shade(h1, at) == Stored(s2.heap, a, i, v);
  }

  lemma AddEdges(h: Heap, a: int, b: Block)
    requires a !in h
    ensures Respects(h, h[a := b]) && RawKept(h, h[a := b])
    ensures forall x, y {:trigger Edge(h[a := b], x, y)} :: Edge(h[a := b], x, y) <==>
            Edge(h, x, y) || (x == a && y in Refs(b))
  {
  }

  /** A new block of the allocation colour, referring to good blocks only. */
  lemma AddBlockInv(s: Gc, a: int, b: Block, s': Gc)
    requires Inv(s) && a !in s.heap && 0 <= a && b.color == AllocationColor(s, a)
    requires b.tag == FORWARD_TAG ==> |b.fields| == 1
    requires forall y :: y in Refs(b) ==> Good(s, y)
    requires s' == s.(heap := s.heap[a := b], roots := s.roots + {Ptr(a, 0)})
    ensures Inv(s') && Good(s', a)
  {
    AddEdges(s.heap, a, b);
    assert RootSet(s') == RootSet(s) + {a};
    AddGray(s, a, b, s');
    hide RootSet, Refs, GrayGood, ColorsGood;
    if s.phase.Mark? {
      MarkRootsKept(s, s');
      MarkWeakKept(s, s');
      MarkFinalsKept(s, s');
      forall x, y | Edge(s'.heap, x, y) ensures y in s'.heap && (IsBlack(s'.heap, x) ==> Safe(s'.heap, y)) {
        if Edge(s.heap, x, y) {
          MarkEdgeKept(s, s', x, y);
        } else {
          SafeKept(s.heap, s'.heap, y);
          SafeAllocated(s'.heap, y);
        }
      }
    } else {
      AddTables(s, a, b, s');
    }
  }

  lemma AddGray(s: Gc, a: int, b: Block, s': Gc)
    requires GrayGood(s) && ColorsGood(s) && a !in s.heap && 0 <= a && b.color == AllocationColor(s, a)
    requires b.tag == FORWARD_TAG ==> |b.fields| == 1
    requires s' == s.(heap := s.heap[a := b], roots := s.roots + {Ptr(a, 0)})
    ensures GrayGood(s') && ColorsGood(s')
  {
    forall x ensures IsGray(s'.heap, x) <==> IsGray(s.heap, x) { }
  }

  lemma AddTables(s: Gc, a: int, b: Block, s': Gc)
    requires Inv(s) && !s.phase.Mark? && a !in s.heap && 0 <= a && b.color == AllocationColor(s, a)
    requires forall y :: y in Refs(b) ==> Good(s, y)
    requires s' == s.(heap := s.heap[a := b], roots := s.roots + {Ptr(a, 0)})
    ensures RootsGood(s') && EdgesGood(s') && WeakGood(s') && FinalsGood(s')
  {
    AddEdges(s.heap, a, b);
    assert RootSet(s') == RootSet(s) + {a};
    hide RootSet, Bases, Refs, GrayGood, ColorsGood;
    forall x ensures Kept(s', x) <==> Kept(s, x) || x == a { }
    forall j | 0 <= j < |s.weak| ensures WeakGoodAt(s', j) { assert WeakGoodAt(s, j); }
    forall x, y | Edge(s'.heap, x, y)
      ensures s'.phase.Idle? ==> y in s'.heap
      ensures s'.phase.Sweep? && Kept(s', x) ==> Kept(s', y)
    {
    }
  }

  lemma AllocateInv(s: Gc, a: int, tag: nat, fields: seq<Value>, s': Gc)
    requires Inv(s) && Allocate(s, a, tag, fields, s')
    ensures Inv(s')
  {
    var b := Block(AllocationColor(s, a), tag, fields);
    forall y | y in Refs(b) ensures Good(s, y) {
      var v :| v in fields && v.Ptr? && v.base == y;
      assert Usable(s, v);
      ReachGood(s, y);
    }
    AddBlockInv(s, a, b, s');
  }

  lemma WeakCreateInv(s: Gc, a: int, n: nat, s': Gc)
    requires Inv(s) && WeakCreate(s, a, n, s')
    ensures Inv(s')
  {
    var b := Block(AllocationColor(s, a), ABSTRACT_TAG, seq(n, _ => Imm(0)));
    var s1 := s.(heap := s.heap[a := b], roots := s.roots + {Ptr(a, 0)});
    AddBlockInv(s, a, b, s1);
    assert Bases(b.fields) == {};
    assert RootSet(s') == RootSet(s1);
    hide RootSet, Bases, Refs, Good;
    forall i | 0 <= i < |s'.weak| ensures WeakGoodAt(s', i) {
      if i > 0 { assert WeakGoodAt(s1, i - 1); }
    }
    assert GrayGood(s');
  }

  /** Only what the mutator holds has changed. */
  lemma HoldInv(s: Gc, s': Gc)
    requires Inv(s) && s' == s.(roots := s'.roots, finals := s'.finals, finalising := s'.finalising)
    requires forall a :: a in RootSet(s') ==> Good(s, a)
    requires forall f :: f in s'.finals ==> f in s.finals || Good(s, f.val)
    ensures Inv(s')
  {
    hide RootSet, Bases, Refs;
    forall a ensures Good(s, a) <==> Good(s', a) { }
    forall i | 0 <= i < |s'.weak| ensures WeakGoodAt(s', i) { assert WeakGoodAt(s, i); }
    forall f | f in s'.finals && f !in s.finals ensures f.val in s.heap {
      if s.phase.Mark? { SafeAllocated(s.heap, f.val); }
    }
    assert GrayGood(s');
  }

  lemma WeakSetInv(s: Gc, a: int, i: int, v: Value, s': Gc)
    requires Inv(s) && WeakSet(s, a, i, v, s')
    ensures Inv(s')
  {
    if v.Ptr? { ReachGood(s, v.base); }
    var j :| 0 <= j < |s.weak| && s.weak[j] == a;
    assert WeakGoodAt(s, j);
    WeakSetTable(s, a, i, v, s');
    if s.phase.Mark? {
      WeakArrayInv(s, a, s.heap[a].fields[i := v], s');
    } else {
      WeakFieldsRespect(s.heap, a, s.heap[a].fields[i := v]);
      assert RootSet(s') == RootSet(s);
      hide RootSet, Bases, Refs, WeakGood, Reachable;
      forall x ensures Kept(s', x) <==> Kept(s, x) { }
      assert GrayGood(s');
    }
  }

  lemma WeakSetTable(s: Gc, a: int, i: int, v: Value, s': Gc)
    requires Inv(s) && WeakSet(s, a, i, v, s') && (v.Ptr? ==> Good(s, v.base))
    requires s.heap[a].tag == ABSTRACT_TAG
    ensures WeakGood(s')
  {
    WeakFieldsRespect(s.heap, a, s.heap[a].fields[i := v]);
    hide RootsGood, EdgesGood, GrayGood, FinalsGood, Reachable;
    forall j | 0 <= j < |s'.weak| ensures WeakGoodAt(s', j) {
      assert WeakGoodAt(s, j);
      forall b | b in Bases(s'.heap[s.weak[j]].fields)
        ensures b in s'.heap && (s'.phase.Sweep? ==> Kept(s', b)) && (Cleaned(s', j) ==> Safe(s'.heap, b))
      {
        StoredBases(s.heap[s.weak[j]].fields, i, v, b);
        if s.phase.Mark? {
          if Safe(s.heap, b) { SafeKept(s.heap, s'.heap, b); SafeAllocated(s'.heap, b); }
        }
      }
    }
  }

  lemma StoredBases(fs: seq<Value>, i: int, v: Value, b: int)
    ensures 0 <= i < |fs| && b in Bases(fs[i := v]) ==> b in Bases(fs) || (v.Ptr? && v.base == b)
  {
    if 0 <= i < |fs| && b in Bases(fs[i := v]) {
      var w :| w in fs[i := v] && w.Ptr? && w.base == b;
      var k :| 0 <= k < |fs| && fs[i := v][k] == w;
      if k != i { assert fs[k] in fs; }
    }
  }

  lemma WeakGetInv(s: Gc, a: int, i: int, s': Gc)
    requires Inv(s) && WeakGet(s, a, i, s')
    ensures Inv(s')
  {
    var e := s.heap[a].fields[i];
    var j :| 0 <= j < |s.weak| && s.weak[j] == a;
    assert WeakGoodAt(s, j);
    if e.Ptr? { assert e in s.heap[a].fields && e.base in Bases(s.heap[a].fields); }
    var at := if e.Ptr? then {e.base} else {};
    assert RootSet(s.(roots := s.roots + {e})) == RootSet(s) + at;
    if s.phase.Mark? {
      var s2 := s'.(roots := s.roots);
      hide RootSet, Reachable, Bases;
      DarkenInv(s, at, s2);
      assert RootSet(s2) == RootSet(s) && RootSet(s') == RootSet(s) + at by { WeakGetRoots(s, e, s', s2); }
      HoldInv(s2, s');
    } else {
      HoldInv(s, s');
    }
  }

  lemma WeakGetRoots(s: Gc, e: Value, s': Gc, s2: Gc)
    requires SameButMarks(s.(roots := s.roots + {e}), s') && s2 == s'.(roots := s.roots)
    ensures RootSet(s2) == RootSet(s) && RootSet(s') == RootSet(s) + (if e.Ptr? then {e.base} else {})
  {
  }
}
