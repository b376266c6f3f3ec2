/** Marking and sweeping come to an end when the mutator is stopped. */
module GcProgress {
  import opened GcHeap
  import opened GcState
  import opened GcSteps

  function NonBlack(h: Heap): set<int> {
    set a | a in h && !h[a].color.Black?
  }

  function From(h: Heap, p: int): set<int> {
    set a | a in h && p <= a
  }

  function SubRank(s: Gc): nat {
    match s.sub case Main => 2 case WeakPass => 1 case FinalPass => 0
  }

  function RescanLeft(s: Gc): nat {
    if s.scanning then 1 + |From(s.heap, s.markhp)| else 0
  }

  function WeakLeft(s: Gc): nat {
    if s.weakDone < |s.weak| then |s.weak| - s.weakDone else 0
  }

  /** The marker in `s'` is nearer to the end than in `s`. */
  ghost predicate Nearer(s': Gc, s: Gc) {
    || |NonBlack(s'.heap)| < |NonBlack(s.heap)|
    || (&& |NonBlack(s'.heap)| == |NonBlack(s.heap)|
        && (|| SubRank(s') < SubRank(s)
            || (SubRank(s') == SubRank(s) &&
                (|| (s'.pure && !s.pure)
                 || (s'.pure == s.pure &&
                     (|| RescanLeft(s') < RescanLeft(s)
                      || (RescanLeft(s') == RescanLeft(s) && WeakLeft(s') < WeakLeft(s))))))))
  }

  lemma ScanCounts(h: Heap, v: int)
    requires IsGray(h, v)
    ensures |NonBlack(Scan(h, v))| < |NonBlack(h)|
  {
    assert NonBlack(h) == NonBlack(Scan(h, v)) + {v};
    assert v !in NonBlack(Scan(h, v));
  }

  lemma ShadeCounts(h: Heap, at: set<int>)
    ensures NonBlack(Shade(h, at)) == NonBlack(h)
  {
  }

  lemma RescanCounts(h: Heap, p: int, q: int)
    requires NextBlock(h, p, q)
    ensures |From(h, q + 1)| < |From(h, p)|
  {
    assert From(h, p) == From(h, q + 1) + {q};
    assert q !in From(h, q + 1);
  }

  /** Every iteration of the marking loop brings the marker nearer to the end. */
  lemma MarkProgress(s: Gc, s': Gc)
    requires Inv(s) && MarkIter(s, s') && s'.phase.Mark?
    ensures Nearer(s', s)
  {
    if |s.gray| > 0 {
      var v := s.gray[|s.gray|-1];
      assert v in s.gray;
      ScanCounts(s.heap, v);
    } else if s.scanning {
      if !((forall a :: a in s.heap ==> a < s.markhp) && s' == s.(scanning := false)) {
        var q :|
          NextBlock(s.heap, s.markhp, q) && s' == s.(gray := if IsGray(s.heap, q) then [q] else [], markhp := q + 1);
        RescanCounts(s.heap, s.markhp, q);
      }
    } else if s.pure && s.sub.WeakPass? {
      if s.weakDone < |s.weak| {
        assert NonBlack(s'.heap) == NonBlack(s.heap);
      } else {
        ShadeCounts(s.heap, ValsOf(MoveOf(s.heap, s.finals)));
      }
    }
  }

  function SweepLeft(s: Gc): nat {
    1 + |From(s.heap, s.sweepHp)|
  }

  lemma SweepProgress(s: Gc, s': Gc)
    requires SweepIter(s, s') && s'.phase.Sweep?
    ensures SweepLeft(s') < SweepLeft(s)
  {
    var q :| NextBlock(s.heap, s.sweepHp, q) &&
             s' == if IsWhite(s.heap, q) then s.(heap := s.heap - {q}, sweepHp := q + 1)
                   else s.(heap := s.heap[q := s.heap[q].(color := White)], sweepHp := q + 1);
    RescanCounts(s.heap, s.sweepHp, q);
    assert From(s'.heap, q + 1) == From(s.heap, q + 1);
  }

  // ---- Chains of forwarding blocks end ------------------------------------------------------------

  /** Forwarding blocks do not form cycles: `rank` decreases along them. */
  ghost predicate Ranked(h: Heap, rank: map<int, nat>) {
    forall a {:trigger h[a]} :: a in h && IsForward(h, Ptr(a, 0)) ==>
      a in rank && (IsForward(h, h[a].fields[0]) ==> h[a].fields[0].base in rank && rank[h[a].fields[0].base] < rank[a])
  }

  /** The forwarding blocks that registered values go through are all in `fset` and lead to blocks. */
  ghost predicate FinalChains(h: Heap, finals: seq<Final>, fset: set<int>) {
    && (forall f :: f in finals ==> f.val in h && (IsForward(h, Ptr(f.val, 0)) ==> f.val in fset))
    && (forall a {:trigger a in fset} :: a in fset ==>
          && IsForward(h, Ptr(a, 0)) && h[a].fields[0].Ptr? && h[a].fields[0].ofs == 0
          && (IsForward(h, h[a].fields[0]) ==> h[a].fields[0].base in fset))
  }

  ghost predicate Chains(s: Gc, rank: map<int, nat>, fset: set<int>) {
    s.sub.FinalPass? || (Ranked(s.heap, rank) && FinalChains(s.heap, s.finals, fset))
  }

  /** Tags and contents of forwarding blocks are the same. */
  lemma ChainsSame(s: Gc, s': Gc, rank: map<int, nat>, fset: set<int>)
    requires Ranked(s.heap, rank) && FinalChains(s.heap, s.finals, fset) && s'.finals == s.finals
    requires s'.heap.Keys == s.heap.Keys
    requires forall a :: a in s.heap ==> s'.heap[a].tag == s.heap[a].tag
    requires forall a :: a in s.heap && s.heap[a].tag == FORWARD_TAG ==> s'.heap[a].fields == s.heap[a].fields
    ensures Ranked(s'.heap, rank) && FinalChains(s'.heap, s'.finals, fset)
  {
    forall v ensures IsForward(s'.heap, v) <==> IsForward(s.heap, v) { }
  }

  lemma ChainsScan(s: Gc, v: int, s': Gc, rank: map<int, nat>, fset: set<int>)
    requires Ranked(s.heap, rank) && FinalChains(s.heap, s.finals, fset) && s'.finals == s.finals
    requires IsGray(s.heap, v) && s'.heap == Scan(s.heap, v)
    ensures Ranked(s'.heap, rank) && FinalChains(s'.heap, s'.finals, fset)
  {
    var h, h' := s.heap, s'.heap;
    forall w ensures IsForward(h', w) <==> IsForward(h, w) { }
    assert forall a :: a in h && a != v ==> h'[a].fields == h[a].fields;
    if IsForward(h, Ptr(v, 0)) {
      assert h'[v].fields[0] == Forwarded(h, h[v].fields[0]);
      if IsForward(h, h[v].fields[0]) {
        var c := h[v].fields[0].base;
        assert h[c].fields[0] == h'[v].fields[0];
      }
    }
  }

  lemma ChainsKept(s: Gc, s': Gc, rank: map<int, nat>, fset: set<int>)
    requires Inv(s) && MarkIter(s, s') && Chains(s, rank, fset)
    ensures Chains(s', rank, fset)
  {
    hide Ranked, FinalChains;
    if |s.gray| > 0 {
      var v := s.gray[|s.gray|-1];
      assert v in s.gray;
      if !s.sub.FinalPass? { ChainsScan(s, v, s', rank, fset); }
    } else if !s.scanning && s.pure && s.sub.WeakPass? && s.weakDone < |s.weak| {
      assert WeakGoodAt(s, s.weakDone);
      ChainsSame(s, s', rank, fset);
    }
  }

  lemma {:induction false} FollowSnoc(h: Heap, v: Value, n: nat)
    ensures Follow(h, v, n + 1) == Forwarded(h, Follow(h, v, n))
    decreases n
  {
    if n > 0 { FollowSnoc(h, Forwarded(h, v), n - 1); }
  }

  /** The next step of a white chain. */
  lemma {:induction false} WhiteFollowSnoc(h: Heap, a: int, n: nat)
    ensures var b := WhiteFollow(h, a, n);
            WhiteFollow(h, a, n + 1) ==
            if IsWhite(h, b) && IsForward(h, Ptr(b, 0)) && h[b].fields[0].Ptr? && h[b].fields[0].ofs == 0
              then h[b].fields[0].base else b
    decreases n
  {
    if n > 0 && IsWhite(h, a) && IsForward(h, Ptr(a, 0)) && h[a].fields[0].Ptr? && h[a].fields[0].ofs == 0 {
      WhiteFollowSnoc(h, h[a].fields[0].base, n - 1);
    }
  }

  /** A chain settles in one place only. */
  lemma {:induction false} SettlesOnce(h: Heap, a: int, m: nat, n: nat)
    requires m <= n
    requires var b := WhiteFollow(h, a, m); !(IsWhite(h, b) && IsForward(h, Ptr(b, 0)))
    ensures WhiteFollow(h, a, n) == WhiteFollow(h, a, m)
    decreases n
  {
    if m < n {
      SettlesOnce(h, a, m, n - 1);
      WhiteFollowSnoc(h, a, n - 1);
    }
  }

  lemma SettleUnique(h: Heap, a: int, b: int)
    requires Settles(h, a, b)
    ensures SettleOf(h, a) == b
  {
    var c := SettleOf(h, a);
    assert Settles(h, a, c);
    var m: nat :| WhiteFollow(h, a, m) == b;
    var n: nat :| WhiteFollow(h, a, n) == c;
    if m <= n { SettlesOnce(h, a, m, n); } else { SettlesOnce(h, a, n, m); }
  }

  /** Registered values settle. */
  lemma {:induction false} ChainSettles(h: Heap, a: int, rank: map<int, nat>, fset: set<int>)
    requires Ranked(h, rank) && FinalChains(h, [], fset) && (IsForward(h, Ptr(a, 0)) ==> a in fset)
    ensures exists b :: Settles(h, a, b)
    decreases if a in rank then rank[a] + 1 else 0
  {
    if IsWhite(h, a) && IsForward(h, Ptr(a, 0)) {
      assert a in fset;
      var c := h[a].fields[0].base;
      if IsForward(h, Ptr(c, 0)) {
        assert c in h;
        ChainSettles(h, c, rank, fset);
        var b :| Settles(h, c, b);
        var n: nat :| WhiteFollow(h, c, n) == b;
        assert WhiteFollow(h, a, n + 1) == b;
        assert Settles(h, a, b);
      } else {
        assert WhiteFollow(h, c, 0) == c;
        assert WhiteFollow(h, a, 1) == c;
        assert Settles(h, a, c);
      }
    } else {
      assert WhiteFollow(h, a, 0) == a;
      assert Settles(h, a, a);
    }
  }
}
