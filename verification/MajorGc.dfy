/** The major collector as a mutable object: the loops of byterun/major_gc.c. */
module MajorGc {
  import opened GcHeap
  import opened GcState
  import opened GcSteps
  import opened GcSafety
  import opened GcRuns
  import opened GcProgress
  import opened GcExact
  import opened GcFinal
  import opened GcContents
  import opened GcCycle
  import opened GcPaths

  /** The scan of block `v` after its first `i` fields. */
  function ScanTo(h: Heap, v: int, i: nat): Heap
    requires v in h && i <= |h[v].fields|
  {
    var b := h[v];
    Shade(h, Bases(b.fields[..i]))[v := Block(Black, b.tag, ForwardFields(h, b.fields, i))]
  }

  lemma BasesSnoc(fs: seq<Value>, i: nat)
    requires i < |fs|
    ensures Bases(fs[..i+1]) == Bases(fs[..i]) + if fs[i].Ptr? then {fs[i].base} else {}
  {
    assert fs[..i+1] == fs[..i] + [fs[i]];
  }

  /** Forwarding blocks read during the scan are as they were before it. */
  lemma ScanToForward(h: Heap, v: int, i: nat)
    requires IsGray(h, v) && i < |h[v].fields| && (h[v].tag == FORWARD_TAG ==> |h[v].fields| == 1)
    ensures var h1 := ScanTo(h, v, i);
            && v in h1 && |h1[v].fields| == |h[v].fields| && h1[v].fields[i] == h[v].fields[i]
            && Forwarded(h1, h[v].fields[i]) == Forwarded(h, h[v].fields[i])
  {
    hide Bases, Refs;
    var h1, b := ScanTo(h, v, i), h[v].fields[i];
    assert h1[v].fields[i] == b;
    if b.Ptr? && b.base in h {
      assert h1[b.base].tag == h[b.base].tag && |h1[b.base].fields| == |h[b.base].fields|;
      if IsForward(h, b) {
        assert h1[b.base].fields[0] == h[b.base].fields[0];
      }
    }
  }

  /** Scanning one more field: skip a forwarding block, darken the child. */
  lemma ScanToStep(h: Heap, v: int, i: nat)
    requires IsGray(h, v) && i < |h[v].fields|
    ensures var b, h1 := h[v].fields[i], ScanTo(h, v, i);
            && |h1[v].fields| == |h[v].fields|
            && ScanTo(h, v, i + 1) == Shade(h1[v := h1[v].(fields := h1[v].fields[i := Forwarded(h, b)])], if b.Ptr?
                                            then {b.base} else {})
  {
    var b, bs := h[v].fields[i], Bases(h[v].fields[..i]);
    var at := if b.Ptr? then {b.base} else {};
    BasesSnoc(h[v].fields, i);
    hide Bases, Forwarded, Shade;
    var blk := Block(Black, h[v].tag, ForwardFields(h, h[v].fields, i + 1));
    assert ScanTo(h, v, i)[v := blk] == Shade(h, bs)[v := blk];
    ShadeTwice(h, bs, at, v, blk);
  }

  lemma ShadeTwice(h: Heap, at: set<int>, more: set<int>, v: int, b: Block)
    requires v in h && b.color.Black?
    ensures Shade(Shade(h, at)[v := b], more) == Shade(h, at + more)[v := b]
  {
  }

  lemma ScanToEnd(h: Heap, v: int)
    requires IsGray(h, v) && h[v].tag < NO_SCAN_TAG
    ensures ScanTo(h, v, |h[v].fields|) == Scan(h, v)
  {
    assert h[v].fields[..|h[v].fields|] == h[v].fields;
  }

  lemma ScanToStart(h: Heap, v: int)
    requires v in h
    ensures ScanTo(h, v, 0) == h[v := h[v].(color := Black)]
  {
    assert Bases([]) == {};
    assert Shade(h, {}) == h;
  }

  /** One more block pushed. */
  ghost predicate PushedOne(s: Gc, a: int, s': Gc) {
    && |s'.gray| < s'.cap && 2 <= s'.cap
    && ( || (s'.gray == s.gray + [a] && s'.pure == s.pure)
         || (s'.gray <= s.gray + [a] && !s'.pure))
  }

  lemma PushMore(s: Gc, base: seq<int>, added: set<int>, s1: Gc, a: int, s2: Gc)
    requires Pushed(s, base, added, s1) && a !in base && a !in added && PushedOne(s1, a, s2)
    ensures Pushed(s, base, added + {a}, s2)
  {
    assert forall x :: x in s2.gray ==> x in s1.gray || x == a;
    assert NoDup(s1.gray + [a]);
  }

  lemma PushNothing(s: Gc, base: seq<int>, s': Gc)
    requires NoDup(base) && s'.gray == base && |base| < s.cap == s'.cap && 2 <= s.cap && s'.pure == s.pure
    ensures Pushed(s, base, {}, s')
  {
  }

  const LONG_MAX: int := 0x7FFF_FFFF_FFFF_FFFF

  class Collector {
    var heap: Heap
    var roots: seq<Value>
    var phase: Phase
    var sub: Subphase
    var gray: seq<int>
    var cap: nat
    var pure: bool
    var scanning: bool
    var markhp: int
    var sweepHp: int
    var weak: seq<int>
    var weakDone: nat
    var finals: seq<Final>
    var finalising: seq<Final>
    var heapSize: nat

    function State(): Gc
      reads this
    {
      Gc(heap, (set v | v in roots), phase, sub, gray, cap, pure, scanning, markhp, sweepHp, weak, weakDone, finals,
         finalising)
    }

    /** `realloc_gray_vals`, when the stack is full: grow it, or drop part of it and remember that. */
    method ReallocGrayVals()
      requires |gray| == cap && 2 <= cap
      modifies this`gray, this`cap, this`pure
      ensures |gray| < cap && 2 <= cap
      ensures (gray == old(gray) && cap == 2 * old(cap) && pure == old(pure)) ||
              (gray < old(gray) && cap == old(cap) && !pure)
    {
      if cap < heapSize / 128 {
        if * {
          gray, pure := [], false;
        } else {
          cap := 2 * cap;
        }
      } else {
        gray, pure := gray[..cap / 2], false;
      }
    }

    method Push(a: int)
      requires |gray| < cap && 2 <= cap
      modifies this`gray, this`cap, this`pure
      ensures PushedOne(old(State()), a, State())
    {
      gray := gray + [a];
      if |gray| >= cap {
        ReallocGrayVals();
      }
    }

    /** `darken` */
    method DarkenValue(v: Value)
      requires NoDup(gray) && |gray| < cap && 2 <= cap && forall a :: a in gray ==> !IsWhite(heap, a)
      modifies this`heap, this`gray, this`cap, this`pure
      ensures Darken(old(State()), v, State())
    {
      ghost var s := State();
      ghost var at := if v.Ptr? then {v.base} else {};
      if v.Ptr? && v.base in heap && heap[v.base].color.White? {
        heap := heap[v.base := heap[v.base].(color := Gray)];
        ghost var s1 := State();
        Push(v.base);
        assert heap == Shade(s.heap, at);
        assert WhiteIn(s.heap, at) == {v.base};
        PushNothing(s, s.gray, s1);
        PushMore(s, s.gray, {}, s1, v.base, State());
      } else {
        assert heap == Shade(s.heap, at);
        assert WhiteIn(s.heap, at) == {};
        PushNothing(s, s.gray, State());
      }
    }

    /** Calls `darken` on each value of a table. */
    method DarkenAll(vals: seq<Value>)
      requires GrayGood(State())
      modifies this`heap, this`gray, this`cap, this`pure
      ensures SameButMarks(old(State()), State()) && heap == Shade(old(heap), Bases(vals))
      ensures Pushed(old(State()), old(gray), WhiteIn(old(heap), Bases(vals)), State())
    {
      ghost var s := State();
      ShadeNothing(s.heap);
      PushNothing(s, s.gray, s);
      assert Bases(vals[..0]) == {};
      hide Shade, WhiteIn;
      for i := 0 to |vals|
        invariant SameButMarks(s, State()) && heap == Shade(s.heap, Bases(vals[..i]))
        invariant Pushed(s, s.gray, WhiteIn(s.heap, Bases(vals[..i])), State())
      {
        ghost var s1 := State();
        ghost var at := if vals[i].Ptr? then {vals[i].base} else {};
        GrayNotWhite(s, Bases(vals[..i]), s1);
        DarkenValue(vals[i]);
        DarkenMore(s, s.gray, Bases(vals[..i]), s1, at, State());
        BasesStep(vals, i);
      }
      assert vals[..|vals|] == vals;
    }

    /**
     * `start_cycle`: darkens everything the mutator holds, finalisation functions and pending finalisations included.
     */
    method StartMarking()
      requires Inv(State()) && phase.Idle?
      modifies this
      ensures StartCycle(old(State()), State()) && Inv(State())
    {
      ghost var s := State();
      var held := roots + Funs(finals) + Funs(finalising) + Vals(finalising);
      HeldIsRootSet(s, roots);
      DarkenAll(held);
      phase, sub, scanning := Mark, Main, false;
      hide Inv, RootSet, Shade, Pushed;
      StartInv(s, State());
    }

    /** Scans field `i` of block `v`: skips a forwarding block and darkens the child. */
    method ScanField(v: int, i: nat, ghost s: Gc, ghost base: seq<int>)
      requires IsGray(s.heap, v) && i < |s.heap[v].fields| && (s.heap[v].tag == FORWARD_TAG ==> |s.heap[v].fields| == 1)
      requires forall a :: a in base ==> IsGray(s.heap, a)
      requires SameButMarks(s, State()) && heap == ScanTo(s.heap, v, i)
      requires Pushed(s, base, WhiteIn(s.heap, Bases(s.heap[v].fields[..i])), State())
      modifies this
      ensures SameButMarks(s, State()) && heap == ScanTo(s.heap, v, i + 1)
      ensures Pushed(s, base, WhiteIn(s.heap, Bases(s.heap[v].fields[..i+1])), State())
    {
      hide ScanTo, Pushed, Bases, WhiteIn, Shade, IsForward;
      ghost var s1 := State();
      ScanToForward(s.heap, v, i);
      ScanToStep(s.heap, v, i);
      var child := heap[v].fields[i];
      heap := heap[v := heap[v].(fields := heap[v].fields[i := Forwarded(heap, child)])];
      ghost var s2 := State();
      StackNotWhite(s, v, i, base, s1, s2);
      DarkenValue(child);
      PushChild(s, v, i, base, s1, s2, State());
    }

    /** Marks one gray block: pops it, blackens it and scans its fields. */
    method ScanBlock()
      requires Inv(State()) && phase.Mark? && |gray| > 0
      modifies this
      ensures MarkPop(old(State()), State())
    {
      ghost var s := State();
      PopFacts(s);
      hide Inv;
      var v := gray[|gray| - 1];
      gray := gray[..|gray| - 1];
      ghost var base := gray;
      var b := heap[v];
      heap := heap[v := b.(color := Black)];
      PushNothing(s, base, State());
      if b.tag < NO_SCAN_TAG {
        ScanToStart(s.heap, v);
        ScanToEnd(s.heap, v);
        assert b.fields[..|b.fields|] == b.fields && b.fields[..0] == [];
        assert WhiteIn(s.heap, Bases([])) == {};
        hide ScanTo, Pushed, WhiteIn, Bases;
        for i := 0 to |b.fields|
          invariant SameButMarks(s, State()) && heap == ScanTo(s.heap, v, i)
          invariant Pushed(s, base, WhiteIn(s.heap, Bases(b.fields[..i])), State())
        {
          ScanField(v, i, s, base);
        }
      } else {
        assert WhiteIn(s.heap, Refs(b)) == {};
      }
    }

    /** The first allocated block at or after `p`, if any. */
    method FirstFrom(p: int) returns (found: bool, q: int)
      ensures found ==> NextBlock(heap, p, q)
      ensures !found ==> forall a :: a in heap ==> a < p
    {
      var todo := set a | a in heap && p <= a;
      found, q := false, p;
      while todo != {}
        invariant forall a :: a in todo ==> a in heap && p <= a
        invariant found ==> q in heap && p <= q && forall a :: a in heap && p <= a ==> a in todo || q <= a
        invariant !found ==> forall a :: a in heap && p <= a ==> a in todo
        decreases todo
      {
        var a :| a in todo;
        if !found || a < q {
          found, q := true, a;
        }
        todo := todo - {a};
      }
    }

    /** Rescans the heap for gray blocks lost by a stack overflow, one block at a time. */
    method RescanOne()
      requires |gray| == 0 && scanning
      modifies this`scanning, this`gray, this`markhp
      ensures MarkRescan(old(State()), State())
    {
      var found, q := FirstFrom(markhp);
      if !found {
        scanning := false;
      } else {
        if heap[q].color.Gray? {
          gray := [q];
        }
        markhp := q + 1;
      }
    }

    /** Follows forwarding blocks to the end. */
    method EndOfChain(v: Value, ghost rank: map<int, nat>) returns (w: Value)
      requires Ranked(heap, rank)
      ensures EndsAt(heap, v, w)
    {
      w := v;
      ghost var n := 0;
      while IsForward(heap, w)
        invariant Follow(heap, v, n) == w
        invariant IsForward(heap, w) ==> w.base in rank
        decreases if IsForward(heap, w) then rank[w.base] + 1 else 0
      {
        FollowSnoc(heap, v, n);
        n := n + 1;
        w := heap[w.base].fields[0];
      }
    }

    /** Cleans the next array of the weak list, or unlinks it if it is dead. */
    method CleanWeak(ghost rank: map<int, nat>)
      requires weakDone < |weak| && weak[weakDone] in heap && Ranked(heap, rank)
      modifies this`heap, this`weak, this`weakDone
      ensures MarkWeak(old(State()), State())
    {
      var cur := weak[weakDone];
      if heap[cur].color.White? {
        weak := weak[..weakDone] + weak[weakDone + 1..];
      } else {
        var vs := heap[cur].fields;
        var ws: seq<Value> := [];
        for i := 0 to |vs|
          invariant |ws| == i && State() == old(State())
          invariant forall j {:trigger ws[j]} :: 0 <= j < i ==> CleanField(heap, vs[j], ws[j])
        {
          var x := EndOfChain(vs[i], rank);
          var w := if WhiteHeader(heap, x) then Imm(0) else x;
          assert CleanField(heap, vs[i], w);
          ws := ws + [w];
        }
        assert CleanFields(old(heap), old(heap)[cur].fields, ws);
        heap := heap[cur := heap[cur].(fields := ws)];
        weakDone := weakDone + 1;
      }
    }

    /** Skips white forwarding blocks. */
    method Settle(a: int, ghost rank: map<int, nat>, ghost fset: set<int>) returns (b: int)
      requires Ranked(heap, rank) && FinalChains(heap, [], fset)
      requires IsForward(heap, Ptr(a, 0)) ==> a in fset
      ensures Settles(heap, a, b)
    {
      b := a;
      ghost var n := 0;
      while b in heap && heap[b].color.White? && heap[b].tag == FORWARD_TAG && |heap[b].fields| > 0
        invariant WhiteFollow(heap, a, n) == b
        invariant IsForward(heap, Ptr(b, 0)) ==> b in fset
        decreases if IsForward(heap, Ptr(b, 0)) && b in rank then rank[b] + 1 else 0
      {
        assert b in fset;
        WhiteFollowSnoc(heap, a, n);
        n := n + 1;
        b := heap[b].fields[0].base;
      }
    }

    /** First loop of `final_update`: moves the white values to the finalising set. */
    method SplitFinals(ghost rank: map<int, nat>, ghost fset: set<int>) returns (moved: seq<Final>)
      requires Ranked(heap, rank) && FinalChains(heap, finals, fset)
      modifies this`finals, this`finalising
      ensures Entries(finals) == KeepOf(heap, old(finals))
      ensures Entries(moved) == MoveOf(heap, old(finals))
      ensures finalising == moved + old(finalising) && |finals| + |moved| == |old(finals)|
    {
      ghost var h, fs := heap, finals;
      moved := [];
      var i := 0;
      SplitStart(h, fs);
      hide SplitTo, KeepOf, MoveOf, Settles, Ranked, FinalChains, IsForward;
      while i < |finals|
        invariant 0 <= i <= |finals| && heap == h
        invariant SplitTo(h, fs, finals, i, moved)
        invariant finalising == moved + old(finalising)
        decreases |finals| - i
      {
        SplitMember(h, fs, finals, i, moved);
        FinalChainAt(h, fs, fset, finals[i]);
        var b := Settle(finals[i].val, rank, fset);
        SettleUnique(h, finals[i].val, b);
        var f := Final(finals[i].fun, b);
        if b in heap && heap[b].color.White? {
          SplitMove(h, fs, finals, i, moved, f);
          finals := finals[i := finals[|finals| - 1]][..|finals| - 1];
          finalising := [f] + finalising;
          moved := [f] + moved;
        } else {
          SplitKeep(h, fs, finals, i, moved, f);
          finals := finals[i := f];
          i := i + 1;
        }
      }
      SplitDone(h, fs, finals, moved);
    }

    /** `final_update` */
    method UpdateFinals(ghost rank: map<int, nat>, ghost fset: set<int>)
      requires Ranked(heap, rank) && FinalChains(heap, finals, fset) && GrayGood(State())
      modifies this
      ensures MarkFinal(old(State()), State())
    {
      ghost var s := State();
      SettlesAll(s, rank, fset);
      var moved := SplitFinals(rank, fset);
      hide MarkFinal, MoveOf, KeepOf, Ranked, FinalChains, Settles, Shade, WhiteIn;
      ValsBases(moved);
      DarkenAll(Vals(moved));
      sub := FinalPass;
      FinalMade(s, moved, State());
    }

    /** One iteration of the loop of `mark_slice`; `cost` is the work it is charged for. */
    method MarkStep(ghost rank: map<int, nat>, ghost fset: set<int>) returns (cost: nat)
      requires Inv(State()) && phase.Mark? && Chains(State(), rank, fset)
      modifies this
      ensures MarkIter(old(State()), State()) && Contents(old(State()), State())
    {
      cost := 0;
      ghost var s := State();
      MarkReady(s, rank, fset);
      hide Contents, Inv, Chains, MarkPop, MarkRescan, MarkWeak, MarkFinal, Ranked, FinalChains, GrayGood;
      if |gray| > 0 {
        cost := 1 + |heap[gray[|gray| - 1]].fields|;
        ScanBlock();
      } else if scanning {
        RescanOne();
      } else if !pure {
        pure, scanning, markhp := true, true, 0;
      } else {
        match sub
        case Main => sub, weakDone := WeakPass, 0;
        case WeakPass =>
          if weakDone < |weak| {
            cost := 2 + |heap[weak[weakDone]].fields|;
            CleanWeak(rank);
          } else {
            UpdateFinals(rank, fset);
          }
        case FinalPass => phase, sweepHp := Sweep, 0;
      }
      MarkContents(s, State());
    }

    /** `mark_slice`: marks until the work is done or the sweep starts. */
    method MarkSlice(work: int, ghost rank: map<int, nat>, ghost fset: set<int>)
      requires Inv(State()) && phase.Mark? && Chains(State(), rank, fset)
      modifies this
      ensures Inv(State()) && !phase.Idle? && (phase.Mark? ==> Chains(State(), rank, fset))
      ensures work > 0 && phase.Mark? ==> Nearer(State(), old(State()))
      ensures ExactKept(old(State()), State()) && ScheduleKept(old(State()), State())
      ensures Unseen(old(State()), State()) && CycleKept(old(State()), State())
    {
      hide Inv, Chains, MarkIter, Nearer, Exact, Scheduled, Unseen, Cycle;
      var left := work;
      ghost var start := State();
      ghost var moved := false;
      UnseenSelf(start);
      while left > 0 && phase.Mark?
        invariant Inv(State()) && !phase.Idle? && (phase.Mark? ==> Chains(State(), rank, fset))
        invariant moved || (State() == start && left == work)
        invariant moved && phase.Mark? ==> Nearer(State(), start)
        invariant ExactKept(start, State()) && ScheduleKept(start, State())
        invariant Unseen(start, State()) && CycleKept(start, State())
        decreases phase.Mark?, |NonBlack(heap)|, SubRank(State()), !pure, RescanLeft(State()), WeakLeft(State())
      {
        ghost var s := State();
        var cost := MarkStep(rank, fset);
        left := left - cost;
        MarkIterInv(s, State());
        forall h | Exact(h, s) { MarkIterExact(h, s, State()); }
        forall s0 | Scheduled(s0, s) { MarkIterSchedule(s0, s, State()); }
        UnseenStep(start, s, MarkOne, State());
        forall s0 | Cycle(s0, s) { CycleStep(s0, s, MarkOne, State()); }
        MarkPhase(s, State());
        if phase.Mark? {
          ChainsKept(s, State(), rank, fset);
          MarkProgress(s, State());
          assert Nearer(State(), start) by { if moved { NearerTrans(State(), s, start); } }
          NearerDecreases(State(), s);
        }
        moved := true;
      }
    }

    /** One iteration of the loop of `sweep_slice`; `cost` is the work it is charged for. */
    method SweepStep() returns (cost: nat)
      requires phase.Sweep?
      modifies this
      ensures SweepIter(old(State()), State())
    {
      ghost var s := State();
      cost := 0;
      var found, q := FirstFrom(sweepHp);
      if !found {
        phase := Idle;
      } else {
        cost := 1 + |heap[q].fields|;
        sweepHp := q + 1;
        if heap[q].color.White? {
          heap := heap - {q};
        } else {
          heap := heap[q := heap[q].(color := White)];
        }
        assert NextBlock(s.heap, s.sweepHp, q);
      }
    }

    /** `sweep_slice` */
    method SweepSlice(work: int)
      requires Inv(State()) && phase.Sweep?
      modifies this
      ensures Inv(State()) && !phase.Mark? && ExactKept(old(State()), State()) && ScheduleKept(old(State()), State())
      ensures Unseen(old(State()), State()) && CycleKept(old(State()), State())
      ensures work > 0 && phase.Sweep? ==> SweepLeft(State()) < SweepLeft(old(State()))
    {
      hide Inv, SweepIter, Exact, SweepLeft, Scheduled, Unseen, Cycle;
      var left := work;
      ghost var start := State();
      ghost var moved := false;
      UnseenSelf(start);
      while left > 0 && phase.Sweep?
        invariant Unseen(start, State()) && CycleKept(start, State())
        invariant Inv(State()) && !phase.Mark? && ExactKept(start, State()) && ScheduleKept(start, State())
        invariant moved || (State() == start && left == work)
        invariant moved && phase.Sweep? ==> SweepLeft(State()) < SweepLeft(start)
        decreases phase.Sweep?, SweepLeft(State())
      {
        ghost var s := State();
        var cost := SweepStep();
        left := left - cost;
        SweepInv(s, State());
        forall h | Exact(h, s) { SweepExact(h, s, State()); }
        forall s0 | Scheduled(s0, s) { SweepSchedule(s0, s, State()); }
        UnseenStep(start, s, SweepOne, State());
        forall s0 | Cycle(s0, s) { CycleStep(s0, s, SweepOne, State()); }
        SweepPhase(s, State());
        if phase.Sweep? { SweepProgress(s, State()); }
        moved := true;
      }
    }

    /** `major_collection_slice`; `work` is the amount of work ordered, or computed when none was. */
    method MajorCollectionSlice(work: int, ghost rank: map<int, nat>, ghost fset: set<int>)
      requires Inv(State()) && (!phase.Sweep? ==> Linked(State(), rank, fset))
      modifies this
      ensures Inv(State()) && (phase.Mark? ==> Chains(State(), rank, fset))
      ensures Unseen(old(State()), State())
      ensures old(phase.Idle?) ==> Cycle(old(State()), State())
      ensures !old(phase.Idle?) ==> CycleKept(old(State()), State())
      ensures old(phase.Idle?) ==> Exact(old(heap), State()) && Scheduled(old(State()), State())
      ensures !old(phase.Idle?) ==> ExactKept(old(State()), State()) && ScheduleKept(old(State()), State())
    {
      ghost var s := State();
      hide Inv, Exact, Chains, Nearer, SweepLeft, StartCycle, Scheduled, Unseen, Cycle;
      UnseenSelf(s);
      if phase.Idle? {
        StartMarking();
        StartCycles(s, State());
        UnseenStep(s, s, Start, State());
        StartExact(s, State());
        StartSchedule(s, State());
        StartChains(s, State(), rank, fset);
      }
      ghost var s1 := State();
      if phase.Mark? {
        MarkSlice(work, rank, fset);
      } else {
        SweepSlice(work);
      }
      UnseenTrans(s, s1, State());
    }

    /**
     * `finish_major_cycle`: the allocated blocks are then exactly those that the mutator could reach, the values
     * scheduled for finalisation exactly those that it could not when the cycle started, and so with weak pointers; the
     * program reads what it read before.
     */
    method FinishMajorCycle(ghost rank: map<int, nat>, ghost fset: set<int>)
      requires Inv(State()) && (!phase.Sweep? ==> Linked(State(), rank, fset))
      modifies this
      ensures Inv(State()) && phase.Idle? && Unseen(old(State()), State())
      ensures old(phase.Idle?) ==> forall a :: a in heap <==> a in old(heap) && Led(old(heap), State(), a)
      ensures old(phase.Idle?) ==> WeakCycle(old(State()), State()) && FinalsEnd(old(State()), State())
    {
      ghost var s := State();
      ghost var h := heap;
      hide Inv, Chains, Nearer, SweepLeft, StartCycle, Reach, RootSet, Tracing, WhiteSame, KeepOf, MoveOf, Divided,
           Entries, Unseen, WeakCycle, Since, Led, FinalsEnd;
      UnseenSelf(s);
      if phase.Idle? {
        StartMarking();
        StartCycles(s, State());
        UnseenStep(s, s, Start, State());
        StartExact(s, State());
        StartSchedule(s, State());
        StartChains(s, State(), rank, fset);
      }
      while phase.Mark?
        invariant Inv(State()) && !phase.Idle? && (phase.Mark? ==> Chains(State(), rank, fset))
        invariant s.phase.Idle? ==> Exact(h, State()) && Scheduled(s, State()) && Cycle(s, State())
        invariant Unseen(s, State())
        decreases phase.Mark?, |NonBlack(heap)|, SubRank(State()), !pure, RescanLeft(State()), WeakLeft(State())
      {
        ghost var s1 := State();
        MarkSlice(LONG_MAX, rank, fset);
        UnseenTrans(s, s1, State());
        if phase.Mark? { NearerDecreases(State(), s1); }
      }
      while phase.Sweep?
        invariant Inv(State()) && !phase.Mark? && (s.phase.Idle? ==> Exact(h, State()) && Scheduled(s, State()))
        invariant Unseen(s, State()) && (s.phase.Idle? ==> Cycle(s, State()))
        decreases phase.Sweep?, SweepLeft(State())
      {
        ghost var s1 := State();
        SweepSlice(LONG_MAX);
        UnseenTrans(s, s1, State());
      }
      if s.phase.Idle? { CycleEnds(s, State(), rank, fset); }
    }
  }

  lemma CycleEnds(s0: Gc, s: Gc, rank: map<int, nat>, fset: set<int>)
    requires s0.phase.Idle? && Linked(s0, rank, fset) && s.phase.Idle? && Exact(s0.heap, s) && Scheduled(s0, s)
    ensures forall a :: a in s.heap <==> a in s0.heap && Led(s0.heap, s, a)
    ensures FinalsEnd(s0, s)
  {
    hide Led, KeepOf, MoveOf, Divided, RootSet, Reach, FinalsEnd, Ranked, FinalChains, StandsFor, Settles;
    forall a
      ensures a in s.heap <==> a in s0.heap && Led(s0.heap, s, a)
    {
      LedIs(s0.heap, s, a);
      assert a in s.heap <==> a in s0.heap && Reach(s0.heap, RootSet(s), a);
    }
    forall f {:trigger f in s0.finals} | f in s0.finals
      ensures exists b :: StandsFor(s0, f.val, b)
    {
      StandsForSome(s0, rank, fset, f);
    }
    FinalsAre(s0, s);
  }

  /** Everything `mark_slice` relies on at the start of an iteration. */
  lemma MarkReady(s: Gc, rank: map<int, nat>, fset: set<int>)
    requires Inv(s) && s.phase.Mark? && Chains(s, rank, fset)
    ensures |s.gray| > 0 ==> s.gray[|s.gray|-1] in s.heap
    ensures s.sub.WeakPass? && s.weakDone < |s.weak| ==> s.weak[s.weakDone] in s.heap
    ensures !s.sub.FinalPass? ==> Ranked(s.heap, rank) && FinalChains(s.heap, s.finals, fset)
    ensures GrayGood(s)
  {
    if |s.gray| > 0 { assert s.gray[|s.gray|-1] in s.gray && IsGray(s.heap, s.gray[|s.gray|-1]); }
    if s.sub.WeakPass? && s.weakDone < |s.weak| { assert WeakGoodAt(s, s.weakDone); }
  }

  lemma MarkPhase(s: Gc, s': Gc)
    requires MarkIter(s, s')
    ensures !s'.phase.Idle?
  {
  }

  lemma NearerTrans(a: Gc, b: Gc, c: Gc)
    requires Nearer(a, b) && Nearer(b, c)
    ensures Nearer(a, c)
  {
    hide NonBlack, SubRank, RescanLeft, WeakLeft;
  }

  lemma NearerDecreases(s': Gc, s: Gc)
    requires Nearer(s', s)
    ensures || |NonBlack(s'.heap)| < |NonBlack(s.heap)|
            || (|NonBlack(s'.heap)| == |NonBlack(s.heap)| && SubRank(s') < SubRank(s))
            || (|NonBlack(s'.heap)| == |NonBlack(s.heap)| && SubRank(s') == SubRank(s) && !(!s'.pure) && !s.pure)
            || (|NonBlack(s'.heap)| == |NonBlack(s.heap)| && SubRank(s') == SubRank(s) && s'.pure == s.pure &&
                (RescanLeft(s') < RescanLeft(s) || (RescanLeft(s') == RescanLeft(s) && WeakLeft(s') < WeakLeft(s))))
  {
    hide NonBlack, SubRank, RescanLeft, WeakLeft;
  }

  lemma SettlesAll(s: Gc, rank: map<int, nat>, fset: set<int>)
    requires Ranked(s.heap, rank) && FinalChains(s.heap, s.finals, fset)
    ensures forall f :: f in s.finals ==> exists b :: Settles(s.heap, f.val, b)
  {
    hide Settles;
    forall f | f in s.finals ensures exists b :: Settles(s.heap, f.val, b) {
      FinalChainAt(s.heap, s.finals, fset, f);
      ChainSettles(s.heap, f.val, rank, fset);
    }
  }

  lemma FinalMade(s: Gc, moved: seq<Final>, s': Gc)
    requires forall f :: f in s.finals ==> exists b :: Settles(s.heap, f.val, b)
    requires s' == s.(heap := s'.heap, gray := s'.gray, cap := s'.cap, pure := s'.pure, sub := FinalPass,
                      finals := s'.finals, finalising := s'.finalising)
    requires Entries(moved) == MoveOf(s.heap, s.finals) && Entries(s'.finals) == KeepOf(s.heap, s.finals)
    requires s'.finalising == moved + s.finalising && |s'.finals| + |moved| == |s.finals|
    requires s'.heap == Shade(s.heap, ValsOf(Entries(moved))) &&
             Pushed(s, s.gray, WhiteIn(s.heap, ValsOf(Entries(moved))), s')
    ensures MarkFinal(s, s')
  {
    hide Settles, MoveOf, KeepOf;
    assert Entries(s'.finalising) == Entries(s.finalising) + Entries(moved);
  }

  /** `final_update` at entry `i` of table `cur`, from table `fs`: the entries before `i` stay, those in `moved` go. */
  ghost predicate SplitTo(h: Heap, fs: seq<Final>, cur: seq<Final>, i: int, moved: seq<Final>) {
    && 0 <= i <= |cur| && |cur| + |moved| == |fs|
    && (forall j {:trigger cur[j]} :: 0 <= j < i ==> cur[j] in KeepOf(h, fs))
    && (forall j {:trigger cur[j]} :: i <= j < |cur| ==> cur[j] in fs)
    && (forall j {:trigger moved[j]} :: 0 <= j < |moved| ==> moved[j] in MoveOf(h, fs))
    && (forall g {:trigger g in fs} :: g in fs ==> SplitFound(h, cur, i, moved, g))
  }

  /** Entry `g` of the table has its place, or is still to be examined. */
  ghost predicate SplitFound(h: Heap, cur: seq<Final>, i: int, moved: seq<Final>, g: Final) {
    || (exists j :: 0 <= j < i && j < |cur| && cur[j] == Settled(h, g))
    || (exists j :: i <= j < |cur| && j >= 0 && cur[j] == g)
    || Settled(h, g) in moved
  }

  lemma SplitStart(h: Heap, fs: seq<Final>)
    ensures SplitTo(h, fs, fs, 0, [])
  {
  }

  lemma FinalChainAt(h: Heap, fs: seq<Final>, fset: set<int>, f: Final)
    requires FinalChains(h, fs, fset) && f in fs
    ensures FinalChains(h, [], fset) && (IsForward(h, Ptr(f.val, 0)) ==> f.val in fset)
  {
  }

  lemma SplitMember(h: Heap, fs: seq<Final>, cur: seq<Final>, i: int, moved: seq<Final>)
    requires SplitTo(h, fs, cur, i, moved) && i < |cur|
    ensures cur[i] in fs
  {
  }

  lemma SplitDone(h: Heap, fs: seq<Final>, cur: seq<Final>, moved: seq<Final>)
    requires SplitTo(h, fs, cur, |cur|, moved)
    ensures Entries(cur) == KeepOf(h, fs) && Entries(moved) == MoveOf(h, fs) && |cur| + |moved| == |fs|
  {
    forall g | g in fs && Stays(h, g) ensures Settled(h, g) in cur { assert SplitFound(h, cur, |cur|, moved, g); }
    forall g | g in fs && !Stays(h, g) ensures Settled(h, g) in moved { assert SplitFound(h, cur, |cur|, moved, g); }
  }

  lemma SplitMove(h: Heap, fs: seq<Final>, cur: seq<Final>, i: int, moved: seq<Final>, f: Final)
    requires SplitTo(h, fs, cur, i, moved) && i < |cur| && f == Settled(h, cur[i]) && IsWhite(h, f.val)
    ensures SplitTo(h, fs, cur[i := cur[|cur| - 1]][..|cur| - 1], i, [f] + moved)
  {
    var cur', moved' := cur[i := cur[|cur| - 1]][..|cur| - 1], [f] + moved;
    assert cur[i] in fs && f in MoveOf(h, fs);
    hide KeepOf, MoveOf, IsWhite;
    forall g | g in fs ensures SplitFound(h, cur', i, moved', g) {
      assert SplitFound(h, cur, i, moved, g);
      if j :| 0 <= j < i && j < |cur| && cur[j] == Settled(h, g) {
        assert cur'[j] == cur[j];
      } else if j :| i <= j < |cur| && j >= 0 && cur[j] == g {
        if j == i {
          assert moved'[0] == Settled(h, g);
        } else if j == |cur| - 1 {
          assert cur'[i] == g;
        } else {
          assert cur'[j] == g;
        }
      } else {
        assert Settled(h, g) in moved';
      }
    }
  }

  lemma SplitKeep(h: Heap, fs: seq<Final>, cur: seq<Final>, i: int, moved: seq<Final>, f: Final)
    requires SplitTo(h, fs, cur, i, moved) && i < |cur| && f == Settled(h, cur[i]) && !IsWhite(h, f.val)
    ensures SplitTo(h, fs, cur[i := f], i + 1, moved)
  {
    var cur' := cur[i := f];
    assert cur[i] in fs && f in KeepOf(h, fs);
    hide KeepOf, MoveOf, IsWhite;
    forall g | g in fs ensures SplitFound(h, cur', i + 1, moved, g) {
      assert SplitFound(h, cur, i, moved, g);
      if j :| 0 <= j < i && j < |cur| && cur[j] == Settled(h, g) {
        assert cur'[j] == cur[j];
      } else if j :| i <= j < |cur| && j >= 0 && cur[j] == g {
        assert cur'[j] == if j == i then f else g;
      }
    }
  }

  lemma PopFacts(s: Gc)
    requires Inv(s) && |s.gray| > 0
    ensures var v, base := s.gray[|s.gray|-1], s.gray[..|s.gray|-1];
            && IsGray(s.heap, v) && v !in base && NoDup(base) && |base| < s.cap && 2 <= s.cap
            && (s.heap[v].tag == FORWARD_TAG ==> |s.heap[v].fields| == 1)
            && (forall a :: a in base ==> IsGray(s.heap, a))
  {
    var v := s.gray[|s.gray|-1];
    assert v in s.gray;
    forall a | a in s.gray[..|s.gray|-1] ensures IsGray(s.heap, a) { assert a in s.gray; }
  }

  lemma StackNotWhite(s: Gc, v: int, i: nat, base: seq<int>, s1: Gc, s2: Gc)
    requires IsGray(s.heap, v) && i < |s.heap[v].fields| && (forall a :: a in base ==> IsGray(s.heap, a))
    requires s1.heap == ScanTo(s.heap, v, i) && Pushed(s, base, WhiteIn(s.heap, Bases(s.heap[v].fields[..i])), s1)
    requires v in s1.heap && v in s2.heap && s2 == s1.(heap := s1.heap[v := s1.heap[v].(fields := s2.heap[v].fields)])
    ensures NoDup(s2.gray) && |s2.gray| < s2.cap && 2 <= s2.cap && forall a :: a in s2.gray ==> !IsWhite(s2.heap, a)
  {
    hide Bases;
  }

  lemma PushChild(s: Gc, v: int, i: nat, base: seq<int>, s1: Gc, s2: Gc, s3: Gc)
    requires IsGray(s.heap, v) && i < |s.heap[v].fields|
    requires s1.heap == ScanTo(s.heap, v, i) && Pushed(s, base, WhiteIn(s.heap, Bases(s.heap[v].fields[..i])), s1)
    requires v in s2.heap && s2 == s1.(heap := s1.heap[v := s1.heap[v].(fields := s2.heap[v].fields)])
    requires Darken(s2, s.heap[v].fields[i], s3)
    ensures Pushed(s, base, WhiteIn(s.heap, Bases(s.heap[v].fields[..i+1])), s3)
  {
    var c, bs := s.heap[v].fields[i], Bases(s.heap[v].fields[..i]);
    var at := if c.Ptr? then {c.base} else {};
    BasesSnoc(s.heap[v].fields, i);
    hide Bases;
    assert WhiteIn(s.heap, bs + at) == WhiteIn(s.heap, bs) + WhiteIn(s2.heap, at);
    hide ScanTo, WhiteIn;
    PushedTrans(s, base, WhiteIn(s.heap, bs), s2, WhiteIn(s2.heap, at), s3);
  }

  lemma PushedTrans(s: Gc, base: seq<int>, added: set<int>, s1: Gc, more: set<int>, s2: Gc)
    requires Pushed(s, base, added, s1) && Pushed(s1, s1.gray, more, s2)
    ensures Pushed(s, base, added + more, s2)
  {
  }

  lemma ShadeNothing(h: Heap)
    ensures Shade(h, {}) == h && WhiteIn(h, {}) == {}
  {
  }

  lemma GrayNotWhite(s: Gc, at: set<int>, s1: Gc)
    requires GrayGood(s) && s1.heap == Shade(s.heap, at) && Pushed(s, s.gray, WhiteIn(s.heap, at), s1)
    ensures NoDup(s1.gray) && |s1.gray| < s1.cap && 2 <= s1.cap && forall a :: a in s1.gray ==> !IsWhite(s1.heap, a)
  {
  }

  /** Darkening `more` after darkening `at`. */
  lemma DarkenMore(s: Gc, base: seq<int>, at: set<int>, s1: Gc, more: set<int>, s2: Gc)
    requires s1.heap == Shade(s.heap, at) && Pushed(s, base, WhiteIn(s.heap, at), s1)
    requires s2.heap == Shade(s1.heap, more) && Pushed(s1, s1.gray, WhiteIn(s1.heap, more), s2)
    ensures s2.heap == Shade(s.heap, at + more) && Pushed(s, base, WhiteIn(s.heap, at + more), s2)
  {
    assert s2.heap == Shade(s.heap, at + more);
    assert WhiteIn(s.heap, at + more) == WhiteIn(s.heap, at) + WhiteIn(s1.heap, more);
  }

  lemma BasesStep(vals: seq<Value>, i: nat)
    requires i < |vals|
    ensures Bases(vals[..i+1]) == Bases(vals[..i]) + if vals[i].Ptr? then {vals[i].base} else {}
  {
    assert vals[..i+1] == vals[..i] + [vals[i]];
  }

  function Funs(fs: seq<Final>): seq<Value> {
    seq(|fs|, i requires 0 <= i < |fs| => fs[i].fun)
  }

  function Vals(fs: seq<Final>): seq<Value> {
    seq(|fs|, i requires 0 <= i < |fs| => Ptr(fs[i].val, 0))
  }

  lemma FunsBases(fs: seq<Final>)
    ensures Bases(Funs(fs)) == set f | f in fs && f.fun.Ptr? :: f.fun.base
  {
    var funs := Funs(fs);
    forall f | f in fs && f.fun.Ptr? ensures f.fun.base in Bases(funs) {
      var i :| 0 <= i < |fs| && fs[i] == f;
      assert funs[i] == f.fun && funs[i] in funs;
    }
  }

  lemma ValsBases(fs: seq<Final>)
    ensures Bases(Vals(fs)) == (set f | f in fs :: f.val) == ValsOf(Entries(fs))
  {
    var vals := Vals(fs);
    forall f | f in fs ensures f.val in Bases(vals) {
      var i :| 0 <= i < |fs| && fs[i] == f;
      assert vals[i] == Ptr(f.val, 0) && vals[i] in vals;
    }
  }

  lemma BasesAppend(a: seq<Value>, b: seq<Value>)
    ensures Bases(a + b) == Bases(a) + Bases(b)
  {
  }

  lemma HeldIsRootSet(s: Gc, roots: seq<Value>)
    requires s.roots == set v | v in roots
    ensures Bases(roots + Funs(s.finals) + Funs(s.finalising) + Vals(s.finalising)) == RootSet(s)
  {
    FunsBases(s.finals);
    FunsBases(s.finalising);
    ValsBases(s.finalising);
    assert Bases(roots) == set v | v in s.roots && v.Ptr? :: v.base;
    hide Bases;
    BasesAppend(roots, Funs(s.finals));
    BasesAppend(roots + Funs(s.finals), Funs(s.finalising));
    BasesAppend(roots + Funs(s.finals) + Funs(s.finalising), Vals(s.finalising));
  }

  lemma SweepPhase(s: Gc, s': Gc)
    requires SweepIter(s, s')
    ensures !s'.phase.Mark?
  {
  }

  /** What termination of the marker needs: forwarding blocks do not form cycles. */
  ghost predicate Linked(s: Gc, rank: map<int, nat>, fset: set<int>) {
    if s.phase.Idle? then Ranked(s.heap, rank) && FinalChains(s.heap, s.finals, fset) else Chains(s, rank, fset)
  }

  lemma StartChains(s: Gc, s': Gc, rank: map<int, nat>, fset: set<int>)
    requires s.phase.Idle? && Linked(s, rank, fset) && StartCycle(s, s')
    ensures s'.phase.Mark? && Chains(s', rank, fset)
  {
    ChainsSame(s, s', rank, fset);
  }
}
