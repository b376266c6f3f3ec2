/**
 * What the program can get at, said in terms of the roots and of field numbers alone: it is never freed, and no step of
 * the collector changes what the program reads.
 */
module GcPaths {
  import opened GcHeap
  import opened GcState
  import opened GcSteps
  import opened GcProgress
  import opened GcExact
  import opened GcFinal
  import opened GcRuns
  import opened GcContents

  /** A root, the function of a registered finalisation, or a function or a value about to be used for one. */
  ghost predicate HoldsBlock(s: Gc, a: int) {
    || (exists v :: v in s.roots && v.Ptr? && v.base == a)
    || (exists i :: 0 <= i < |s.finals| && s.finals[i].fun.Ptr? && s.finals[i].fun.base == a)
    || (exists i :: 0 <= i < |s.finalising| && s.finalising[i].fun.Ptr? && s.finalising[i].fun.base == a)
    || (exists i :: 0 <= i < |s.finalising| && s.finalising[i].val == a)
  }

  /** Following field numbers from the block at `from`, through blocks of tags below 251, leads to the block at `a`. */
  predicate Arrives(h: Heap, from: int, path: seq<nat>, a: int)
    decreases |path|
  {
    if path == [] then from == a
    else
      && from in h && h[from].tag < 251 && path[0] < |h[from].fields| && h[from].fields[path[0]].Ptr?
      && Arrives(h, h[from].fields[path[0]].base, path[1..], a)
  }

  /** Something that the mutator holds in `s` leads, in the heap `h`, to the block at `a`. */
  ghost predicate Led(h: Heap, s: Gc, a: int) { exists b, path :: HoldsBlock(s, b) && Arrives(h, b, path, a) }

  lemma HeldIs(s: Gc, a: int)
    ensures HoldsBlock(s, a) <==> a in RootSet(s)
  {
  }

  lemma {:induction false} ArrivesSnoc(h: Heap, from: int, path: seq<nat>, b: int, i: nat, a: int)
    requires Arrives(h, from, path, b) && b in h && h[b].tag < 251 && i < |h[b].fields|
    requires h[b].fields[i].Ptr? && h[b].fields[i].base == a
    ensures Arrives(h, from, path + [i], a)
    decreases |path|
  {
    if path == [] {
      assert ([i])[1..] == [];
    } else {
      assert (path + [i])[1..] == path[1..] + [i];
      ArrivesSnoc(h, h[from].fields[path[0]].base, path[1..], b, i, a);
    }
  }

  lemma {:induction false} ReachArrives(h: Heap, from: set<int>, a: int, n: nat) returns (b: int, path: seq<nat>)
    requires ReachN(h, from, a, n)
    ensures b in from && Arrives(h, b, path, a)
    decreases n
  {
    if n == 0 {
      b, path := a, [];
    } else {
      var c :| ReachN(h, from, c, n - 1) && Edge(h, c, a);
      b, path := ReachArrives(h, from, c, n - 1);
      var v :| v in h[c].fields && v.Ptr? && v.base == a;
      var i :| 0 <= i < |h[c].fields| && h[c].fields[i] == v;
      ArrivesSnoc(h, b, path, c, i, a);
      path := path + [i];
    }
  }

  lemma {:induction false} ArrivesReach(h: Heap, from: set<int>, b: int, path: seq<nat>, a: int)
    requires Reach(h, from, b) && Arrives(h, b, path, a)
    ensures Reach(h, from, a)
    decreases |path|
  {
    if path != [] {
      var v := h[b].fields[path[0]];
      assert v in h[b].fields;
      assert Edge(h, b, v.base);
      ReachStep(h, from, b, v.base);
      ArrivesReach(h, from, v.base, path[1..], a);
    }
  }

  lemma LedIs(h: Heap, s: Gc, a: int)
    ensures Led(h, s, a) <==> Reach(h, RootSet(s), a)
  {
    hide RootSet, HoldsBlock, Reach;
    if Led(h, s, a) {
      var b, path :| HoldsBlock(s, b) && Arrives(h, b, path, a);
      HeldIs(s, b);
      ReachRoot(h, RootSet(s), b);
      ArrivesReach(h, RootSet(s), b, path, a);
    }
    if Reach(h, RootSet(s), a) {
      var n := ReachCount(h, RootSet(s), a);
      var b, path := ReachArrives(h, RootSet(s), a, n);
      HeldIs(s, b);
    }
  }

  lemma ReachCount(h: Heap, from: set<int>, a: int) returns (n: nat)
    requires Reach(h, from, a)
    ensures ReachN(h, from, a, n)
  {
    n :| ReachN(h, from, a, n);
  }

  /** In every run, what the roots lead to is allocated, and the next step does not free it. */
  lemma PathSafety(states: seq<Gc>, ops: seq<Op>, i: nat, a: int)
    requires Run(states, ops) && Initial(states[0]) && i < |states| && Led(states[i].heap, states[i], a)
    ensures a in states[i].heap
    ensures i < |ops| ==> a in states[i+1].heap
  {
    LedIs(states[i].heap, states[i], a);
    SnapshotSafety(states, ops, i, a);
  }

  // ---- What is read -------------------------------------------------------------------------------------------------

  /** Following the field numbers of `path` from `v`, past forwarding blocks, gives `x`. */
  ghost predicate Reads(h: Heap, v: Value, path: seq<nat>, x: Value)
    decreases |path|
  {
    if path == [] then ChainEnd(h, v, x) else exists z :: ChainEnd(h, v, z) && ReadsIn(h, z, path, x)
  }

  ghost predicate ReadsIn(h: Heap, z: Value, path: seq<nat>, x: Value)
    requires path != []
    decreases |path|, 0
  {
    && z.Ptr? && z.base in h && h[z.base].tag < 251 && path[0] < |h[z.base].fields|
    && Reads(h, h[z.base].fields[path[0]], path[1..], x)
  }

  /** A set of blocks that stay in `h'`, and whose fields lead to such blocks only. */
  ghost predicate Closed(h: Heap, h': Heap, live: iset<int>) {
    && (forall a {:trigger a in live} :: a in live ==> a in h && a in h')
    && (forall a, i {:trigger h[a].fields[i]} :: a in live && a in h && h[a].tag < 251 && 0 <= i < |h[a].fields| ==>
          Within(h, live, h[a].fields[i]))
  }

  predicate Within(h: Heap, live: iset<int>, v: Value) { v.Ptr? && v.base in h ==> v.base in live }

  lemma {:induction false} ChainWithin(h: Heap, h': Heap, live: iset<int>, v: Value, w: Value, n: nat)
    requires Closed(h, h', live) && Within(h, live, v) && LeadsIn(h, v, w, n)
    ensures Within(h, live, w)
    decreases n
  {
    if n > 0 {
      assert Within(h, live, h[v.base].fields[0]);
      ChainWithin(h, h', live, h[v.base].fields[0], w, n - 1);
    }
  }

  lemma {:induction false} ChainTail(h: Heap, v: Value, z: Value, n: nat, w: Value, k: nat)
    requires LeadsIn(h, v, z, n) && !Forwards(h, z) && LeadsIn(h, v, w, k)
    ensures k <= n && LeadsIn(h, w, z, n - k)
    decreases n
  {
    if n > 0 && k > 0 { ChainTail(h, h[v.base].fields[0], z, n - 1, w, k - 1); }
  }

  lemma ForwardsKept(h: Heap, h': Heap, v: Value)
    requires BlocksKept(h, h') && (v.Ptr? && v.base in h ==> v.base in h')
    ensures Forwards(h', v) <==> Forwards(h, v)
  {
    hide BlockKept;
    if v.Ptr? && v.base in h' { TagsKept(h, h', v.base); }
  }

  /** The rest of a chain leads to the same end after the step. */
  lemma {:induction false} EndKept(h: Heap, h': Heap, live: iset<int>, v: Value, z: Value, n: nat)
    requires BlocksKept(h, h') && Closed(h, h', live) && Within(h, live, v) && LeadsIn(h, v, z, n) && !Forwards(h, z)
    ensures ChainEnd(h', v, z)
    decreases n
  {
    hide BlockKept, OnChain;
    ChainWithin(h, h', live, v, z, n);
    ForwardsKept(h, h', z);
    ForwardsKept(h, h', v);
    OnChainIs(h', v, z);
    if n > 0 {
      var u, u' := h[v.base].fields[0], h'[v.base].fields[0];
      assert OnChain(h, u, u') by { FieldOnChain(h, h', v.base, 0); }
      var k := ChainCount(h, u, u');
      assert Within(h, live, u);
      ChainWithin(h, h', live, u, u', k);
      ChainTail(h, u, z, n - 1, u', k);
      EndKept(h, h', live, u', z, n - 1 - k);
    }
  }

  lemma ChainCount(h: Heap, v: Value, w: Value) returns (n: nat)
    requires OnChain(h, v, w)
    ensures LeadsIn(h, v, w, n)
  {
    n :| LeadsIn(h, v, w, n);
  }

  lemma FieldOnChain(h: Heap, h': Heap, a: int, i: nat)
    requires BlocksKept(h, h') && a in h' && a in h && h[a].tag < 251 && i < |h[a].fields|
    ensures i < |h'[a].fields| && OnChain(h, h[a].fields[i], h'[a].fields[i])
  {
    assert BlockKept(h, h[a], h'[a]);
  }

  /** `v'` stands after the step where `v` stood before it. */
  ghost predicate Same(h: Heap, live: iset<int>, v: Value, v': Value) { Within(h, live, v) && OnChain(h, v, v') }

  lemma EndsAlike(h: Heap, h': Heap, live: iset<int>, v: Value, v': Value, z: Value)
    requires BlocksKept(h, h') && Closed(h, h', live) && Same(h, live, v, v')
    ensures ChainEnd(h, v, z) <==> ChainEnd(h', v', z)
    ensures ChainEnd(h, v, z) ==> Within(h, live, z)
  {
    hide BlocksKept, Closed, OnChain;
    var k := ChainCount(h, v, v');
    ChainWithin(h, h', live, v, v', k);
    if ChainEnd(h, v, z) {
      var n := ChainCount(h, v, z);
      ChainWithin(h, h', live, v, z, n);
      ChainTail(h, v, z, n, v', k);
      EndKept(h, h', live, v', z, n - k);
    }
    if ChainEnd(h', v', z) {
      OnChainBack(h, h', v', z);
      OnChainTrans(h, v, v', z);
      var n := ChainCount(h, v, z);
      ChainWithin(h, h', live, v, z, n);
      LiveStays(h, h', live, z);
      ForwardsKept(h, h', z);
    }
  }

  lemma LiveStays(h: Heap, h': Heap, live: iset<int>, z: Value)
    requires Closed(h, h', live) && Within(h, live, z)
    ensures z.Ptr? && z.base in h ==> z.base in h'
  {
  }

  lemma {:induction false} ReadsAlike(h: Heap, h': Heap, live: iset<int>, v: Value, v': Value, path: seq<nat>, x: Value)
    requires BlocksKept(h, h') && Closed(h, h', live) && Same(h, live, v, v')
    ensures Reads(h, v, path, x) <==> Reads(h', v', path, x)
    ensures Reads(h, v, path, x) ==> Within(h, live, x)
    decreases |path|
  {
    hide BlocksKept, Closed, OnChain, ChainEnd, Within;
    forall z
      ensures ChainEnd(h, v, z) <==> ChainEnd(h', v', z)
      ensures ChainEnd(h, v, z) ==> Within(h, live, z)
    {
      EndsAlike(h, h', live, v, v', z);
    }
    if path != [] {
      forall z | ChainEnd(h, v, z)
        ensures ReadsIn(h, z, path, x) <==> ReadsIn(h', z, path, x)
        ensures ReadsIn(h, z, path, x) ==> Within(h, live, x)
      {
        ReadsInAlike(h, h', live, z, path, x);
      }
    }
  }

  lemma {:induction false} ReadsInAlike(h: Heap, h': Heap, live: iset<int>, z: Value, path: seq<nat>, x: Value)
    requires BlocksKept(h, h') && Closed(h, h', live) && Within(h, live, z) && path != []
    ensures ReadsIn(h, z, path, x) <==> ReadsIn(h', z, path, x)
    ensures ReadsIn(h, z, path, x) ==> Within(h, live, x)
    decreases |path|, 0
  {
    LiveStays(h, h', live, z);
    hide OnChain, BlockKept, Reads;
    if z.Ptr? && z.base in h' {
      TagsKept(h, h', z.base);
      if h[z.base].tag < 251 && path[0] < |h[z.base].fields| {
        FieldOnChain(h, h', z.base, path[0]);
        assert Within(h, live, h[z.base].fields[path[0]]);
        ReadsAlike(h, h', live, h[z.base].fields[path[0]], h'[z.base].fields[path[0]], path[1..], x);
      }
    }
  }

  // ---- Steps and runs -----------------------------------------------------------------------------------------------

  ghost function LiveIn(s: Gc): iset<int> { iset a | Reachable(s, a) }

  lemma LiveClosed(s: Gc, op: Op, s': Gc)
    requires Inv(s) && Step(s, op, s')
    ensures Closed(s.heap, s'.heap, LiveIn(s))
  {
    hide Inv, Step, Reachable;
    forall a | a in LiveIn(s)
      ensures a in s.heap && a in s'.heap
    {
      StaysAllocated(s, op, s', a);
    }
    forall a, i {:trigger s.heap[a].fields[i]} |
      a in LiveIn(s) && a in s.heap && s.heap[a].tag < 251 && 0 <= i < |s.heap[a].fields|
      ensures Within(s.heap, LiveIn(s), s.heap[a].fields[i])
    {
      Next(s, a, i);
    }
  }

  lemma StaysAllocated(s: Gc, op: Op, s': Gc, a: int)
    requires Inv(s) && Step(s, op, s') && Reachable(s, a)
    ensures a in s.heap && a in s'.heap
  {
    ReachGood(s, a);
    if a !in s'.heap {
      FreesOnlyUnkept(s, op, s', a);
    }
  }

  lemma Next(s: Gc, a: int, i: nat)
    requires Reachable(s, a) && a in s.heap && s.heap[a].tag < 251 && i < |s.heap[a].fields|
    ensures s.heap[a].fields[i].Ptr? ==> Reachable(s, s.heap[a].fields[i].base)
  {
    var v := s.heap[a].fields[i];
    if v.Ptr? {
      assert v in s.heap[a].fields;
      assert Edge(s.heap, a, v.base);
      ReachStep(s.heap, RootSet(s), a, v.base);
    }
  }

  /** Blocks at the place read are of the same tag and size, and of the same data if they are not values. */
  ghost predicate SameSight(s: Gc, s': Gc, x: Value) {
    x.Ptr? && x.base in s.heap ==>
      && x.base in s'.heap && s'.heap[x.base].tag == s.heap[x.base].tag
      && |s'.heap[x.base].fields| == |s.heap[x.base].fields|
      && (s.heap[x.base].tag >= 251 && x.base !in s.weak ==> s'.heap[x.base].fields == s.heap[x.base].fields)
  }

  /** No step of the collector changes what is read from a root, along any path. */
  lemma StepReads(s: Gc, op: Op, s': Gc, v: Value, path: seq<nat>, x: Value)
    requires Inv(s) && Step(s, op, s') && (op.Start? || op.MarkOne? || op.SweepOne?) && v in s.roots
    ensures Reads(s.heap, v, path, x) <==> Reads(s'.heap, v, path, x)
    ensures Reads(s.heap, v, path, x) ==> SameSight(s, s', x)
  {
    hide Inv, Step, Reads, Closed, BlockKept;
    StepContents(s, op, s');
    LiveClosed(s, op, s');
    assert Within(s.heap, LiveIn(s), v) by { RootLive(s, v); }
    OnChainIs(s.heap, v, v);
    ReadsAlike(s.heap, s'.heap, LiveIn(s), v, v, path, x);
    LiveSight(s, s', x);
  }

  lemma RootLive(s: Gc, v: Value)
    requires v in s.roots
    ensures v.Ptr? ==> Reachable(s, v.base)
  {
    if v.Ptr? {
      assert v.base in RootSet(s);
      ReachRoot(s.heap, RootSet(s), v.base);
    }
  }

  lemma LiveSight(s: Gc, s': Gc, x: Value)
    requires BlocksKept(s.heap, s'.heap) && RawKept(s, s') && Closed(s.heap, s'.heap, LiveIn(s))
    ensures Within(s.heap, LiveIn(s), x) ==> SameSight(s, s', x)
  {
    hide Reachable, BlockKept;
    if x.Ptr? && x.base in s.heap && x.base in LiveIn(s) { TagsKept(s.heap, s'.heap, x.base); }
  }

  lemma RootsStay(s: Gc, op: Op, s': Gc)
    requires Step(s, op, s') && (op.Start? || op.MarkOne? || op.SweepOne?)
    ensures s'.roots == s.roots
  {
  }

  /**
   * In a segment of a run in which only the collector works, over any number of cycles, the program reads the same from
   * its roots at the end as at the start.
   */
  lemma {:induction false} SegmentReads(states: seq<Gc>, ops: seq<Op>, n: nat, v: Value, path: seq<nat>, x: Value)
    requires Run(states, ops) && Inv(states[0]) && CollectorOnly(ops) && n <= |ops| && v in states[0].roots
    ensures Inv(states[n]) && states[n].roots == states[0].roots
    ensures Reads(states[0].heap, v, path, x) <==> Reads(states[n].heap, v, path, x)
    decreases n
  {
    hide Inv, Step, Reads, SameSight;
    if n > 0 {
      SegmentReads(states, ops, n - 1, v, path, x);
      assert Step(states[n-1], ops[n-1], states[n]);
      StepInv(states[n-1], ops[n-1], states[n]);
      RootsStay(states[n-1], ops[n-1], states[n]);
      StepReads(states[n-1], ops[n-1], states[n], v, path, x);
    }
  }

  /** From every root, every path reads the same; blocks and data are kept. */
  ghost predicate Unseen(s: Gc, s': Gc) {
    && Since(s, s') && s'.roots == s.roots
    && forall v, path, x {:trigger Reads(s'.heap, v, path, x)} :: v in s.roots ==>
         (Reads(s.heap, v, path, x) <==> Reads(s'.heap, v, path, x))
  }

  lemma UnseenSelf(s: Gc)
    ensures Unseen(s, s)
  {
    SinceSelf(s);
  }

  lemma UnseenStep(s0: Gc, s: Gc, op: Op, s': Gc)
    requires Unseen(s0, s) && Inv(s) && Step(s, op, s') && (op.Start? || op.MarkOne? || op.SweepOne?)
    ensures Unseen(s0, s')
  {
    hide Inv, Step, Reads, SameSight, Since;
    SinceStep(s0, s, op, s');
    RootsStay(s, op, s');
    forall v, path, x {:trigger Reads(s'.heap, v, path, x)} | v in s0.roots
      ensures Reads(s0.heap, v, path, x) <==> Reads(s'.heap, v, path, x)
    {
      StepReads(s, op, s', v, path, x);
    }
  }

  lemma UnseenTrans(s0: Gc, s1: Gc, s2: Gc)
    requires Unseen(s0, s1) && Unseen(s1, s2)
    ensures Unseen(s0, s2)
  {
    hide Reads, Since;
    SinceTrans(s0, s1, s2);
    forall v, path, x {:trigger Reads(s2.heap, v, path, x)} | v in s0.roots
      ensures Reads(s0.heap, v, path, x) <==> Reads(s2.heap, v, path, x)
    {
      assert Reads(s1.heap, v, path, x) <==> Reads(s2.heap, v, path, x);
    }
  }

  // ---- Finalisation -------------------------------------------------------------------------------------------------

  /** The block at `a` is allocated, and nothing that the mutator holds leads to it. */
  ghost predicate Lost(s: Gc, a: int) { a in s.heap && !Led(s.heap, s, a) }

  /** From `a`, `n` forwarding blocks, all lost, lead to `b`. */
  ghost predicate PassesLost(s: Gc, a: int, b: int, n: nat)
    decreases n
  {
    if n == 0 then a == b
    else
      && Lost(s, a) && Forwards(s.heap, Ptr(a, 0)) && s.heap[a].fields[0].Ptr? && s.heap[a].fields[0].ofs == 0
      && PassesLost(s, s.heap[a].fields[0].base, b, n - 1)
  }

  /** The value that is to be finalised in the place of `a`. */
  ghost predicate StandsFor(s: Gc, a: int, b: int) {
    !(Lost(s, b) && Forwards(s.heap, Ptr(b, 0))) && exists n: nat :: PassesLost(s, a, b, n)
  }

  /**
   * What a cycle started in `s0` does with the registered values: those lost are to be finalised, the others stay
   * registered, and nothing else is added or removed.
   */
  ghost predicate FinalsEnd(s0: Gc, s: Gc) {
    && (forall f, b {:trigger StandsFor(s0, f.val, b), f in s0.finals} :: f in s0.finals && StandsFor(s0, f.val, b) ==>
          if Lost(s0, b) then Final(f.fun, b) in s.finalising else Final(f.fun, b) in s.finals)
    && (forall g {:trigger g in s.finals} :: g in s.finals ==> exists f :: CameFrom(s0, f, g) && !Lost(s0, g.val))
    && (forall g {:trigger g in s.finalising} :: g in s.finalising ==>
          g in s0.finalising || exists f :: CameFrom(s0, f, g) && Lost(s0, g.val))
    && (forall g {:trigger g in s0.finalising} :: g in s0.finalising ==> g in s.finalising)
  }

  ghost predicate CameFrom(s0: Gc, f: Final, g: Final) {
    f in s0.finals && g.fun == f.fun && StandsFor(s0, f.val, g.val)
  }

  lemma WhiteLost(s: Gc, a: int)
    ensures IsWhite(Divided(s), a) <==> Lost(s, a)
  {
    LedIs(s.heap, s, a);
  }

  lemma ForwardsDivided(s: Gc, a: int)
    ensures IsForward(Divided(s), Ptr(a, 0)) <==> Forwards(s.heap, Ptr(a, 0))
    ensures a in s.heap ==> Divided(s)[a].fields == s.heap[a].fields
  {
  }

  lemma {:induction false} PassesIs(s: Gc, a: int, b: int, n: nat)
    requires PassesLost(s, a, b, n)
    ensures WhiteFollow(Divided(s), a, n) == b
    decreases n
  {
    hide Divided;
    WhiteLost(s, a);
    ForwardsDivided(s, a);
    if n > 0 { PassesIs(s, s.heap[a].fields[0].base, b, n - 1); }
  }

  lemma {:induction false} FollowPasses(s: Gc, a: int, n: nat) returns (k: nat)
    ensures PassesLost(s, a, WhiteFollow(Divided(s), a, n), k)
    decreases n
  {
    hide Divided;
    WhiteLost(s, a);
    ForwardsDivided(s, a);
    var h := Divided(s);
    if n > 0 && IsWhite(h, a) && IsForward(h, Ptr(a, 0)) && h[a].fields[0].Ptr? && h[a].fields[0].ofs == 0 {
      k := FollowPasses(s, h[a].fields[0].base, n - 1);
      k := k + 1;
    } else {
      k := 0;
    }
  }

  lemma SettlesIs(s: Gc, a: int, b: int)
    ensures Settles(Divided(s), a, b) <==> StandsFor(s, a, b)
  {
    hide Divided, PassesLost;
    WhiteLost(s, b);
    ForwardsDivided(s, b);
    if StandsFor(s, a, b) {
      var n: nat :| PassesLost(s, a, b, n);
      PassesIs(s, a, b, n);
    }
    if Settles(Divided(s), a, b) {
      var n: nat :| WhiteFollow(Divided(s), a, n) == b;
      var k := FollowPasses(s, a, n);
    }
  }

  /** The sets of entries that a cycle leaves, in these terms. */
  lemma FinalsAre(s0: Gc, s: Gc)
    requires Entries(s.finals) == KeepOf(Divided(s0), s0.finals)
    requires Entries(s.finalising) == Entries(s0.finalising) + MoveOf(Divided(s0), s0.finals)
    requires forall f {:trigger f in s0.finals} :: f in s0.finals ==> exists b :: StandsFor(s0, f.val, b)
    ensures FinalsEnd(s0, s)
  {
    hide Divided, Settles, StandsFor, Lost, SettleOf;
    var h := Divided(s0);
    forall f, b {:trigger StandsFor(s0, f.val, b), f in s0.finals} | f in s0.finals && StandsFor(s0, f.val, b)
      ensures if Lost(s0, b) then Final(f.fun, b) in s.finalising else Final(f.fun, b) in s.finals
    {
      EntryEnds(s0, f, b);
      assert if Lost(s0, b) then Final(f.fun, b) in Entries(s.finalising) else Final(f.fun, b) in Entries(s.finals);
    }
    forall g {:trigger g in s.finals} | g in s.finals
      ensures exists f :: CameFrom(s0, f, g) && !Lost(s0, g.val)
    {
      assert g in Entries(s.finals);
      var f :| f in s0.finals && GcSteps.Stays(h, f) && Settled(h, f) == g;
      var b :| StandsFor(s0, f.val, b);
      EntryEnds(s0, f, b);
      assert CameFrom(s0, f, g);
    }
    forall g {:trigger g in s.finalising} | g in s.finalising
      ensures g in s0.finalising || exists f :: CameFrom(s0, f, g) && Lost(s0, g.val)
    {
      assert g in Entries(s.finalising);
      if g !in s0.finalising {
        var f :| f in s0.finals && !GcSteps.Stays(h, f) && Settled(h, f) == g;
        var b :| StandsFor(s0, f.val, b);
        EntryEnds(s0, f, b);
        assert CameFrom(s0, f, g);
      }
    }
    forall g {:trigger g in s0.finalising} | g in s0.finalising
      ensures g in s.finalising
    {
      assert g in Entries(s0.finalising);
      assert g in Entries(s.finalising);
    }
  }

  lemma EntryEnds(s0: Gc, f: Final, b: int)
    requires f in s0.finals && StandsFor(s0, f.val, b)
    ensures Settled(Divided(s0), f) == Final(f.fun, b) && (GcSteps.Stays(Divided(s0), f) <==> !Lost(s0, b))
    ensures Lost(s0, b) ==> Final(f.fun, b) in MoveOf(Divided(s0), s0.finals)
    ensures !Lost(s0, b) ==> Final(f.fun, b) in KeepOf(Divided(s0), s0.finals)
  {
    SettlesIs(s0, f.val, b);
    SettleUnique(Divided(s0), f.val, b);
    WhiteLost(s0, b);
  }

  lemma StandsForSome(s: Gc, rank: map<int, nat>, fset: set<int>, f: Final)
    requires Ranked(s.heap, rank) && FinalChains(s.heap, s.finals, fset) && f in s.finals
    ensures exists b :: StandsFor(s, f.val, b)
  {
    var h := Divided(s);
    assert Ranked(h, rank) && FinalChains(h, [], fset) by { DividedChains(s, rank, fset); }
    hide Divided;
    ForwardsDivided(s, f.val);
    ChainSettles(h, f.val, rank, fset);
    var b :| Settles(h, f.val, b);
    SettlesIs(s, f.val, b);
  }

  lemma DividedChains(s: Gc, rank: map<int, nat>, fset: set<int>)
    requires Ranked(s.heap, rank) && FinalChains(s.heap, s.finals, fset)
    ensures Ranked(Divided(s), rank) && FinalChains(Divided(s), [], fset)
  {
    hide Reach, RootSet;
    var h, g := s.heap, Divided(s);
    forall v
      ensures IsForward(g, v) <==> IsForward(h, v)
    {
    }
  }
}
