/**
 * What the program does to memory between the steps of the collector, and that it finds it again: a field reads the
 * value last stored in it, whatever the collector did since.
 */
module GcStores {
  import opened GcHeap
  import opened GcState
  import opened GcSteps
  import opened GcRuns
  import opened GcContents
  import opened GcPaths

  ghost predicate SameBlock(h: Heap, h': Heap, b: int) {
    (b in h <==> b in h') && (b in h && b in h' ==> h'[b].tag == h[b].tag && h'[b].fields == h[b].fields)
  }

  ghost predicate OnlyAt(h: Heap, h': Heap, a: int) {
    forall b {:trigger SameBlock(h, h', b)} :: b != a ==> SameBlock(h, h', b)
  }

  ghost predicate Nowhere(h: Heap, h': Heap) { forall b {:trigger SameBlock(h, h', b)} :: SameBlock(h, h', b) }

  ghost predicate StoredAt(h: Heap, h': Heap, a: int, i: int, v: Value) {
    && a in h && a in h' && 0 <= i < |h[a].fields| && h'[a].tag == h[a].tag && h'[a].fields == h[a].fields[i := v]
    && OnlyAt(h, h', a)
  }

  ghost predicate MadeAt(h: Heap, h': Heap, a: int, tag: nat, fields: seq<Value>) {
    a !in h && a in h' && h'[a].tag == tag && h'[a].fields == fields && OnlyAt(h, h', a)
  }

  /** What an operation of the program does. */
  ghost predicate Did(s: Gc, op: Op, s': Gc) {
    match op
    case Store(a, i, v) => StoredAt(s.heap, s'.heap, a, i, v) && s'.roots == s.roots && s'.weak == s.weak
    case SetWeak(a, i, v) => StoredAt(s.heap, s'.heap, a, i, v) && s'.roots == s.roots && s'.weak == s.weak
    case New(a, tag, fields) =>
      MadeAt(s.heap, s'.heap, a, tag, fields) && s'.roots == s.roots + {Ptr(a, 0)} && s'.weak == s.weak
    case NewWeak(a, n) =>
      MadeAt(s.heap, s'.heap, a, 251, seq(n, _ => Imm(0))) && s'.roots == s.roots + {Ptr(a, 0)} &&
        s'.weak == [a] + s.weak
    case GetWeak(a, i) =>
      && a in s.heap && 0 <= i < |s.heap[a].fields| && Nowhere(s.heap, s'.heap)
      && s'.roots == s.roots + {s.heap[a].fields[i]}
    case Load(v) => s'.heap == s.heap && s'.roots == s.roots + {v}
    case Drop(v) => s'.heap == s.heap && s'.roots == s.roots - {v}
    case Register(f, val) => s'.heap == s.heap && s'.finals == s.finals + [Final(f, val)]
    case RunFinaliser(i) =>
      && s'.heap == s.heap && 0 <= i < |s.finalising|
      && s'.finalising == s.finalising[..i] + s.finalising[i + 1..]
      && s'.roots == s.roots + {s.finalising[i].fun, Ptr(s.finalising[i].val, 0)}
    case _ => true
  }

  /** Darkening changes no contents. */
  lemma DarkenSame(s: Gc, v: Value, s': Gc)
    requires Darken(s, v, s')
    ensures Nowhere(s.heap, s'.heap) && s'.roots == s.roots && s'.weak == s.weak
  {
  }

  lemma SameAfter(h: Heap, h1: Heap, h': Heap, a: int)
    requires OnlyAt(h, h1, a) && Nowhere(h1, h')
    ensures OnlyAt(h, h', a)
  {
    forall b {:trigger SameBlock(h, h', b)} | b != a ensures SameBlock(h, h', b) {
      assert SameBlock(h, h1, b) && SameBlock(h1, h', b);
    }
  }

  lemma StoreDid(s: Gc, a: int, i: int, v: Value, s': Gc)
    requires Modify(s, a, i, v, s')
    ensures StoredAt(s.heap, s'.heap, a, i, v) && s'.roots == s.roots && s'.weak == s.weak
  {
    hide Reachable, Usable, Darken;
    var s1 := s.(heap := s.heap[a := s.heap[a].(fields := s.heap[a].fields[i := v])]);
    assert StoredAt(s.heap, s1.heap, a, i, v);
    if s.phase.Mark? {
      DarkenSame(s1, s.heap[a].fields[i], s');
      SameAfter(s.heap, s1.heap, s'.heap, a);
      assert SameBlock(s1.heap, s'.heap, a);
    }
  }

  lemma GetDid(s: Gc, a: int, i: int, s': Gc)
    requires WeakGet(s, a, i, s')
    ensures Did(s, GetWeak(a, i), s')
  {
    hide Reachable, Darken;
    if s.phase.Mark? { DarkenSame(s.(roots := s.roots + {s.heap[a].fields[i]}), s.heap[a].fields[i], s'); }
  }

  lemma ProgramDid(s: Gc, op: Op, s': Gc)
    requires Step(s, op, s')
    ensures Did(s, op, s')
  {
    hide Reachable, Usable, Modify, WeakGet, StartCycle, MarkIter, SweepIter;
    match op
    case Store(a, i, v) => StoreDid(s, a, i, v, s');
    case GetWeak(a, i) => GetDid(s, a, i, s');
    case _ =>
  }

  // ---- Reading what was stored --------------------------------------------------------------------------------------

  /** Field `i` of block `a` holds `v`, which is not a pointer to a forwarding block. */
  ghost predicate Holds(h: Heap, a: int, i: int, v: Value) {
    && a in h && h[a].tag < 251 && 0 <= i < |h[a].fields| && h[a].fields[i] == v
    && !(v.Ptr? && v.ofs == 0 && v.base in h && h[v.base].tag == 250)
  }

  predicate Overwrites(op: Op, a: int, i: int) { op.Store? && op.a == a && op.i == i }

  lemma CollectorHolds(s: Gc, op: Op, s': Gc, a: int, i: nat, v: Value)
    requires Inv(s) && Step(s, op, s') && (op.Start? || op.MarkOne? || op.SweepOne?)
    requires Holds(s.heap, a, i, v) && Reachable(s, a)
    ensures Holds(s'.heap, a, i, v)
  {
    hide Inv, Step;
    StaysAllocated(s, op, s', a);
    StepContents(s, op, s');
    assert BlockKept(s.heap, s.heap[a], s'.heap[a]);
    OnChainIs(s.heap, v, s'.heap[a].fields[i]);
    if v.Ptr? && v.base in s'.heap { assert BlockKept(s.heap, s.heap[v.base], s'.heap[v.base]); }
  }

  lemma ProgramHolds(s: Gc, op: Op, s': Gc, a: int, i: nat, v: Value)
    requires Inv(s) && Step(s, op, s') && !(op.Start? || op.MarkOne? || op.SweepOne?) && !Overwrites(op, a, i)
    requires Holds(s.heap, a, i, v) && Reachable(s, a)
    ensures Holds(s'.heap, a, i, v)
  {
    Next(s, a, i);
    if v.Ptr? { StaysAllocated(s, op, s', v.base); }
    WeakElsewhere(s, op, s', a);
    ProgramDid(s, op, s');
    hide Inv, Step, Reachable;
    assert op.Store? || op.SetWeak? || op.New? || op.NewWeak? || op.GetWeak? || s'.heap == s.heap;
    assert SameBlock(s.heap, s'.heap, a) || op.Store?;
    if v.Ptr? { assert SameBlock(s.heap, s'.heap, v.base) || op.Store? || op.SetWeak?; }
  }

  /** A weak array is not a block that the collector scans. */
  lemma WeakElsewhere(s: Gc, op: Op, s': Gc, a: int)
    requires Inv(s) && Step(s, op, s') && a in s.heap && s.heap[a].tag < 251
    ensures op.SetWeak? ==> op.a != a
  {
    hide Reachable;
    if op.SetWeak? { WeakTag(s, op.a); }
  }

  /** After step `m` and before step `n`, the program can reach the block and does not store in the field. */
  ghost predicate Untouched(states: seq<Gc>, ops: seq<Op>, m: nat, n: nat, a: int, i: nat)
    requires |states| == |ops| + 1 && n <= |ops|
  {
    forall k: nat {:trigger states[k]} :: m < k < n ==> !Overwrites(ops[k], a, i) && Reachable(states[k], a)
  }

  /**
   * As long as the program can reach the block, a field reads the value last stored in it, if that is not a pointer to
   * a forwarding block, whatever else the program and the collector do.
   */
  lemma {:induction false} ReadsLastStored(states: seq<Gc>, ops: seq<Op>, m: nat, n: nat, a: int, i: nat, v: Value)
    requires Run(states, ops) && Initial(states[0]) && m < n <= |ops| && ops[m] == Store(a, i, v)
    requires !Forwards(states[m].heap, v)
    requires Untouched(states, ops, m, n, a, i)
    ensures Holds(states[n].heap, a, i, v)
    decreases n
  {
    hide Inv, Step, Reachable;
    var k := n - 1;
    RunInv(states, ops, k);
    assert Step(states[k], ops[k], states[n]);
    if k == m {
      StoreHolds(states[m], a, i, v, states[n]);
    } else {
      assert !Overwrites(ops[k], a, i) && Reachable(states[k], a);
      ReadsLastStored(states, ops, m, k, a, i, v);
      if ops[k].Start? || ops[k].MarkOne? || ops[k].SweepOne? {
        CollectorHolds(states[k], ops[k], states[n], a, i, v);
      } else {
        ProgramHolds(states[k], ops[k], states[n], a, i, v);
      }
    }
  }

  lemma StoreHolds(s: Gc, a: int, i: nat, v: Value, s': Gc)
    requires Inv(s) && Step(s, Store(a, i, v), s') && !Forwards(s.heap, v)
    ensures Holds(s'.heap, a, i, v)
  {
    ProgramDid(s, Store(a, i, v), s');
    hide Step;
  }
}
