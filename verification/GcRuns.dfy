/** Whole runs of collector and mutator, in any interleaving. */
module GcRuns {
  import opened GcHeap
  import opened GcState
  import opened GcSteps
  import opened GcSafety

  lemma MarkIterInv(s: Gc, s': Gc)
    requires Inv(s) && MarkIter(s, s')
    ensures Inv(s')
  {
    if |s.gray| > 0 {
      PopInv(s, s');
    } else if s.scanning {
      RescanInv(s, s');
    } else if !s.pure {
      RestartInv(s, s');
    } else {
      match s.sub
      case Main => ToWeakInv(s, s');
      case WeakPass =>
        assert s.weakDone <= |s.weak|;
        if s.weakDone < |s.weak| { MarkWeakInv(s, s'); } else { FinalInv(s, s'); }
      case FinalPass => ToSweepInv(s, s');
    }
  }

  lemma HoldingInv(s: Gc, op: Op, s': Gc)
    requires Inv(s) && Step(s, op, s') && (op.Load? || op.Drop? || op.Register? || op.RunFinaliser?)
    ensures Inv(s')
  {
    if op.RunFinaliser? { assert s.finalising[op.i] in s.finalising; }
    forall a | a in RootSet(s') ensures Good(s, a) {
      if a !in RootSet(s) {
        if op.Load? { ReachGood(s, a); }
        if op.Register? { ReachGood(s, a); }
      }
    }
    forall f | f in s'.finals && f !in s.finals ensures Good(s, f.val) {
      ReachGood(s, f.val);
    }
    HoldInv(s, s');
  }

  /** Every step of every actor keeps the invariant. */
  lemma StepInv(s: Gc, op: Op, s': Gc)
    requires Inv(s) && Step(s, op, s')
    ensures Inv(s')
  {
    hide Inv, MarkIter, SweepIter, StartCycle, Modify, Allocate, WeakCreate, WeakSet, WeakGet, Reachable;
    match op
    case Start => StartInv(s, s');
    case MarkOne => MarkIterInv(s, s');
    case SweepOne => SweepInv(s, s');
    case Store(a, i, v) => ModifyInv(s, a, i, v, s');
    case New(a, tag, fields) => AllocateInv(s, a, tag, fields, s');
    case Load(_) => HoldingInv(s, op, s');
    case Drop(_) => HoldingInv(s, op, s');
    case NewWeak(a, n) => WeakCreateInv(s, a, n, s');
    case SetWeak(a, i, v) => WeakSetInv(s, a, i, v, s');
    case GetWeak(a, i) => WeakGetInv(s, a, i, s');
    case Register(_, _) => HoldingInv(s, op, s');
    case RunFinaliser(_) => HoldingInv(s, op, s');
  }

  /** Only the sweep frees blocks, and only blocks that it may free. */
  lemma FreesOnlyUnkept(s: Gc, op: Op, s': Gc, a: int)
    requires Inv(s) && Step(s, op, s') && a in s.heap && a !in s'.heap
    ensures op.SweepOne? && !Kept(s, a)
  {
    if op.SweepOne? {
      SweepInv(s, s');
    }
  }

  ghost predicate Run(states: seq<Gc>, ops: seq<Op>) {
    && |states| == |ops| + 1
    && forall i {:trigger ops[i]} :: 0 <= i < |ops| ==> Step(states[i], ops[i], states[i+1])
  }

  /** The heap at start-up: nothing allocated, nothing to mark. */
  ghost predicate Initial(s: Gc) {
    && s.heap == map[] && s.roots == {} && s.phase.Idle? && s.gray == [] && s.cap >= 2 && s.pure && !s.scanning
    && s.weak == [] && s.finals == [] && s.finalising == []
  }

  lemma InitialInv(s: Gc)
    requires Initial(s)
    ensures Inv(s)
  {
  }

  lemma {:induction false} RunInv(states: seq<Gc>, ops: seq<Op>, i: nat)
    requires Run(states, ops) && Initial(states[0]) && i < |states|
    ensures Inv(states[i])
    decreases i
  {
    if i == 0 {
      InitialInv(states[0]);
    } else {
      RunInv(states, ops, i - 1);
      var op := ops[i-1];
      assert Step(states[i-1], op, states[i]);
      StepInv(states[i-1], op, states[i]);
    }
  }

  /**
   * Snapshot safety.  In every run, in every interleaving of marking, sweeping and mutation, a block
   * that the mutator can reach is allocated, and no step ever frees it.
   */
  lemma SnapshotSafety(states: seq<Gc>, ops: seq<Op>, i: nat, a: int)
    requires Run(states, ops) && Initial(states[0]) && i < |states| && Reachable(states[i], a)
    ensures a in states[i].heap
    ensures i < |ops| ==> a in states[i+1].heap
  {
    var s := states[i];
    RunInv(states, ops, i);
    ReachGood(s, a);
    if i < |ops| && a !in states[i+1].heap {
      var op := ops[i];
      assert Step(s, op, states[i+1]);
      FreesOnlyUnkept(s, op, states[i+1], a);
    }
  }

  /**
   * In every run, a weak pointer of an array on the weak list leads to an allocated block, and so does a finalisable
   * value.
   */
  lemma NoDanglingWeak(states: seq<Gc>, ops: seq<Op>, i: nat, j: nat, b: int)
    requires Run(states, ops) && Initial(states[0]) && i < |states|
    requires j < |states[i].weak|
    ensures states[i].weak[j] in states[i].heap
    ensures b in Bases(states[i].heap[states[i].weak[j]].fields) ==> b in states[i].heap
    ensures forall f :: f in states[i].finals ==> f.val in states[i].heap
  {
    RunInv(states, ops, i);
    assert WeakGoodAt(states[i], j);
  }

  /**
   * When the sweep starts: no block is gray, every block that the mutator can reach is black (values
   * to finalise included), and so is every block named by a weak array or registered for finalisation.
   */
  lemma SweepStarts(states: seq<Gc>, ops: seq<Op>, i: nat, a: int)
    requires Run(states, ops) && Initial(states[0]) && i < |ops|
    requires states[i].phase.Mark? && states[i+1].phase.Sweep?
    ensures var s := states[i+1];
            && !IsGray(s.heap, a)
            && (Reachable(s, a) ==> IsBlack(s.heap, a))
            && (forall j :: 0 <= j < |s.weak| && s.weak[j] in s.heap && a in Bases(s.heap[s.weak[j]].fields) ==>
                IsBlack(s.heap, a))
            && (forall f :: f in s.finals && f.val == a ==> IsBlack(s.heap, a))
  {
    var s, op := states[i+1], ops[i];
    assert Step(states[i], op, s);
    RunInv(states, ops, i);
    RunInv(states, ops, i + 1);
    hide Run, Reachable;
    SweepStartsAtZero(states[i], op, s);
    if Reachable(s, a) { ReachGood(s, a); }
    forall j | 0 <= j < |s.weak| && s.weak[j] in s.heap && a in Bases(s.heap[s.weak[j]].fields)
      ensures IsBlack(s.heap, a)
    {
      assert WeakGoodAt(s, j);
    }
  }

  lemma SweepStartsAtZero(s: Gc, op: Op, s': Gc)
    requires Inv(s) && Step(s, op, s') && s.phase.Mark? && s'.phase.Sweep?
    ensures s'.sweepHp == 0
  {
  }
}
