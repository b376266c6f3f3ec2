/** The state of the major collector (byterun/major_gc.c) and its invariant. */
module GcState {
  import opened GcHeap

  datatype Phase = Idle | Mark | Sweep
  datatype Subphase = Main | WeakPass | FinalPass

  /** A registered finalisation: closure and value. */
  datatype Final = Final(fun: Value, val: int)

  /**
   * `roots` stands for everything outside the major heap that the mutator can use.
   * `gray`, `cap` and `pure` are `gray_vals`, its capacity and `heap_is_pure`; `scanning` says that
   * `markhp` is not null.  `weak` is the weak list and `weakDone` the number of its arrays already
   * cleaned in this cycle; the fields of a weak array are its weak pointers, without the list link.
   */
  datatype Gc = Gc(heap: Heap, roots: set<Value>, phase: Phase, sub: Subphase,
                   gray: seq<int>, cap: nat, pure: bool, scanning: bool, markhp: int, sweepHp: int,
                   weak: seq<int>, weakDone: nat, finals: seq<Final>, finalising: seq<Final>)

  /** The blocks that the mutator holds, directly or through a finalisation closure or a pending finalisation. */
  function RootSet(s: Gc): set<int> {
    (set v | v in s.roots && v.Ptr? :: v.base)
    + (set f | f in s.finals && f.fun.Ptr? :: f.fun.base)
    + (set f | f in s.finalising && f.fun.Ptr? :: f.fun.base)
    + (set f | f in s.finalising :: f.val)
  }

  /** Allocated, and not about to be swept. */
  ghost predicate Kept(s: Gc, a: int) {
    a in s.heap && (s.phase.Sweep? && s.heap[a].color.White? ==> a < s.sweepHp)
  }

  /** What every block that the mutator can reach satisfies. */
  ghost predicate Good(s: Gc, a: int) {
    match s.phase
    case Idle => a in s.heap
    case Mark => Safe(s.heap, a)
    case Sweep => Kept(s, a)
  }

  ghost predicate RootsGood(s: Gc) {
    forall a :: a in RootSet(s) ==> Good(s, a)
  }

  /**
   * References lead to allocated blocks; from black blocks, to safe ones; during a sweep, from kept blocks to kept
   * ones.
   */
  ghost predicate EdgesGood(s: Gc) {
    forall a, b {:trigger Edge(s.heap, a, b)} :: Edge(s.heap, a, b) ==>
      match s.phase
      case Idle => b in s.heap
      case Mark => b in s.heap && (IsBlack(s.heap, a) ==> Safe(s.heap, b))
      case Sweep => Kept(s, a) ==> Kept(s, b)
  }

  ghost predicate ColorsGood(s: Gc) {
    && (s.phase.Idle? ==> forall a :: a in s.heap ==> s.heap[a].color.White?)
    && (s.phase.Sweep? ==> forall a :: a in s.heap ==>
        !s.heap[a].color.Gray? && (a < s.sweepHp ==> s.heap[a].color.White?))
    && (forall a :: a in s.heap ==> (s.heap[a].tag == FORWARD_TAG ==> |s.heap[a].fields| == 1) && 0 <= a)
  }

  ghost predicate NoDup(q: seq<int>) {
    forall i, j :: 0 <= i < j < |q| ==> q[i] != q[j]
  }

  /**
   * The gray blocks are never lost: each one is on the stack, or ahead of the rescan, or the heap is
   * known to be impure.  The stack holds gray blocks only, each once, and has room.
   */
  ghost predicate GrayGood(s: Gc) {
    && NoDup(s.gray) && |s.gray| < s.cap && 2 <= s.cap
    && (forall a :: a in s.gray ==> IsGray(s.heap, a))
    && (s.pure ==> forall a {:trigger IsGray(s.heap, a)} :: IsGray(s.heap, a) ==>
        a in s.gray || (s.scanning && s.markhp <= a))
    && (!s.phase.Mark? ==> s.gray == [] && s.pure && !s.scanning)
  }

  /** Array number `i` of the weak list has been cleaned in this cycle. */
  ghost predicate Cleaned(s: Gc, i: int) {
    s.phase.Mark? && (s.sub.FinalPass? || (s.sub.WeakPass? && i < s.weakDone))
  }

  ghost predicate WeakGoodAt(s: Gc, i: int) {
    && 0 <= i < |s.weak| && s.weak[i] in s.heap && s.heap[s.weak[i]].tag == ABSTRACT_TAG
    && (s.phase.Sweep? ==> Kept(s, s.weak[i]))
    && (Cleaned(s, i) ==> !IsWhite(s.heap, s.weak[i]))
    && (forall b {:trigger b in Bases(s.heap[s.weak[i]].fields)} :: b in Bases(s.heap[s.weak[i]].fields) ==>
          && b in s.heap
          && (s.phase.Sweep? ==> Kept(s, b))
          && (Cleaned(s, i) ==> Safe(s.heap, b)))
  }

  ghost predicate WeakGood(s: Gc) {
    && (forall i {:trigger WeakGoodAt(s, i)} :: 0 <= i < |s.weak| ==> WeakGoodAt(s, i))
    && (s.phase.Mark? && s.sub.WeakPass? ==> s.weakDone <= |s.weak|)
  }

  ghost predicate FinalsGood(s: Gc) {
    forall f :: f in s.finals ==>
      && f.val in s.heap
      && (s.phase.Sweep? ==> Kept(s, f.val))
      && (s.phase.Mark? && s.sub.FinalPass? ==> Safe(s.heap, f.val))
  }

  ghost predicate Inv(s: Gc) {
    RootsGood(s) && EdgesGood(s) && ColorsGood(s) && GrayGood(s) && WeakGood(s) && FinalsGood(s)
  }

  /** Every block that the mutator can reach is allocated, and safe from the collection in progress. */
  lemma {:induction false} ReachGoodN(s: Gc, a: int, n: nat)
    requires RootsGood(s) && EdgesGood(s) && ReachN(s.heap, RootSet(s), a, n)
    ensures Good(s, a)
    decreases n
  {
    if n > 0 {
      var b :| ReachN(s.heap, RootSet(s), b, n - 1) && Edge(s.heap, b, a);
      ReachGoodN(s, b, n - 1);
      if s.phase.Mark? {
        EdgeSafe(s.heap, b, a);
      }
    }
  }

  ghost predicate Reachable(s: Gc, a: int) {
    Reach(s.heap, RootSet(s), a)
  }

  lemma ReachGood(s: Gc, a: int)
    requires RootsGood(s) && EdgesGood(s) && Reachable(s, a)
    ensures Good(s, a) && a in s.heap
  {
    var n: nat :| ReachN(s.heap, RootSet(s), a, n);
    ReachGoodN(s, a, n);
    if s.phase.Mark? { SafeAllocated(s.heap, a); }
  }
}
