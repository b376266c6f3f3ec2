/** The steps of the collector and of the mutator, as relations on states. */
module GcSteps {
  import opened GcHeap
  import opened GcState

  /** Darkens the white blocks of a set. */
  function Shade(h: Heap, at: set<int>): Heap {
    map a | a in h :: if a in at && h[a].color.White? then h[a].(color := Gray) else h[a]
  }

  function WhiteIn(h: Heap, at: set<int>): set<int> {
    set a | a in at && a in h && h[a].color.White?
  }

  /**
   * `added` has been pushed on the gray stack `base`, overflowing any number of times: the stack may
   * have grown, or lost part of its contents, but then the heap is not pure any more.
   */
  ghost predicate Pushed(s: Gc, base: seq<int>, added: set<int>, s': Gc) {
    && NoDup(s'.gray) && |s'.gray| < s'.cap && 2 <= s'.cap
    && (forall a :: a in s'.gray ==> a in base || a in added)
    && (s'.pure ==> s.pure && forall a :: a in base || a in added ==> a in s'.gray)
  }

  /** Only the heap and the gray stack differ. */
  ghost predicate SameButMarks(s: Gc, s': Gc) {
    s' == s.(heap := s'.heap, gray := s'.gray, cap := s'.cap, pure := s'.pure)
  }

  /** `darken` on a value. */
  ghost predicate Darken(s: Gc, v: Value, s': Gc) {
    var at := if v.Ptr? then {v.base} else {};
    && SameButMarks(s, s')
    && s'.heap == Shade(s.heap, at)
    && Pushed(s, s.gray, WhiteIn(s.heap, at), s')
  }

  // ---- Forwarding blocks --------------------------------------------------------------------

  predicate IsForward(h: Heap, v: Value) {
    v.Ptr? && v.ofs == 0 && v.base in h && h[v.base].tag == FORWARD_TAG && |h[v.base].fields| > 0
  }

  function Forwarded(h: Heap, v: Value): Value {
    if IsForward(h, v) then h[v.base].fields[0] else v
  }

  function Follow(h: Heap, v: Value, n: nat): Value
    decreases n
  {
    if n == 0 then v else Follow(h, Forwarded(h, v), n - 1)
  }

  /** Where a chain of forwarding blocks ends. */
  ghost predicate EndsAt(h: Heap, v: Value, w: Value) {
    !IsForward(h, w) && exists n: nat :: Follow(h, v, n) == w
  }

  // ---- Marking ------------------------------------------------------------------------------

  /** Scans a gray block: it turns black, its children gray, and it no longer goes through forwarding blocks. */
  function Scan(h: Heap, v: int): Heap
    requires v in h
  {
    var b := h[v];
    if b.tag >= NO_SCAN_TAG then h[v := b.(color := Black)]
    else Shade(h, Refs(b))[v := Block(Black, b.tag, ForwardFields(h, b.fields, |b.fields|))]
  }

  /** Fields whose first `i` skip forwarding blocks. */
  function ForwardFields(h: Heap, fs: seq<Value>, i: nat): (r: seq<Value>)
    requires i <= |fs|
    ensures |r| == |fs|
    ensures forall j {:trigger r[j]} :: 0 <= j < |fs| ==> r[j] == if j < i then Forwarded(h, fs[j]) else fs[j]
  {
    if i == 0 then fs else ForwardFields(h, fs, i - 1)[i - 1 := Forwarded(h, fs[i - 1])]
  }

  ghost predicate MarkPop(s: Gc, s': Gc) {
    && |s.gray| > 0
    && var v := s.gray[|s.gray|-1];
       && v in s.heap
       && SameButMarks(s, s')
       && s'.heap == Scan(s.heap, v)
       && Pushed(s, s.gray[..|s.gray|-1], WhiteIn(s.heap, Refs(s.heap[v])), s')
  }

  /** `q` is the first allocated block at or after `p`. */
  ghost predicate NextBlock(h: Heap, p: int, q: int) {
    q in h && p <= q && forall a :: a in h && p <= a ==> q <= a
  }

  ghost predicate MarkRescan(s: Gc, s': Gc) {
    || ((forall a :: a in s.heap ==> a < s.markhp) && s' == s.(scanning := false))
    || (exists q :: NextBlock(s.heap, s.markhp, q) &&
                    s' == s.(gray := if IsGray(s.heap, q) then [q] else [], markhp := q + 1))
  }

  /** The header just before what `v` points to is white, as an infix header always is. */
  predicate WhiteHeader(h: Heap, v: Value) { v.Ptr? && v.base in h && (v.ofs != 0 || h[v.base].color.White?) }

  /** A weak pointer after cleaning: forwarding blocks skipped, and null if its header is white. */
  ghost predicate CleanField(h: Heap, v: Value, w: Value) {
    exists x :: EndsAt(h, v, x) && w == if WhiteHeader(h, x) then Imm(0) else x
  }

  ghost predicate CleanFields(h: Heap, vs: seq<Value>, ws: seq<Value>) {
    |ws| == |vs| && forall i {:trigger ws[i]} :: 0 <= i < |vs| ==> CleanField(h, vs[i], ws[i])
  }

  ghost predicate MarkWeak(s: Gc, s': Gc) {
    && s.weakDone < |s.weak|
    && var cur := s.weak[s.weakDone];
       && cur in s.heap
       && if IsWhite(s.heap, cur) then
            s' == s.(weak := s.weak[..s.weakDone] + s.weak[s.weakDone + 1..])
          else exists ws :: CleanFields(s.heap, s.heap[cur].fields, ws) &&
                            s' == s.(heap := s.heap[cur := s.heap[cur].(fields := ws)], weakDone := s.weakDone + 1)
  }

  /** A finalisable value: white forwarding blocks are skipped. */
  ghost predicate Settles(h: Heap, a: int, b: int) {
    !(IsWhite(h, b) && IsForward(h, Ptr(b, 0))) && exists n: nat :: WhiteFollow(h, a, n) == b
  }

  function WhiteFollow(h: Heap, a: int, n: nat): int
    decreases n
  {
    if n == 0 then a
    else if IsWhite(h, a) && IsForward(h, Ptr(a, 0)) && h[a].fields[0].Ptr? && h[a].fields[0].ofs == 0
    then WhiteFollow(h, h[a].fields[0].base, n - 1)
    else a
  }

  /** Where white forwarding blocks lead from `a`. */
  ghost function SettleOf(h: Heap, a: int): int {
    if b :| Settles(h, a, b) then b else a
  }

  /** An entry once settled. */
  ghost function Settled(h: Heap, f: Final): Final {
    Final(f.fun, SettleOf(h, f.val))
  }

  /** The entry stays finalisable: its value is not white. */
  ghost predicate Stays(h: Heap, f: Final) {
    !IsWhite(h, SettleOf(h, f.val))
  }

  /** The entries that stay finalisable, and the entries that are to be finalised. */
  ghost function KeepOf(h: Heap, fs: seq<Final>): set<Final> {
    set f | f in fs && Stays(h, f) :: Settled(h, f)
  }

  ghost function MoveOf(h: Heap, fs: seq<Final>): set<Final> {
    set f | f in fs && !Stays(h, f) :: Settled(h, f)
  }

  function ValsOf(fs: set<Final>): set<int> {
    set f | f in fs :: f.val
  }

  function Entries(fs: seq<Final>): set<Final> {
    set f | f in fs
  }

  /** `final_update`: the finalisable values that are white become roots to finalise, and are darkened. */
  ghost predicate MarkFinal(s: Gc, s': Gc) {
    && (forall f :: f in s.finals ==> exists b :: Settles(s.heap, f.val, b))
    && var move := MoveOf(s.heap, s.finals);
       && s' == s.(heap := s'.heap, gray := s'.gray, cap := s'.cap, pure := s'.pure, sub := FinalPass,
                   finals := s'.finals, finalising := s'.finalising)
       && Entries(s'.finals) == KeepOf(s.heap, s.finals)
       && Entries(s'.finalising) == Entries(s.finalising) + move
       && |s'.finals| + |s'.finalising| == |s.finals| + |s.finalising|
       && s'.heap == Shade(s.heap, ValsOf(move))
       && Pushed(s, s.gray, WhiteIn(s.heap, ValsOf(move)), s')
  }

  /** One iteration of the loop of `mark_slice`. */
  ghost predicate MarkIter(s: Gc, s': Gc) {
    && s.phase.Mark?
    && if |s.gray| > 0 then MarkPop(s, s')
       else if s.scanning then MarkRescan(s, s')
       else if !s.pure then s' == s.(pure := true, scanning := true, markhp := 0)
       else match s.sub
            case Main => s' == s.(sub := WeakPass, weakDone := 0)
            case WeakPass => if s.weakDone < |s.weak| then MarkWeak(s, s') else MarkFinal(s, s')
            case FinalPass => s' == s.(phase := Sweep, sweepHp := 0)
  }

  /** One iteration of the loop of `sweep_slice`. */
  ghost predicate SweepIter(s: Gc, s': Gc) {
    && s.phase.Sweep?
    && ( || ((forall a :: a in s.heap ==> a < s.sweepHp) && s' == s.(phase := Idle))
         || (exists q :: NextBlock(s.heap, s.sweepHp, q) &&
               s' == if IsWhite(s.heap, q) then s.(heap := s.heap - {q}, sweepHp := q + 1)
                     else s.(heap := s.heap[q := s.heap[q].(color := White)], sweepHp := q + 1)))
  }

  ghost predicate StartCycle(s: Gc, s': Gc) {
    && s.phase.Idle?
    && s' == s.(phase := Mark, sub := Main, scanning := false,
                heap := Shade(s.heap, RootSet(s)), gray := s'.gray, cap := s'.cap, pure := s'.pure)
    && Pushed(s, s.gray, WhiteIn(s.heap, RootSet(s)), s')
  }

  // ---- The mutator --------------------------------------------------------------------------

  /** The mutator can only use immediates and what it can reach. */
  ghost predicate Usable(s: Gc, v: Value) {
    v.Ptr? ==> Reachable(s, v.base)
  }

  /** `Modify`: store, then darken the old value during marking. */
  ghost predicate Modify(s: Gc, a: int, i: int, v: Value, s': Gc) {
    && Reachable(s, a) && Usable(s, v)
    && a in s.heap && s.heap[a].tag < NO_SCAN_TAG && 0 <= i < |s.heap[a].fields|
    && var old_ := s.heap[a].fields[i];
       var s1 := s.(heap := s.heap[a := s.heap[a].(fields := s.heap[a].fields[i := v])]);
       if s.phase.Mark? then Darken(s1, old_, s') else s' == s1
  }

  /** `allocation_color` */
  function AllocationColor(s: Gc, a: int): Color {
    if s.phase.Mark? || (s.phase.Sweep? && a >= s.sweepHp) then Black else White
  }

  /** `alloc_shr` at a free address, followed by the initialisation of the block. */
  ghost predicate Allocate(s: Gc, a: int, tag: nat, fields: seq<Value>, s': Gc) {
    && a !in s.heap && 0 <= a && (tag == FORWARD_TAG ==> |fields| == 1)
    && (forall v :: v in fields ==> Usable(s, v))
    && s' == s.(heap := s.heap[a := Block(AllocationColor(s, a), tag, fields)], roots := s.roots + {Ptr(a, 0)})
  }

  ghost predicate WeakCreate(s: Gc, a: int, n: nat, s': Gc) {
    && a !in s.heap && 0 <= a
    && s' == s.(heap := s.heap[a := Block(AllocationColor(s, a), ABSTRACT_TAG, seq(n, _ => Imm(0)))],
                roots := s.roots + {Ptr(a, 0)}, weak := [a] + s.weak,
                weakDone := if s.weakDone > 0 then s.weakDone + 1 else 0)
  }

  ghost predicate WeakSet(s: Gc, a: int, i: int, v: Value, s': Gc) {
    && Reachable(s, a) && Usable(s, v)
    && a in s.weak && a in s.heap && 0 <= i < |s.heap[a].fields|
    && s' == s.(heap := s.heap[a := s.heap[a].(fields := s.heap[a].fields[i := v])])
  }

  ghost predicate WeakGet(s: Gc, a: int, i: int, s': Gc) {
    && Reachable(s, a) && a in s.weak && a in s.heap && 0 <= i < |s.heap[a].fields|
    && var e := s.heap[a].fields[i];
       var s1 := s.(roots := s.roots + {e});
       if s.phase.Mark? then Darken(s1, e, s') else s' == s1
  }

  datatype Op =
    | Start | MarkOne | SweepOne
    | Store(a: int, i: int, v: Value)
    | New(a: int, tag: nat, fields: seq<Value>)
    | Load(v: Value) | Drop(v: Value)
    | NewWeak(a: int, n: nat) | SetWeak(a: int, i: int, v: Value) | GetWeak(a: int, i: int)
    | Register(f: Value, val: int) | RunFinaliser(i: int)

  ghost predicate Step(s: Gc, op: Op, s': Gc) {
    match op
    case Start => StartCycle(s, s')
    case MarkOne => MarkIter(s, s')
    case SweepOne => SweepIter(s, s')
    case Store(a, i, v) => Modify(s, a, i, v, s')
    case New(a, tag, fields) => Allocate(s, a, tag, fields, s')
    case Load(v) => Usable(s, v) && s' == s.(roots := s.roots + {v})
    case Drop(v) => s' == s.(roots := s.roots - {v})
    case NewWeak(a, n) => WeakCreate(s, a, n, s')
    case SetWeak(a, i, v) => WeakSet(s, a, i, v, s')
    case GetWeak(a, i) => WeakGet(s, a, i, s')
    case Register(f, val) => Usable(s, f) && Reachable(s, val) && s' == s.(finals := s.finals + [Final(f, val)])
    case RunFinaliser(i) =>
      && 0 <= i < |s.finalising|
      && s' == s.(finalising := s.finalising[..i] + s.finalising[i + 1..],
                  roots := s.roots + {s.finalising[i].fun, Ptr(s.finalising[i].val, 0)})
  }
}
