/**
 * Runs of the mutator and of the minor collector: the write barrier keeps every field of the major heap
 * that holds a young pointer in the reference table.
 */
module MinorRuns {
  import opened GcHeap
  import opened MinorSpec

  datatype Heaps = Heaps(young: Nursery, major: Major, roots: seq<Value>, refs: seq<(int, nat)>)

  datatype Op =
    | AllocYoung(a: int, tag: nat, fields: seq<Value>)
    | AllocMajor(a: int, tag: nat, fields: seq<Value>)
    | SetYoung(a: int, i: nat, v: Value)
    | Initialize(a: int, i: nat, v: Value)
    | Modify(a: int, i: nat, v: Value)
    | SetRoots(roots: seq<Value>)
    | Collect(rank: map<int, nat>, fwd: map<int, int>)

  predicate Holds(h: Heaps, v: Value) { Proper(h.young, h.major, v) }

  function WithField(m: Major, a: int, i: nat, v: Value): Major
    requires a in m && i < |m[a].fields|
  {
    m[a := m[a].(fields := m[a].fields[i := v])]
  }

  /** The reference table after `initialize`. */
  function InitializeRefs(h: Heaps, a: int, i: nat, v: Value): seq<(int, nat)> {
    if IsYoung(h.young, v) then h.refs + [(a, i)] else h.refs
  }

  /** The reference table after `Modify`: the field is added unless it held a young pointer already. */
  function ModifyRefs(h: Heaps, a: int, i: nat, v: Value): seq<(int, nat)>
    requires a in h.major && i < |h.major[a].fields|
  {
    if IsYoung(h.young, v) && !IsYoung(h.young, h.major[a].fields[i]) then h.refs + [(a, i)] else h.refs
  }

  predicate MajorField(h: Heaps, a: int, i: nat) {
    a in h.major && HoldsValues(h.major[a].tag) && i < |h.major[a].fields|
  }

  predicate Fresh(h: Heaps, a: int, tag: nat, fields: seq<Value>) {
    a != 0 && a !in h.young && a !in h.major && |fields| > 0 && tag != INFIX_TAG
  }

  ghost predicate Step(h: Heaps, op: Op, h': Heaps) {
    match op
    case AllocYoung(a, tag, fields) =>
      && Fresh(h, a, tag, fields) && tag != WEAK_ARRAY && (HoldsValues(tag) ==> ProperSeq(h.young, h.major, fields))
      && h' == h.(young := h.young[a := Young(false, tag, fields)])
    case AllocMajor(a, tag, fields) =>
      && Fresh(h, a, tag, fields) && (HoldsValues(tag) ==> forall v :: v in fields ==> v.Imm?)
      && h' == h.(major := h.major[a := Old(tag, fields)])
    case SetYoung(a, i, v) =>
      && a in h.young && HoldsValues(h.young[a].tag) && i < |h.young[a].fields| && Holds(h, v)
      && h' == h.(young := h.young[a := h.young[a].(fields := h.young[a].fields[i := v])])
    case Initialize(a, i, v) =>
      MajorField(h, a, i) && Holds(h, v) && h' == h.(major := WithField(h.major, a, i, v),
                                                     refs := InitializeRefs(h, a, i, v))
    case Modify(a, i, v) =>
      MajorField(h, a, i) && Holds(h, v) && h' == h.(major := WithField(h.major, a, i, v),
                                                     refs := ModifyRefs(h, a, i, v))
    case SetRoots(roots) =>
      ProperSeq(h.young, h.major, roots) && h' == h.(roots := roots)
    case Collect(rank, fwd) =>
      Ready(Snap(h, rank)) && Promoted(Snap(h, rank), fwd, h'.major, h'.roots) && h'.young == map[] && h'.refs == [] &&
        0 !in h'.major
  }

  function Snap(h: Heaps, rank: map<int, nat>): Snapshot {
    Snapshot(h.young, h.major, h.roots, h.refs, rank)
  }

  ghost predicate YoungShape(h: Heaps, a: int) {
    a in h.young ==>
      && a != 0 && a !in h.major && !h.young[a].moved && |h.young[a].fields| > 0 && h.young[a].tag != INFIX_TAG
      && h.young[a].tag != WEAK_ARRAY
      && (HoldsValues(h.young[a].tag) ==> ProperSeq(h.young, h.major, h.young[a].fields))
  }

  /** What every reachable state satisfies. */
  ghost predicate Shape(h: Heaps) {
    && 0 !in h.major
    && (forall a {:trigger YoungShape(h, a)} {:trigger h.young[a]} :: YoungShape(h, a))
    && (forall a {:trigger h.major[a]} :: a in h.major && HoldsValues(h.major[a].tag) ==>
        ProperSeq(h.young, h.major, h.major[a].fields))
    && ProperSeq(h.young, h.major, h.roots)
    && (forall r :: r in h.refs ==> RefOk(h.major, r))
    && Covered(h.young, h.major, h.refs)
  }

  /** With acyclic forwarding blocks, the collector can start from any such state. */
  lemma ShapeReady(h: Heaps, rank: map<int, nat>)
    requires Shape(h)
    requires forall a {:trigger h.young[a]} :: a in h.young && h.young[a].tag == FORWARD_TAG ==>
               RankOf(Snap(h, rank), h.young[a].fields[0]) < RankOf(Snap(h, rank), Ptr(a, 0))
    ensures Ready(Snap(h, rank))
  {
    var g := Snap(h, rank);
    forall a ensures YoungGood(g, a) { assert YoungShape(h, a); }
  }

  lemma ProperMore(h: Heaps, h': Heaps, vs: seq<Value>)
    requires ProperSeq(h.young, h.major, vs)
    requires forall a {:trigger a in h'.young} :: a in h.young ==> a in h'.young && h'.young[a].tag == h.young[a].tag
    requires forall a {:trigger a in h'.major} :: a in h.major ==> a in h'.major
    requires forall a {:trigger a in h'.young} :: a in h'.young && a !in h.young ==> a !in h.major
    ensures ProperSeq(h'.young, h'.major, vs)
  {
    forall v | v in vs ensures Proper(h'.young, h'.major, v) {
      assert Proper(h.young, h.major, v);
    }
  }

  lemma AllocYoungShape(h: Heaps, op: Op, h': Heaps)
    requires Shape(h) && op.AllocYoung? && Step(h, op, h')
    ensures Shape(h')
  {
    forall a ensures YoungShape(h', a) {
      assert YoungShape(h, a);
      if a == op.a { if HoldsValues(op.tag) { ProperMore(h, h', op.fields); } }
      else if a in h.young && HoldsValues(h.young[a].tag) { ProperMore(h, h', h.young[a].fields); }
    }
    forall a | a in h.major && HoldsValues(h.major[a].tag) ensures ProperSeq(h'.young, h'.major, h.major[a].fields) {
      ProperMore(h, h', h.major[a].fields);
    }
    ProperMore(h, h', h.roots);
    forall a, i: nat | a in h.major && HoldsValues(h.major[a].tag) && i < |h.major[a].fields| &&
      IsYoung(h'.young, h.major[a].fields[i])
      ensures (a, i) in h.refs
    {
      assert h.major[a].fields[i] in h.major[a].fields && Proper(h.young, h.major, h.major[a].fields[i]);
    }
  }

  lemma AllocMajorShape(h: Heaps, op: Op, h': Heaps)
    requires Shape(h) && op.AllocMajor? && Step(h, op, h')
    ensures Shape(h')
  {
    forall a ensures YoungShape(h', a) {
      assert YoungShape(h, a);
      if a in h.young && HoldsValues(h.young[a].tag) { ProperMore(h, h', h.young[a].fields); }
    }
    forall a | a in h'.major && HoldsValues(h'.major[a].tag) ensures ProperSeq(h'.young, h'.major, h'.major[a].fields) {
      if a != op.a { ProperMore(h, h', h.major[a].fields); }
    }
    ProperMore(h, h', h.roots);
    forall r | r in h'.refs ensures RefOk(h'.major, r) { assert RefOk(h.major, r); }
    forall a, i: nat | a in h'.major && HoldsValues(h'.major[a].tag) && i < |h'.major[a].fields| &&
      IsYoung(h'.young, h'.major[a].fields[i])
      ensures (a, i) in h.refs
    {
      assert h'.major[a].fields[i] in h'.major[a].fields;
      assert a != op.a && h.major[a].fields[i] == h'.major[a].fields[i];
    }
  }

  lemma SetYoungShape(h: Heaps, op: Op, h': Heaps)
    requires Shape(h) && op.SetYoung? && Step(h, op, h')
    ensures Shape(h')
  {
    forall a ensures YoungShape(h', a) {
      assert YoungShape(h, a);
      if a in h.young && HoldsValues(h.young[a].tag) {
        if a == op.a {
          ProperMore(h, h', h.young[a].fields[op.i := op.v]);
        } else {
          ProperMore(h, h', h.young[a].fields);
        }
      }
    }
    forall a | a in h.major && HoldsValues(h.major[a].tag) ensures ProperSeq(h'.young, h'.major, h.major[a].fields) {
      ProperMore(h, h', h.major[a].fields);
    }
    ProperMore(h, h', h.roots);
    assert forall v :: IsYoung(h'.young, v) == IsYoung(h.young, v);
  }

  /** Writing a field of the major heap is safe as long as the table gains the field when it must. */
  lemma WriteShape(h: Heaps, a: int, i: nat, v: Value, h': Heaps)
    requires Shape(h) && MajorField(h, a, i) && Holds(h, v)
    requires h' == h.(major := WithField(h.major, a, i, v), refs := h'.refs)
    requires forall r :: r in h'.refs ==> r in h.refs || r == (a, i)
    requires forall r :: r in h.refs ==> r in h'.refs
    requires IsYoung(h.young, v) ==> (a, i) in h'.refs
    ensures Shape(h')
  {
    forall b ensures YoungShape(h', b) {
      assert YoungShape(h, b);
      if b in h.young && HoldsValues(h.young[b].tag) { ProperMore(h, h', h.young[b].fields); }
    }
    forall b | b in h'.major && HoldsValues(h'.major[b].tag) ensures ProperSeq(h'.young, h'.major, h'.major[b].fields) {
      if b == a { ProperMore(h, h', h.major[a].fields[i := v]); } else { ProperMore(h, h', h.major[b].fields); }
    }
    ProperMore(h, h', h.roots);
    forall r | r in h'.refs ensures RefOk(h'.major, r) { if r in h.refs { assert RefOk(h.major, r); } }
    forall b, j: nat | b in h'.major && HoldsValues(h'.major[b].tag) && j < |h'.major[b].fields| &&
      IsYoung(h'.young, h'.major[b].fields[j])
      ensures (b, j) in h'.refs
    {
      if (b, j) != (a, i) { assert h'.major[b].fields[j] == h.major[b].fields[j]; }
    }
  }

  lemma CollectedValue(g: Snapshot, fwd: map<int, int>, m: Major, roots: seq<Value>, v: Value, w: Value)
    requires Ready(g) && Promoted(g, fwd, m, roots) && Proper(g.young, g.major, v) && Rel(g, fwd, v, w)
    ensures Proper(map[], m, w)
  {
    SkipProper(g, v);
  }

  lemma CollectShape(h: Heaps, op: Op, h': Heaps)
    requires Shape(h) && op.Collect? && Step(h, op, h')
    ensures Shape(h')
  {
    var g, fwd, m := Snap(h, op.rank), op.fwd, h'.major;
    hide Rel;
    forall a | a in m && HoldsValues(m[a].tag) ensures ProperSeq(map[], m, m[a].fields) {
      forall w | w in m[a].fields ensures Proper(map[], m, w) {
        var i :| 0 <= i < |m[a].fields| && m[a].fields[i] == w;
        var vs;
        if a in g.major {
          vs := g.major[a].fields;
        } else {
          var b :| b in fwd && fwd[b] == a;
          assert YoungGood(g, b);
          vs := g.young[b].fields;
        }
        assert vs[i] in vs && Proper(g.young, g.major, vs[i]);
        CollectedValue(g, fwd, m, h'.roots, vs[i], w);
      }
    }
    forall w | w in h'.roots ensures Proper(map[], m, w) {
      var i :| 0 <= i < |h'.roots| && h'.roots[i] == w;
      assert g.roots[i] in g.roots;
      CollectedValue(g, fwd, m, h'.roots, g.roots[i], w);
    }
  }

  lemma StepShape(h: Heaps, op: Op, h': Heaps)
    requires Shape(h) && Step(h, op, h')
    ensures Shape(h')
  {
    match op
    case AllocYoung(_, _, _) => AllocYoungShape(h, op, h');
    case AllocMajor(_, _, _) => AllocMajorShape(h, op, h');
    case SetYoung(_, _, _) => SetYoungShape(h, op, h');
    case Initialize(a, i, v) => WriteShape(h, a, i, v, h');
    case Modify(a, i, v) => WriteShape(h, a, i, v, h');
    case SetRoots(_) =>
    case Collect(_, _) => CollectShape(h, op, h');
  }

  ghost predicate Run(states: seq<Heaps>, ops: seq<Op>) {
    |states| == |ops| + 1 && forall k {:trigger ops[k]} :: 0 <= k < |ops| ==> Step(states[k], ops[k], states[k + 1])
  }

  /** In every state of every run, the reference table covers the major heap. */
  lemma {:induction false} RunShape(states: seq<Heaps>, ops: seq<Op>, k: nat)
    requires Run(states, ops) && states[0] == Heaps(map[], map[], [], []) && k < |states|
    ensures Shape(states[k]) && Covered(states[k].young, states[k].major, states[k].refs)
  {
    if k > 0 {
      RunShape(states, ops, k - 1);
      assert Step(states[k-1], ops[k-1], states[k]);
      StepShape(states[k-1], ops[k-1], states[k]);
    }
  }

  // ---- What is stored is what is read -------------------------------------------------------------------------------

  /** One field has the new value; every other field, tag and block is as it was. */
  ghost predicate Stored(m: Major, m': Major, a: int, i: nat, v: Value) {
    && m'.Keys == m.Keys && a in m && i < |m[a].fields|
    && (forall b {:trigger m'[b]} :: b in m ==> m'[b].tag == m[b].tag && |m'[b].fields| == |m[b].fields|)
    && (forall b, j {:trigger m'[b].fields[j]} :: b in m && 0 <= j < |m[b].fields| ==>
          m'[b].fields[j] == if b == a && j == i then v else m[b].fields[j])
  }

  /** The field number `i` of the block at `a`, in either heap. */
  ghost predicate FieldIs(h: Heaps, a: int, i: nat, v: Value) {
    || (a in h.major && i < |h.major[a].fields| && h.major[a].fields[i] == v)
    || (a !in h.major && a in h.young && i < |h.young[a].fields| && h.young[a].fields[i] == v)
  }

  /** What an operation other than a collection makes of a field that holds `was`. */
  function StoreOf(op: Op, a: int, i: nat, was: Value): Value {
    match op
    case SetYoung(b, j, v) => if b == a && j == i then v else was
    case Initialize(b, j, v) => if b == a && j == i then v else was
    case Modify(b, j, v) => if b == a && j == i then v else was
    case _ => was
  }

  lemma StepField(h: Heaps, op: Op, h': Heaps, a: int, i: nat, was: Value)
    requires Shape(h) && Step(h, op, h') && !op.Collect? && FieldIs(h, a, i, was)
    ensures FieldIs(h', a, i, StoreOf(op, a, i, was))
  {
    if a in h.young { assert YoungShape(h, a); }
  }

  /** The last value that `ops` store in a field, or what it held first. */
  function LastStored(ops: seq<Op>, a: int, i: nat, was: Value): Value {
    if ops == [] then was else StoreOf(ops[|ops| - 1], a, i, LastStored(ops[..|ops| - 1], a, i, was))
  }

  /**
   * In a run of the mutator from any shape, with any stores to other fields in between, a field reads the last value
   * stored there, as long as there is no collection.
   */
  lemma {:induction false} ReadsLastStored(states: seq<Heaps>, ops: seq<Op>, a: int, i: nat, was: Value)
    requires Run(states, ops) && Shape(states[0]) && FieldIs(states[0], a, i, was)
    requires forall k {:trigger ops[k]} :: 0 <= k < |ops| ==> !ops[k].Collect?
    ensures FieldIs(states[|ops|], a, i, LastStored(ops, a, i, was)) && Shape(states[|ops|])
    decreases |ops|
  {
    hide Shape, FieldIs, StoreOf, Step;
    if ops != [] {
      var n := |ops| - 1;
      var s, o := states[..|ops|], ops[..n];
      assert forall k {:trigger o[k]} :: 0 <= k < n ==>
             o[k] == ops[k] && s[k] == states[k] && s[k + 1] == states[k + 1];
      ReadsLastStored(s, o, a, i, was);
      assert !ops[n].Collect? && Step(states[n], ops[n], states[n + 1]);
      StepField(states[n], ops[n], states[n + 1], a, i, LastStored(o, a, i, was));
      StepShape(states[n], ops[n], states[n + 1]);
    }
  }
}
