/**
 * What a minor collection does: the young blocks that are still in use move to the major heap, and every
 * pointer to one of them is redirected, without going through forwarding blocks any more.
 */
module MinorSpec {
  import opened GcHeap

  const INFIX_TAG: nat := 249

  /** Weak arrays: abstract blocks too, but told apart here because their fields are values. */
  const WEAK_ARRAY: nat := 256

  /** The fields of a block are values: the collector scans them, or `weak_set` writes them through `Modify`. */
  predicate HoldsValues(tag: nat) { tag < NO_SCAN_TAG || tag == WEAK_ARRAY }

  /** A young block. Once moved, its header is zero and its first field is the new address. */
  datatype Young = Young(moved: bool, tag: nat, fields: seq<Value>)
  datatype Old = Old(tag: nat, fields: seq<Value>)

  type Nursery = map<int, Young>
  type Major = map<int, Old>

  /** The heaps before the collection. `rank` decreases along chains of forwarding blocks. */
  datatype Snapshot = Snapshot(young: Nursery, major: Major, roots: seq<Value>, refs: seq<(int, nat)>,
                               rank: map<int, nat>)

  /** The state during the collection: `fwd` tells where blocks went, `list` is the to-do list. */
  datatype Copy = Copy(young: Nursery, major: Major, roots: seq<Value>, todo: int, fwd: map<int, int>, list: seq<int>)

  predicate IsYoung(y: Nursery, v: Value) { v.Ptr? && v.base in y }

  predicate IsYoungForward(y: Nursery, v: Value) {
    IsYoung(y, v) && v.ofs == 0 && y[v.base].tag == FORWARD_TAG && |y[v.base].fields| > 0
  }

  function RankOf(g: Snapshot, v: Value): nat {
    if v.Ptr? && v.base in g.rank then g.rank[v.base] + 1 else 0
  }

  /** A value with the forwarding blocks of the minor heap skipped. */
  function Skip(g: Snapshot, v: Value): Value
    decreases RankOf(g, v)
  {
    if IsYoungForward(g.young, v) && RankOf(g, g.young[v.base].fields[0]) < RankOf(g, v) then
      Skip(g, g.young[v.base].fields[0])
    else
      v
  }

  /** `w` stands for `v` after the collection. */
  predicate Rel(g: Snapshot, fwd: map<int, int>, v: Value, w: Value) {
    var x := Skip(g, v);
    if IsYoung(g.young, x) then x.base in fwd && w == Ptr(fwd[x.base], x.ofs) else w == x
  }

  ghost predicate RelSeq(g: Snapshot, fwd: map<int, int>, vs: seq<Value>, ws: seq<Value>) {
    |vs| == |ws| && forall i {:trigger vs[i]} {:trigger ws[i]} :: 0 <= i < |vs| ==> Rel(g, fwd, vs[i], ws[i])
  }

  /** Block contents: raw data is copied, values are redirected. */
  ghost predicate RelBlock(g: Snapshot, fwd: map<int, int>, tag: nat, vs: seq<Value>, b: Old) {
    b.tag == tag && if !HoldsValues(tag) then b.fields == vs else RelSeq(g, fwd, vs, b.fields)
  }

  // ---- Before the collection --------------------------------------------------------------------

  /**
   * A pointer leads to a block, and a pointer to an infix header to a closure. (A pointer out of the heaps is immediate
   * here.)
   */
  predicate Proper(y: Nursery, m: Major, v: Value) {
    (v.Ptr? ==> v.base in y || v.base in m) && InfixOk(y, v)
  }

  predicate InfixOk(y: Nursery, v: Value) {
    IsYoung(y, v) && v.ofs > 0 ==> y[v.base].tag < INFIX_TAG
  }

  predicate ProperSeq(y: Nursery, m: Major, vs: seq<Value>) {
    forall v :: v in vs ==> Proper(y, m, v)
  }

  ghost predicate YoungGood(g: Snapshot, a: int) {
    a in g.young ==>
      && a != 0 && a !in g.major
      && !g.young[a].moved && |g.young[a].fields| > 0 && g.young[a].tag != INFIX_TAG && g.young[a].tag != WEAK_ARRAY
      && (HoldsValues(g.young[a].tag) ==> ProperSeq(g.young, g.major, g.young[a].fields))
      && (g.young[a].tag == FORWARD_TAG ==> RankOf(g, g.young[a].fields[0]) < RankOf(g, Ptr(a, 0)))
  }

  /** Every field of the major heap that holds a young pointer is in the reference table. */
  ghost predicate Covered(y: Nursery, m: Major, refs: seq<(int, nat)>) {
    forall a, i: nat {:trigger m[a].fields[i]} ::
      a in m && HoldsValues(m[a].tag) && i < |m[a].fields| && IsYoung(y, m[a].fields[i]) ==> (a, i) in refs
  }

  predicate RefOk(m: Major, r: (int, nat)) {
    r.0 in m && HoldsValues(m[r.0].tag) && r.1 < |m[r.0].fields|
  }

  ghost predicate Ready(g: Snapshot) {
    && 0 !in g.major
    && (forall a {:trigger g.young[a]} {:trigger YoungGood(g, a)} :: YoungGood(g, a))
    && (forall a {:trigger g.major[a]} :: a in g.major && HoldsValues(g.major[a].tag) ==>
        ProperSeq(g.young, g.major, g.major[a].fields))
    && ProperSeq(g.young, g.major, g.roots)
    && (forall r :: r in g.refs ==> RefOk(g.major, r))
    && Covered(g.young, g.major, g.refs)
  }

  /** The young block that a value leads to. */
  predicate LeadsTo(g: Snapshot, v: Value, b: int) {
    Skip(g, v).Ptr? && Skip(g, v).base == b && b in g.young
  }

  /** A young block is in use: the roots or the reference table lead to it, through `n` other young blocks. */
  ghost predicate UsedN(g: Snapshot, b: int, n: nat)
    decreases n
  {
    if n == 0 then
      || (exists v :: v in g.roots && LeadsTo(g, v, b))
      || (exists r :: r in g.refs && RefOk(g.major, r) && LeadsTo(g, g.major[r.0].fields[r.1], b))
    else
      exists c, v ::
        c in g.young && HoldsValues(g.young[c].tag) && v in g.young[c].fields && LeadsTo(g, v, b) && UsedN(g, c, n - 1)
  }

  ghost predicate Used(g: Snapshot, b: int) {
    exists n: nat :: UsedN(g, b, n)
  }

  // ---- After the collection -----------------------------------------------------------------------

  ghost predicate Injective(fwd: map<int, int>) {
    forall a, b {:trigger fwd[a], fwd[b]} :: a in fwd && b in fwd && a != b ==> fwd[a] != fwd[b]
  }

  predicate NoYoung(y: Nursery, v: Value) { !IsYoung(y, v) }

  /** The outcome: old blocks stay, moved blocks are new, and both hold redirected values. */
  ghost predicate Promoted(g: Snapshot, fwd: map<int, int>, m: Major, roots: seq<Value>) {
    && fwd.Keys <= g.young.Keys && Injective(fwd)
    && (forall b {:trigger fwd[b]} :: b in fwd ==>
          fwd[b] !in g.young && fwd[b] !in g.major && fwd[b] in m &&
            RelBlock(g, fwd, g.young[b].tag, g.young[b].fields, m[fwd[b]]))
    && (forall a {:trigger a in g.major} :: a in g.major ==>
        a in m && RelBlock(g, fwd, g.major[a].tag, g.major[a].fields, m[a]))
    && (forall a {:trigger a in m} :: a in m ==> a in g.major || exists b :: b in fwd && fwd[b] == a)
    && RelSeq(g, fwd, g.roots, roots)
    && (forall b {:trigger b in fwd} :: b in fwd ==> Used(g, b))
  }

  // ---- Paths --------------------------------------------------------------------------------------

  datatype Read = Stuck | Got(v: Value)

  /** Follows field numbers from a value; a pointer to an infix header gives access to the whole closure. */
  function ReadBefore(g: Snapshot, v: Value, path: seq<nat>): Read
    decreases |path|
  {
    var x := Skip(g, v);
    if path == [] then Got(x)
    else if IsYoung(g.young, x) then ReadIn(g, g.young[x.base].tag, g.young[x.base].fields, path)
    else if x.Ptr? && x.base in g.major then ReadIn(g, g.major[x.base].tag, g.major[x.base].fields, path)
    else Stuck
  }

  function ReadIn(g: Snapshot, tag: nat, fs: seq<Value>, path: seq<nat>): Read
    requires path != []
    decreases |path|, 0
  {
    if HoldsValues(tag) && path[0] < |fs| then ReadBefore(g, fs[path[0]], path[1..]) else Stuck
  }

  function ReadAfter(m: Major, w: Value, path: seq<nat>): Read
    decreases |path|
  {
    if path == [] then Got(w)
    else if w.Ptr? && w.base in m && HoldsValues(m[w.base].tag) && path[0] < |m[w.base].fields| then
      ReadAfter(m, m[w.base].fields[path[0]], path[1..])
    else Stuck
  }

  lemma {:induction false} SkipProper(g: Snapshot, v: Value)
    requires Ready(g) && Proper(g.young, g.major, v)
    ensures Skip(g, Skip(g, v)) == Skip(g, v) && Proper(g.young, g.major, Skip(g, v))
    ensures !IsYoungForward(g.young, Skip(g, v))
    decreases RankOf(g, v)
  {
    if IsYoungForward(g.young, v) && RankOf(g, g.young[v.base].fields[0]) < RankOf(g, v) {
      assert YoungGood(g, v.base) && g.young[v.base].fields[0] in g.young[v.base].fields;
      SkipProper(g, g.young[v.base].fields[0]);
    }
  }

  /** Every path reads the same thing before and after: both are stuck, or both give corresponding values. */
  lemma {:induction false} PathsAgree(g: Snapshot, fwd: map<int, int>, m: Major, roots: seq<Value>, v: Value, w: Value,
                                      path: seq<nat>)
    requires Ready(g) && Promoted(g, fwd, m, roots) && Proper(g.young, g.major, v) && Rel(g, fwd, v, w)
    ensures var before, after := ReadBefore(g, v, path), ReadAfter(m, w, path);
            (before.Stuck? && after.Stuck?) || (before.Got? && after.Got? && Rel(g, fwd, before.v, after.v))
    decreases |path|
  {
    var x := Skip(g, v);
    SkipProper(g, v);
    if path != [] && w.Ptr? && w.base in m && HoldsValues(m[w.base].tag) && path[0] < |m[w.base].fields| {
      var vs := if IsYoung(g.young, x) then g.young[x.base].fields else g.major[x.base].fields;
      assert vs[path[0]] in vs && ProperSeq(g.young, g.major, vs);
      PathsAgree(g, fwd, m, roots, vs[path[0]], m[w.base].fields[path[0]], path[1..]);
    }
  }

  /** Sharing is kept: two values meet in one block after the collection exactly if they did before. */
  lemma SharingKept(g: Snapshot, fwd: map<int, int>, m: Major, roots: seq<Value>, v1: Value, w1: Value, v2: Value,
                    w2: Value)
    requires Ready(g) && Promoted(g, fwd, m, roots)
    requires Proper(g.young, g.major, v1) && Proper(g.young, g.major, v2) && Rel(g, fwd, v1, w1) && Rel(g, fwd, v2, w2)
    ensures w1 == w2 <==> Skip(g, v1) == Skip(g, v2)
  {
    SkipProper(g, v1);
    SkipProper(g, v2);
  }

  /** Nothing leads to the minor heap any more. */
  lemma NothingYoung(g: Snapshot, fwd: map<int, int>, m: Major, roots: seq<Value>)
    requires Promoted(g, fwd, m, roots)
    ensures forall w :: w in roots ==> NoYoung(g.young, w)
    ensures forall a, i: nat {:trigger m[a].fields[i]} ::
              a in m && HoldsValues(m[a].tag) && i < |m[a].fields| ==> NoYoung(g.young, m[a].fields[i])
  {
    assert forall v, w {:trigger Rel(g, fwd, v, w)} :: Rel(g, fwd, v, w) ==> NoYoung(g.young, w);
    hide Rel;
    forall a, i: nat | a in m && HoldsValues(m[a].tag) && i < |m[a].fields|
      ensures NoYoung(g.young, m[a].fields[i])
    {
      if a in g.major {
        assert Rel(g, fwd, g.major[a].fields[i], m[a].fields[i]);
      } else {
        var b :| b in fwd && fwd[b] == a;
        assert Rel(g, fwd, g.young[b].fields[i], m[a].fields[i]);
      }
    }
    forall i | 0 <= i < |roots| ensures NoYoung(g.young, roots[i]) {
      assert Rel(g, fwd, g.roots[i], roots[i]);
    }
  }

  lemma LedMoved(g: Snapshot, fwd: map<int, int>, v: Value, w: Value, b: int)
    requires Rel(g, fwd, v, w) && LeadsTo(g, v, b)
    ensures b in fwd
  {
  }

  /** Exactly the blocks in use move. */
  lemma {:induction false} UsedMoved(g: Snapshot, fwd: map<int, int>, m: Major, roots: seq<Value>, b: int, n: nat)
    requires Promoted(g, fwd, m, roots) && UsedN(g, b, n)
    ensures b in fwd
    decreases n
  {
    hide Rel, LeadsTo, Injective;
    if n > 0 {
      var c, v :|
        c in g.young && HoldsValues(g.young[c].tag) && v in g.young[c].fields && LeadsTo(g, v, b) && UsedN(g, c, n - 1);
      UsedMoved(g, fwd, m, roots, c, n - 1);
      var i :| 0 <= i < |g.young[c].fields| && g.young[c].fields[i] == v;
      LedMoved(g, fwd, v, m[fwd[c]].fields[i], b);
    } else if v :| v in g.roots && LeadsTo(g, v, b) {
      var i :| 0 <= i < |g.roots| && g.roots[i] == v;
      LedMoved(g, fwd, v, roots[i], b);
    } else {
      var r :| r in g.refs && RefOk(g.major, r) && LeadsTo(g, g.major[r.0].fields[r.1], b);
      var (a, i) := r;
      assert a in g.major;
      LedMoved(g, fwd, g.major[a].fields[i], m[a].fields[i], b);
    }
  }
}
