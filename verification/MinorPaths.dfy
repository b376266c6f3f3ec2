/**
 * What a program can read from its roots, before and after a minor collection, said of the two heaps alone: field
 * numbers are followed through every block that holds values, whatever its tag, and young forwarding blocks are passed.
 */
module MinorPaths {
  import opened GcHeap
  import opened MinorSpec

  /** `v` is a pointer to a young forwarding block. */
  predicate Forwards(y: Nursery, v: Value) {
    v.Ptr? && v.ofs == 0 && v.base in y && y[v.base].tag == 250 && |y[v.base].fields| > 0
  }

  /** From `v`, `n` forwarding blocks lead to `w`. */
  predicate LeadsIn(y: Nursery, v: Value, w: Value, n: nat)
    decreases n
  {
    if n == 0 then v == w else Forwards(y, v) && LeadsIn(y, y[v.base].fields[0], w, n - 1)
  }

  ghost predicate Resolves(y: Nursery, v: Value, w: Value) {
    !Forwards(y, w) && exists n: nat :: LeadsIn(y, v, w, n)
  }

  predicate Allocated(y: Nursery, m: Major, a: int) { a in y || a in m }

  function TagAt(y: Nursery, m: Major, a: int): nat
    requires Allocated(y, m, a)
  {
    if a in y then y[a].tag else m[a].tag
  }

  function FieldsAt(y: Nursery, m: Major, a: int): seq<Value>
    requires Allocated(y, m, a)
  {
    if a in y then y[a].fields else m[a].fields
  }

  /** Blocks of these tags hold values; the last stands for weak arrays. */
  predicate Open(tag: nat) { tag <= 250 || tag == 256 }

  /** Following the field numbers of `path` from `v` gives `x`. */
  ghost predicate Reads(y: Nursery, m: Major, v: Value, path: seq<nat>, x: Value)
    decreases |path|
  {
    if path == [] then Resolves(y, v, x) else exists z :: Resolves(y, v, z) && ReadsIn(y, m, z, path, x)
  }

  ghost predicate ReadsIn(y: Nursery, m: Major, z: Value, path: seq<nat>, x: Value)
    requires path != []
    decreases |path|, 0
  {
    && z.Ptr? && Allocated(y, m, z.base) && Open(TagAt(y, m, z.base)) && path[0] < |FieldsAt(y, m, z.base)|
    && Reads(y, m, FieldsAt(y, m, z.base)[path[0]], path[1..], x)
  }

  /** The same number; or the same offset in a block of the same tag and size, and of the same contents if it is raw. */
  predicate Matches(y: Nursery, m: Major, m': Major, x: Value, w: Value) {
    if x.Imm? then w == x
    else
      && w.Ptr? && w.ofs == x.ofs && Allocated(y, m, x.base) && w.base in m' && w.base !in y
      && m'[w.base].tag == TagAt(y, m, x.base) && |m'[w.base].fields| == |FieldsAt(y, m, x.base)|
      && (!Open(TagAt(y, m, x.base)) ==> m'[w.base].fields == FieldsAt(y, m, x.base))
      && (x.base !in y ==> w.base == x.base)
  }

  // ---- Resolving is skipping ----------------------------------------------------------------------------------------

  lemma {:induction false} SkipResolves(g: Snapshot, v: Value)
    requires Ready(g) && Proper(g.young, g.major, v)
    ensures Resolves(g.young, v, Skip(g, v))
    decreases RankOf(g, v)
  {
    SkipProper(g, v);
    if IsYoungForward(g.young, v) {
      assert YoungGood(g, v.base);
      var w := g.young[v.base].fields[0];
      assert w in g.young[v.base].fields;
      SkipResolves(g, w);
      var n: nat :| LeadsIn(g.young, w, Skip(g, w), n);
      assert LeadsIn(g.young, v, Skip(g, v), n + 1);
    } else {
      assert LeadsIn(g.young, v, v, 0);
    }
  }

  lemma {:induction false} ResolvesOnce(y: Nursery, v: Value, w1: Value, n1: nat, w2: Value, n2: nat)
    requires LeadsIn(y, v, w1, n1) && LeadsIn(y, v, w2, n2) && !Forwards(y, w1) && !Forwards(y, w2)
    ensures w1 == w2
    decreases n1
  {
    if n1 > 0 && n2 > 0 { ResolvesOnce(y, y[v.base].fields[0], w1, n1 - 1, w2, n2 - 1); }
  }

  lemma ResolvesTo(g: Snapshot, v: Value, x: Value)
    requires Ready(g) && Proper(g.young, g.major, v)
    ensures Resolves(g.young, v, x) <==> x == Skip(g, v)
  {
    hide Skip, Ready, Proper;
    SkipResolves(g, v);
    if Resolves(g.young, v, x) {
      var n: nat :| LeadsIn(g.young, v, x, n);
      var k: nat :| LeadsIn(g.young, v, Skip(g, v), k);
      ResolvesOnce(g.young, v, x, n, Skip(g, v), k);
    }
  }

  lemma ResolvesNone(v: Value, x: Value)
    ensures Resolves(map[], v, x) <==> x == v
  {
    assert LeadsIn(map[], v, v, 0);
    if Resolves(map[], v, x) {
      var n: nat :| LeadsIn(map[], v, x, n);
    }
  }

  // ---- Reads --------------------------------------------------------------------------------------------------------

  lemma {:induction false} ReadsBefore(g: Snapshot, v: Value, path: seq<nat>, x: Value)
    requires Ready(g) && Proper(g.young, g.major, v)
    ensures Reads(g.young, g.major, v, path, x) <==> ReadBefore(g, v, path) == Got(x)
    ensures Reads(g.young, g.major, v, path, x) ==> Proper(g.young, g.major, x) && Skip(g, x) == x
    decreases |path|
  {
    var z := Skip(g, v);
    SkipProper(g, v);
    ResolvesTo(g, v, x);
    ResolvesTo(g, v, z);
    if path != [] {
      forall u | Resolves(g.young, v, u)
        ensures u == z
      {
        ResolvesTo(g, v, u);
      }
      assert Reads(g.young, g.major, v, path, x) <==> ReadsIn(g.young, g.major, z, path, x);
      if z.Ptr? && Allocated(g.young, g.major, z.base) && HoldsValues(TagAt(g.young, g.major, z.base)) &&
        path[0] < |FieldsAt(g.young, g.major, z.base)| {
        ProperField(g, z.base, path[0]);
        ReadsBefore(g, FieldsAt(g.young, g.major, z.base)[path[0]], path[1..], x);
      }
    }
  }

  lemma ProperField(g: Snapshot, a: int, i: nat)
    requires Ready(g) && Allocated(g.young, g.major, a) && HoldsValues(TagAt(g.young, g.major, a))
    requires i < |FieldsAt(g.young, g.major, a)|
    ensures Proper(g.young, g.major, FieldsAt(g.young, g.major, a)[i])
  {
    var fs := FieldsAt(g.young, g.major, a);
    assert fs[i] in fs;
    if a in g.young { assert YoungGood(g, a); }
  }

  lemma {:induction false} ReadsAfter(m: Major, w: Value, path: seq<nat>, x: Value)
    ensures Reads(map[], m, w, path, x) <==> ReadAfter(m, w, path) == Got(x)
    decreases |path|
  {
    ResolvesNone(w, x);
    ResolvesNone(w, w);
    if path != [] {
      forall u | Resolves(map[], w, u)
        ensures u == w
      {
        ResolvesNone(w, u);
      }
      assert Reads(map[], m, w, path, x) <==> ReadsIn(map[], m, w, path, x);
      if w.Ptr? && w.base in m && HoldsValues(m[w.base].tag) && path[0] < |m[w.base].fields| {
        ReadsAfter(m, m[w.base].fields[path[0]], path[1..], x);
      }
    }
  }

  lemma RelMatches(g: Snapshot, fwd: map<int, int>, m: Major, roots: seq<Value>, x: Value, w: Value)
    requires Ready(g) && Promoted(g, fwd, m, roots) && Proper(g.young, g.major, x) && Skip(g, x) == x &&
             Rel(g, fwd, x, w)
    ensures Matches(g.young, g.major, m, x, w)
  {
    if x.Ptr? && x.base in g.young { assert YoungGood(g, x.base); }
  }

  /** Any path reads from `w` a match of what it read from `v`, and nothing where it read nothing. */
  ghost predicate ReadAlike(g: Snapshot, m: Major, v: Value, w: Value, path: seq<nat>) {
    && (forall x {:trigger Reads(g.young, g.major, v, path, x)} :: Reads(g.young, g.major, v, path, x) ==>
          exists u :: Reads(map[], m, w, path, u) && Matches(g.young, g.major, m, x, u))
    && (forall u {:trigger Reads(map[], m, w, path, u)} :: Reads(map[], m, w, path, u) ==>
          exists x :: Reads(g.young, g.major, v, path, x) && Matches(g.young, g.major, m, x, u))
  }

  lemma RelReads(g: Snapshot, fwd: map<int, int>, m: Major, roots: seq<Value>, v: Value, w: Value, path: seq<nat>)
    requires Ready(g) && Promoted(g, fwd, m, roots) && Proper(g.young, g.major, v) && Rel(g, fwd, v, w)
    ensures ReadAlike(g, m, v, w, path)
  {
    PathsAgree(g, fwd, m, roots, v, w, path);
    var before, after := ReadBefore(g, v, path), ReadAfter(m, w, path);
    if before.Got? {
      ReadsBefore(g, v, path, before.v);
      ReadsAfter(m, w, path, after.v);
      RelMatches(g, fwd, m, roots, before.v, after.v);
    }
    forall x | Reads(g.young, g.major, v, path, x)
      ensures before == Got(x)
    {
      ReadsBefore(g, v, path, x);
    }
    forall u | Reads(map[], m, w, path, u)
      ensures after == Got(u)
    {
      ReadsAfter(m, w, path, u);
    }
  }

  /** After the collection, every path reads alike from every root, and from every block of the major heap. */
  lemma SameReads(g: Snapshot, fwd: map<int, int>, m: Major, roots: seq<Value>, path: seq<nat>)
    requires Ready(g) && Promoted(g, fwd, m, roots)
    ensures |roots| == |g.roots|
    ensures forall i {:trigger roots[i]} :: 0 <= i < |roots| ==> ReadAlike(g, m, g.roots[i], roots[i], path)
    ensures forall a {:trigger a in g.major} :: a in g.major ==> ReadAlike(g, m, Ptr(a, 0), Ptr(a, 0), path)
  {
    hide ReadAlike;
    forall i {:trigger roots[i]} | 0 <= i < |roots|
      ensures ReadAlike(g, m, g.roots[i], roots[i], path)
    {
      assert g.roots[i] in g.roots;
      RelReads(g, fwd, m, roots, g.roots[i], roots[i], path);
    }
    forall a {:trigger a in g.major} | a in g.major
      ensures ReadAlike(g, m, Ptr(a, 0), Ptr(a, 0), path)
    {
      assert YoungGood(g, a);
      RelReads(g, fwd, m, roots, Ptr(a, 0), Ptr(a, 0), path);
    }
  }

  /** Two paths from the roots meet in the same place after the collection if and only if they did before. */
  lemma RootsShare(g: Snapshot, fwd: map<int, int>, m: Major, roots: seq<Value>, i: nat, p: seq<nat>, j: nat,
                   q: seq<nat>,
                   x: Value, y: Value, u: Value, w: Value)
    requires Ready(g) && Promoted(g, fwd, m, roots) && i < |g.roots| && j < |g.roots| == |roots|
    requires Reads(g.young, g.major, g.roots[i], p, x) && Reads(g.young, g.major, g.roots[j], q, y)
    requires Reads(map[], m, roots[i], p, u) && Reads(map[], m, roots[j], q, w)
    ensures x == y <==> u == w
  {
    hide Reads, Skip, Rel, Proper, Ready, Promoted;
    PathPair(g, fwd, m, roots, i, p, x, u);
    PathPair(g, fwd, m, roots, j, q, y, w);
    SharingKept(g, fwd, m, roots, x, u, y, w);
  }

  lemma PathPair(g: Snapshot, fwd: map<int, int>, m: Major, roots: seq<Value>, i: nat, p: seq<nat>, x: Value, u: Value)
    requires Ready(g) && Promoted(g, fwd, m, roots) && i < |g.roots| == |roots|
    requires Reads(g.young, g.major, g.roots[i], p, x) && Reads(map[], m, roots[i], p, u)
    ensures Proper(g.young, g.major, x) && Skip(g, x) == x && Rel(g, fwd, x, u)
  {
    assert g.roots[i] in g.roots;
    PathsAgree(g, fwd, m, roots, g.roots[i], roots[i], p);
    ReadsBefore(g, g.roots[i], p, x);
    ReadsAfter(m, roots[i], p, u);
  }
}
