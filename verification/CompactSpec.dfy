/**
 * The memory contents while the compactor threads pointers (byterun/compact.c, passes 1 and 2),
 * written as a function of the original heap and of the cells inverted so far.
 */
module CompactSpec {
  import opened HeapWords

  /** The heap before compaction: the memory, and the blocks by the address of their header. */
  datatype Graph = Graph(o: seq<Word>, hd: map<int, Block>)

  /** The header of the block that a header address (of a block, or infix) belongs to. */
  function Owner(g: Graph, t: int): int {
    if t !in g.hd && 0 <= t < |g.o| && g.o[t].Hd? then t - g.o[t].size else t
  }

  /** The header address that the cell `c` points to. */
  function Target(g: Graph, c: int): int {
    if 0 <= c < |g.o| && g.o[c].Ptr? then g.o[c].adr - 1 else -1
  }

  /** `t` is an infix header inside the closure at `p`. */
  predicate InfixOf(g: Graph, p: int, t: int) {
    && t !in g.hd && Owner(g, t) == p
    && 0 <= t < |g.o| && g.o[t].Hd?
  }

  /** `t` is the header of a white block, or a white infix header inside a white closure, before a code pointer. */
  predicate GoodTarget(g: Graph, t: int) {
    && 0 <= t < |g.o| && g.o[t].Hd?
    && Owner(g, t) in g.hd && g.hd[Owner(g, t)].color.White?
    && (t in g.hd || (
          && g.o[t].tag == INFIX_TAG && g.o[t].color.White?
          && g.hd[Owner(g, t)].tag == CLOSURE_TAG
          && Owner(g, t) < t < Owner(g, t) + g.hd[Owner(g, t)].size))
  }

  /** `c` is a memory word that holds a pointer to a proper target. */
  predicate Cell(g: Graph, c: int) {
    0 <= c < |g.o| && g.o[c].Ptr? && GoodTarget(g, Target(g, c))
  }

  /** Every block header is a header word, and no ordinary block is tagged as an infix header. */
  ghost predicate Headers(g: Graph) {
    forall p :: p in g.hd ==> 0 <= p < |g.o| && g.o[p].Hd? && g.hd[p].tag != INFIX_TAG
  }

  /** A sequence of distinct cells: those inverted so far, in order. */
  ghost predicate Cells(g: Graph, done: seq<int>) {
    && (forall i :: 0 <= i < |done| ==> Cell(g, done[i]))
    && (forall i, j :: 0 <= i < j < |done| ==> done[i] != done[j])
  }

  /** Index of the last inverted cell that pointed at header `t`, or -1. */
  function Last(g: Graph, done: seq<int>, t: int): (r: int)
    ensures -1 <= r < |done|
    ensures r >= 0 ==> Target(g, done[r]) == t
    decreases |done|
  {
    if done == [] then -1
    else if Target(g, done[|done|-1]) == t then |done| - 1
    else Last(g, done[..|done|-1], t)
  }

  /** The infix header of block `p` whose list was started last, or -1. */
  function Recent(g: Graph, done: seq<int>, p: int): int
    decreases |done|
  {
    if done == [] then -1
    else
      var init := done[..|done|-1];
      var t := Target(g, done[|done|-1]);
      if InfixOf(g, p, t) && Last(g, init, t) < 0 then t else Recent(g, init, p)
  }

  /** The encoded header of block `p` as pass 1 leaves it: free blocks become strings. */
  function Encoded(g: Graph, p: int): Word {
    if p !in g.hd then Imm(0)
    else Ehd(g.hd[p].size, if g.hd[p].color.Blue? then STRING_TAG else g.hd[p].tag)
  }

  /** The word at the end of the inverted list of block `p`. */
  function EndW(g: Graph, done: seq<int>, p: int): Word {
    var r := Recent(g, done, p);
    if r > p then Ehd(r - p - 1, INFIX_TAG) else Encoded(g, p)
  }

  /** The word at the end of an infix list started when `done` was inverted. */
  function InfixEndW(g: Graph, done: seq<int>, p: int): Word {
    var r := Recent(g, done, p);
    if r > p then Link(r) else Encoded(g, p)
  }

  /** Contents of a word `a` that is not an inverted cell. */
  function HeadW(g: Graph, done: seq<int>, a: int): Word
    requires 0 <= a < |g.o|
  {
    var l := Last(g, done, a);
    if a in g.hd then
      if l >= 0 then Ptr(done[l]) else EndW(g, done, a)
    else
      if l >= 0 then Inv(done[l]) else g.o[a]
  }

  /** Contents of the `i`-th inverted cell. */
  function CellW(g: Graph, done: seq<int>, i: nat): Word
    requires i < |done|
  {
    var t := Target(g, done[i]);
    var l := Last(g, done[..i], t);
    if t in g.hd then
      if l >= 0 then Ptr(done[l]) else EndW(g, done, t)
    else
      if l >= 0 then Inv(done[l]) else InfixEndW(g, done[..i], Owner(g, t))
  }

  /** Memory `m` is the original heap with exactly the cells of `done` inverted. */
  ghost predicate Threaded(g: Graph, done: seq<int>, m: seq<Word>) {
    && Cells(g, done)
    && |m| == |g.o|
    && (forall a {:trigger HeadW(g, done, a)} :: 0 <= a < |m| && a !in done ==> m[a] == HeadW(g, done, a))
    && (forall i {:trigger CellW(g, done, i)} :: 0 <= i < |done| ==> m[done[i]] == CellW(g, done, i))
  }

  // ---- Facts about Last and Recent ------------------------------------------------------

  lemma LastSnoc(g: Graph, done: seq<int>, c: int, t: int)
    ensures Last(g, done + [c], t) == if Target(g, c) == t then |done| else Last(g, done, t)
  {
    assert (done + [c])[..|done|] == done;
  }

  lemma RecentSnoc(g: Graph, done: seq<int>, c: int, p: int)
    ensures Recent(g, done + [c], p) ==
            if InfixOf(g, p, Target(g, c)) && Last(g, done, Target(g, c)) < 0 then Target(g, c) else Recent(g, done, p)
  {
    assert (done + [c])[..|done|] == done;
  }

  /** No inverted cell after the last one points at `t`. */
  lemma {:induction false} LastIsLast(g: Graph, done: seq<int>, t: int, i: nat)
    requires i < |done| && Target(g, done[i]) == t
    ensures i <= Last(g, done, t)
    decreases |done|
  {
    var init := done[..|done|-1];
    if i < |init| {
      LastIsLast(g, init, t, i);
    }
  }

  /** The most recent infix header lies inside its closure and has a non-empty list. */
  lemma {:induction false} RecentInside(g: Graph, done: seq<int>, p: int)
    requires forall i :: 0 <= i < |done| ==> Cell(g, done[i])
    requires Recent(g, done, p) != -1
    ensures var r := Recent(g, done, p);
            InfixOf(g, p, r) && GoodTarget(g, r) && Last(g, done, r) >= 0
    decreases |done|
  {
    var init, c := done[..|done|-1], done[|done|-1];
    assert done == init + [c];
    assert Cell(g, c);
    LastSnoc(g, init, c, Recent(g, done, p));
    RecentSnoc(g, init, c, p);
    if !(InfixOf(g, p, Target(g, c)) && Last(g, init, Target(g, c)) < 0) {
      RecentInside(g, init, p);
    }
  }

  /** If some infix header of `p` has a list, there is a most recent one. */
  lemma {:induction false} RecentExists(g: Graph, done: seq<int>, p: int, i: nat)
    requires i < |done| && InfixOf(g, p, Target(g, done[i]))
    ensures Recent(g, done, p) != -1
    decreases |done|
  {
    var init, c := done[..|done|-1], done[|done|-1];
    assert done == init + [c];
    RecentSnoc(g, init, c, p);
    if i < |init| {
      RecentExists(g, init, p, i);
    } else if Last(g, init, Target(g, c)) >= 0 {
      RecentExists(g, init, p, Last(g, init, Target(g, c)));
    }
  }
}
