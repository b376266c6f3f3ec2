/** Pass 3 of `compact_heap`: give each live block its new address, revert its lists, restore its headers. */
module CompactRevert {
  import opened HeapWords
  import opened CompactSpec
  import opened CompactInvert

  /** Index of the cell that started the list of header `t`, or -1. */
  function FirstIdx(g: Graph, done: seq<int>, t: int): (f: int)
    ensures f >= 0 ==> IsFirst(g, done, t, f)
    ensures f < 0 <==> Last(g, done, t) < 0
    ensures -1 <= f <= Last(g, done, t)
    decreases |done|
  {
    var l := Last(g, done, t);
    if l < 0 then -1
    else
      var f := FirstIdx(g, done[..l], t);
      if f < 0 then l else
      assert done[..l][..f] == done[..f];
      f
  }

  lemma FirstIdxUnique(g: Graph, done: seq<int>, t: int, f: nat)
    requires IsFirst(g, done, t, f)
    ensures FirstIdx(g, done, t) == f
  {
    LastIsLast(g, done, t, f);
    EndUnique(g, done, t, f, FirstIdx(g, done, t));
  }

  /** The word after the list of header `t`. */
  function AfterList(g: Graph, done: seq<int>, t: int): Word
    requires Last(g, done, t) >= 0
  {
    if t in g.hd then EndW(g, done, t) else InfixEndW(g, done[..FirstIdx(g, done, t)], Owner(g, t))
  }

  /** From memory `m0`, the cells of the list of `t` numbered above `j` have been made to point to `v`. */
  ghost predicate RevertedAbove(g: Graph, done: seq<int>, t: int, v: int, j: int, m0: seq<Word>, m: seq<Word>) {
    && |m| == |m0| && -1 <= j <= |done|
    && forall a :: 0 <= a < |m| ==>
         m[a] == if Target(g, a) == t && a in done && (exists i :: j < i < |done| && done[i] == a) then Ptr(v)
           else m0[a]
  }

  lemma RevertStart(g: Graph, done: seq<int>, t: int, v: int, m: seq<Word>)
    ensures RevertedAbove(g, done, t, v, Last(g, done, t), m, m)
  {
    forall i | Last(g, done, t) < i < |done| ensures Target(g, done[i]) != t {
      if Target(g, done[i]) == t { LastIsLast(g, done, t, i); }
    }
  }

  lemma RevertStep(g: Graph, done: seq<int>, t: int, v: int, j: nat, m0: seq<Word>, m: seq<Word>)
    requires j < |done| && Cells(g, done) && Target(g, done[j]) == t && |m0| == |g.o|
    requires RevertedAbove(g, done, t, v, j, m0, m)
    ensures m[done[j]] == m0[done[j]]
    ensures RevertedAbove(g, done, t, v, Last(g, done[..j], t), m0, m[done[j] := Ptr(v)])
  {
    var j' := Last(g, done[..j], t);
    assert Cell(g, done[j]);
    forall i | j' < i < j ensures Target(g, done[i]) != t {
      if Target(g, done[i]) == t { LastIsLast(g, done[..j], t, i); }
    }
    var m' := m[done[j] := Ptr(v)];
    forall a | 0 <= a < |m'| && a != done[j] && Target(g, a) == t
      ensures (exists i :: j' < i < |done| && done[i] == a) <==> (exists i :: j < i < |done| && done[i] == a)
    {
    }
  }

  /** Rewrites every cell on the list of header `t` to a pointer to `v`; `q` is the word at the end of the list. */
  method RevertList(mem: array<Word>, t: int, v: int, ghost g: Graph, ghost done: seq<int>) returns (q: Word)
    requires Cells(g, done) && mem.Length == |g.o|
    requires 0 <= t < |g.o| && mem[t] == HeadW(g, done, t) && Last(g, done, t) >= 0
    requires forall i {:trigger CellW(g, done, i)} :: 0 <= i < |done| && Target(g, done[i]) == t ==>
             mem[done[i]] == CellW(g, done, i)
    modifies mem
    ensures forall a :: 0 <= a < mem.Length ==>
              mem[a] == if a in done && Target(g, a) == t then Ptr(v) else old(mem[a])
    ensures q == AfterList(g, done, t)
  {
    ghost var m0 := mem[..];
    q := mem[t];
    ghost var j := Last(g, done, t);
    RevertStart(g, done, t, v, m0);
    while q.Ptr? || q.Inv?
      invariant -1 <= j < |done|
      invariant j >= 0 ==> Target(g, done[j]) == t && q == (if t in g.hd then Ptr(done[j]) else Inv(done[j]))
      invariant j < 0 ==> q == AfterList(g, done, t)
      invariant RevertedAbove(g, done, t, v, j, m0, mem[..])
      decreases j
    {
      RevertStep(g, done, t, v, j, m0, mem[..]);
      AfterCell(g, done, t, j);
      var c := q.adr;
      q := mem[c];
      mem[c] := Ptr(v);
      j := Last(g, done[..j], t);
    }
  }

  /** What cell number `j` of the list of `t` leads to. */
  lemma AfterCell(g: Graph, done: seq<int>, t: int, j: nat)
    requires j < |done| && Target(g, done[j]) == t
    ensures Last(g, done, t) >= j
    ensures var l := Last(g, done[..j], t);
            CellW(g, done, j) == if l < 0 then AfterList(g, done, t) else if t in g.hd then Ptr(done[l])
              else Inv(done[l])
  {
    LastIsLast(g, done, t, j);
    if Last(g, done[..j], t) < 0 {
      FirstIdxUnique(g, done, t, j);
    }
  }

  // ---- The infix lists of a closure, latest started first ------------------------------------

  lemma FirstIdxPrefix(g: Graph, done: seq<int>, n: nat, t: int)
    requires n <= |done|
    ensures FirstIdx(g, done[..n], t) >= 0 ==> FirstIdx(g, done, t) == FirstIdx(g, done[..n], t)
    ensures 0 <= FirstIdx(g, done, t) < n ==> FirstIdx(g, done[..n], t) == FirstIdx(g, done, t)
  {
    var f := FirstIdx(g, done[..n], t);
    if f >= 0 {
      assert done[..n][..f] == done[..f];
      FirstIdxUnique(g, done, t, f);
    }
    var f' := FirstIdx(g, done, t);
    if 0 <= f' < n {
      assert done[..n][..f'] == done[..f'];
      FirstIdxUnique(g, done[..n], t, f');
    }
  }

  /** Of the infix lists of `p`, the most recent one was started last. */
  lemma {:induction false} RecentIsLatest(g: Graph, done: seq<int>, p: int, t: int)
    requires InfixOf(g, p, t) && Last(g, done, t) >= 0
    ensures FirstIdx(g, done, t) <= FirstIdx(g, done, Recent(g, done, p))
    decreases |done|
  {
    var init, c := done[..|done|-1], done[|done|-1];
    assert done == init + [c];
    RecentSnoc(g, init, c, p);
    if InfixOf(g, p, Target(g, c)) && Last(g, init, Target(g, c)) < 0 {
      FirstIdxUnique(g, done, Target(g, c), |init|);
    } else {
      LastSnoc(g, init, c, t);
      RecentIsLatest(g, init, p, t);
      FirstIdxPrefix(g, done, |init|, t);
      FirstIdxPrefix(g, done, |init|, Recent(g, init, p));
    }
  }

  /** The words of the infix lists of `p` are intact. */
  ghost predicate InfixIntact(g: Graph, done: seq<int>, p: int, m: seq<Word>) {
    && |m| == |g.o|
    && (forall a {:trigger HeadW(g, done, a)} :: InfixOf(g, p, a) ==> m[a] == HeadW(g, done, a))
    && (forall i {:trigger CellW(g, done, i)} :: 0 <= i < |done| && InfixOf(g, p, Target(g, done[i])) ==>
          m[done[i]] == CellW(g, done, i))
  }

  /** A word once the infix lists of `p` started after cell `f` are reverted, when `p` moves to `adr`. */
  function InfixRevertedW(g: Graph, done: seq<int>, p: int, adr: int, f: int, w: Word, a: int): Word {
    if a in done && InfixOf(g, p, Target(g, a)) && FirstIdx(g, done, Target(g, a)) > f
      then Ptr(adr + (Target(g, a) - p) + 1)
    else if InfixOf(g, p, a) && FirstIdx(g, done, a) > f then g.o[a]
    else w
  }

  ghost predicate InfixReverted(g: Graph, done: seq<int>, p: int, adr: int, f: int, m0: seq<Word>, m: seq<Word>) {
    && |m| == |m0|
    && forall a :: 0 <= a < |m| ==> m[a] == InfixRevertedW(g, done, p, adr, f, m0[a], a)
  }

  lemma PrefixCells(g: Graph, done: seq<int>, n: nat)
    requires Cells(g, done) && n <= |done|
    ensures Cells(g, done[..n])
  {
  }

  lemma RecentAbove(g: Graph, done: seq<int>, p: int)
    requires Cells(g, done) && 0 <= p && Recent(g, done, p) != -1
    ensures var r := Recent(g, done, p);
            r > p && InfixOf(g, p, r) && GoodTarget(g, r) && FirstIdx(g, done, r) >= 0
  {
    RecentInside(g, done, p);
  }

  /** No infix list was started between the one started by cell `f` and the one it links to. */
  lemma NothingBetween(g: Graph, done: seq<int>, p: int, r: int, t: int)
    requires Cells(g, done) && 0 <= p && InfixOf(g, p, r) && InfixOf(g, p, t)
    requires Last(g, done, r) >= 0 && Last(g, done, t) >= 0 && t != r
    requires FirstIdx(g, done, t) <= FirstIdx(g, done, r)
    ensures var r' := Recent(g, done[..FirstIdx(g, done, r)], p);
            r' > p && FirstIdx(g, done, t) <= FirstIdx(g, done, r') < FirstIdx(g, done, r)
  {
    hide Last, Recent, Cells;
    var f, ft := FirstIdx(g, done, r), FirstIdx(g, done, t);
    var pre := done[..f];
    assert ft < f by { assert IsFirst(g, done, t, ft) && IsFirst(g, done, r, f); }
    hide FirstIdx, IsFirst, GoodTarget;
    FirstIdxPrefix(g, done, f, t);
    RecentIsLatest(g, pre, p, t);
    RecentExists(g, pre, p, Last(g, pre, t));
    PrefixCells(g, done, f);
    RecentAbove(g, pre, p);
    FirstIdxPrefix(g, done, f, Recent(g, pre, p));
  }

  /** When the list of the infix header `r` is done: the lists that remain were started up to this cell. */
  function NextFirst(g: Graph, done: seq<int>, p: int, r: int): int
    requires Last(g, done, r) >= 0
  {
    var r' := Recent(g, done[..FirstIdx(g, done, r)], p);
    if r' > p then FirstIdx(g, done, r') else -1
  }

  lemma InfixOrder(g: Graph, done: seq<int>, p: int, r: int, t: int)
    requires Cells(g, done) && 0 <= p && InfixOf(g, p, r) && Last(g, done, r) >= 0 && InfixOf(g, p, t)
    ensures NextFirst(g, done, p, r) < FirstIdx(g, done, r)
    ensures FirstIdx(g, done, t) > NextFirst(g, done, p, r) <==> t == r || FirstIdx(g, done, t) > FirstIdx(g, done, r)
  {
    hide Cells, Recent, Last, FirstIdx;
    var f := FirstIdx(g, done, r);
    PrefixCells(g, done, f);
    if Recent(g, done[..f], p) > p {
      RecentAbove(g, done[..f], p);
      FirstIdxPrefix(g, done, f, Recent(g, done[..f], p));
    }
    if Last(g, done, t) >= 0 && t != r && FirstIdx(g, done, t) <= f {
      NothingBetween(g, done, p, r, t);
    }
  }

  lemma InfixListStep(g: Graph, done: seq<int>, p: int, adr: int, r: int, m0: seq<Word>, m: seq<Word>, m': seq<Word>)
    requires Cells(g, done) && 0 <= p && InfixOf(g, p, r) && Last(g, done, r) >= 0 && |m0| == |g.o|
    requires InfixReverted(g, done, p, adr, FirstIdx(g, done, r), m0, m)
    requires |m'| == |m| && m'[r] == g.o[r]
    requires forall a :: 0 <= a < |m| && a != r ==>
               m'[a] == if a in done && Target(g, a) == r then Ptr(adr + (r - p) + 1) else m[a]
    ensures InfixReverted(g, done, p, adr, NextFirst(g, done, p, r), m0, m')
  {
    hide Last, FirstIdx, NextFirst, Owner;
    forall a | 0 <= a < |m'|
      ensures m'[a] == InfixRevertedW(g, done, p, adr, NextFirst(g, done, p, r), m0[a], a)
    {
      if a in done {
        assert Cell(g, a);
        if InfixOf(g, p, Target(g, a)) { InfixOrder(g, done, p, r, Target(g, a)); }
        assert !InfixOf(g, p, a);
      } else if InfixOf(g, p, a) {
        InfixOrder(g, done, p, r, a);
      }
    }
  }

  lemma InfixStart(g: Graph, done: seq<int>, p: int, adr: int, m: seq<Word>)
    requires Cells(g, done) && 0 <= p && Recent(g, done, p) > p && |m| == |g.o|
    ensures InfixReverted(g, done, p, adr, FirstIdx(g, done, Recent(g, done, p)), m, m)
  {
    hide Last, FirstIdx, Recent, Owner;
    forall a | 0 <= a < |m|
      ensures InfixRevertedW(g, done, p, adr, FirstIdx(g, done, Recent(g, done, p)), m[a], a) == m[a]
    {
      RecentAbove(g, done, p);
      if InfixOf(g, p, a) && FirstIdx(g, done, a) >= 0 { RecentIsLatest(g, done, p, a); }
      if InfixOf(g, p, Target(g, a)) && FirstIdx(g, done, Target(g, a)) >= 0 {
        RecentIsLatest(g, done, p, Target(g, a));
      }
    }
  }

  /** The list of `r` is untouched until its turn comes. */
  lemma InfixStillIntact(g: Graph, done: seq<int>, p: int, adr: int, r: int, m0: seq<Word>, m: seq<Word>)
    requires Cells(g, done) && InfixIntact(g, done, p, m0) && InfixOf(g, p, r)
    requires InfixReverted(g, done, p, adr, FirstIdx(g, done, r), m0, m)
    ensures m[r] == HeadW(g, done, r)
    ensures forall i {:trigger CellW(g, done, i)} :: 0 <= i < |done| && Target(g, done[i]) == r ==>
            m[done[i]] == CellW(g, done, i)
  {
    hide Last, FirstIdx, HeadW, CellW, Owner;
    assert r !in done;
    assert m0[r] == HeadW(g, done, r);
    forall i | 0 <= i < |done| && Target(g, done[i]) == r ensures m[done[i]] == CellW(g, done, i) {
      assert Cell(g, done[i]);
      assert m0[done[i]] == CellW(g, done, i);
      assert !InfixOf(g, p, done[i]);
    }
  }

  /** Reverts the list of infix header `r` and rebuilds the header. */
  method RevertInfixList(mem: array<Word>, p: int, adr: int, r: int, ghost g: Graph, ghost done: seq<int>,
                         ghost m0: seq<Word>)
    returns (q: Word)
    requires Cells(g, done) && 0 <= p && p in g.hd && InfixIntact(g, done, p, m0) && mem.Length == |g.o|
    requires InfixOf(g, p, r) && GoodTarget(g, r) && Last(g, done, r) >= 0
    requires InfixReverted(g, done, p, adr, FirstIdx(g, done, r), m0, mem[..])
    modifies mem
    ensures InfixReverted(g, done, p, adr, NextFirst(g, done, p, r), m0, mem[..])
    ensures q == InfixEndW(g, done[..FirstIdx(g, done, r)], p)
  {
    hide Last, FirstIdx, InfixReverted, InfixIntact, CellW, HeadW, InfixEndW, Recent, NextFirst;
    ghost var m := mem[..];
    InfixStillIntact(g, done, p, adr, r, m0, m);
    q := RevertList(mem, r, adr + (r - p) + 1, g, done);
    mem[r] := Hd(r - p, INFIX_TAG, White);
    InfixReverted0(g, done, p, adr, FirstIdx(g, done, r), m0, m);
    InfixListStep(g, done, p, adr, r, m0, m, mem[..]);
  }

  lemma InfixReverted0(g: Graph, done: seq<int>, p: int, adr: int, f: int, m0: seq<Word>, m: seq<Word>)
    requires InfixReverted(g, done, p, adr, f, m0, m)
    ensures |m0| == |m|
  {
  }

  /** Reverts the infix lists of the closure at `p`, which moves to `adr`, and rebuilds its infix headers. */
  method RevertInfix(mem: array<Word>, p: int, adr: int, infixes: int, ghost g: Graph, ghost done: seq<int>)
    requires Cells(g, done) && 0 <= p && p in g.hd && mem.Length == |g.o| && InfixIntact(g, done, p, mem[..])
    requires infixes == Recent(g, done, p) > p
    modifies mem
    ensures InfixReverted(g, done, p, adr, -1, old(mem[..]), mem[..])
  {
    ghost var m0 := mem[..];
    InfixStart(g, done, p, adr, m0);
    RecentAbove(g, done, p);
    var w := Link(infixes);
    ghost var f := FirstIdx(g, done, infixes);
    hide Last, FirstIdx, InfixReverted, InfixIntact, Cells, GoodTarget;
    while !w.Ehd?
      invariant if w.Ehd? then f == -1
                else w.Link? && InfixOf(g, p, w.adr) && GoodTarget(g, w.adr) && f >= 0 && f == FirstIdx(g, done, w.adr)
      invariant InfixReverted(g, done, p, adr, f, m0, mem[..])
      decreases f
    {
      ghost var r := w.adr;
      w := RevertInfixList(mem, p, adr, w.adr, g, done, m0);
      PrefixCells(g, done, f);
      if Recent(g, done[..f], p) > p {
        RecentAbove(g, done[..f], p);
        FirstIdxPrefix(g, done, f, Recent(g, done[..f], p));
      }
      InfixOrder(g, done, p, r, r);
      f := NextFirst(g, done, p, r);
    }
  }
}
