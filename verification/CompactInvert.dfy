/** Pointer inversion: `invert_pointer_at` and the walks along inverted lists. */
module CompactInvert {
  import opened HeapWords
  import opened CompactSpec

  /** Inverting `c` starts the list of an infix header of block `p`. */
  ghost predicate Starts(g: Graph, done: seq<int>, c: int, p: int) {
    InfixOf(g, p, Target(g, c)) && Last(g, done, Target(g, c)) < 0
  }

  lemma HeadStep(g: Graph, done: seq<int>, c: int, a: int)
    requires 0 <= a < |g.o| && a != Target(g, c)
    ensures a in g.hd && Starts(g, done, c, a) && Last(g, done, a) < 0 ==>
              HeadW(g, done + [c], a) == EndW(g, done + [c], a)
    ensures !(a in g.hd && Starts(g, done, c, a) && Last(g, done, a) < 0) ==>
              HeadW(g, done + [c], a) == HeadW(g, done, a)
  {
    LastSnoc(g, done, c, a);
    RecentSnoc(g, done, c, a);
  }

  lemma CellStep(g: Graph, done: seq<int>, c: int, i: nat)
    requires i < |done|
    ensures var p := Target(g, done[i]);
            if p in g.hd && Starts(g, done, c, p) && Last(g, done[..i], p) < 0
            then CellW(g, done + [c], i) == EndW(g, done + [c], p)
            else CellW(g, done + [c], i) == CellW(g, done, i)
  {
    assert (done + [c])[..i] == done[..i];
    RecentSnoc(g, done, c, Target(g, done[i]));
  }

  lemma NewCell(g: Graph, done: seq<int>, c: int)
    ensures var t := Target(g, c);
            CellW(g, done + [c], |done|) ==
            if Last(g, done, t) >= 0 then (if t in g.hd then Ptr(done[Last(g, done, t)])
                                           else Inv(done[Last(g, done, t)]))
            else if t in g.hd then EndW(g, done + [c], t)
            else InfixEndW(g, done, Owner(g, t))
  {
    assert (done + [c])[..|done|] == done;
  }

  lemma NewHead(g: Graph, done: seq<int>, c: int)
    requires 0 <= Target(g, c) < |g.o|
    ensures HeadW(g, done + [c], Target(g, c)) == if Target(g, c) in g.hd then Ptr(c) else Inv(c)
  {
    LastSnoc(g, done, c, Target(g, c));
  }

  lemma CellsSnoc(g: Graph, done: seq<int>, c: int)
    requires Cells(g, done) && Cell(g, c) && c !in done
    ensures Cells(g, done + [c])
  {
  }

  /** Only one place holds the end of the inverted list of `p`. */
  lemma EndUnique(g: Graph, done: seq<int>, p: int, i: nat, j: nat)
    requires i < |done| && j < |done| && Target(g, done[i]) == p && Target(g, done[j]) == p
    requires Last(g, done[..i], p) < 0 && Last(g, done[..j], p) < 0
    ensures i == j
  {
    if i < j {
      LastIsLast(g, done[..j], p, i);
    } else if j < i {
      LastIsLast(g, done[..i], p, j);
    }
  }

  /** Inserting a cell into a list that is not a new infix list. */
  lemma InsertKeepsThreaded(g: Graph, done: seq<int>, m: seq<Word>, c: int, m': seq<Word>)
    requires Threaded(g, done, m) && Cell(g, c) && c !in done
    requires Target(g, c) in g.hd || Last(g, done, Target(g, c)) >= 0
    requires m' == m[c := m[Target(g, c)]][Target(g, c) := if Target(g, c) in g.hd then Ptr(c) else Inv(c)]
    ensures Threaded(g, done + [c], m')
  {
    var t, done' := Target(g, c), done + [c];
    CellsSnoc(g, done, c);
    assert t !in done by { assert g.o[t].Hd?; }
    assert g.o[c].Ptr?;
    forall a | 0 <= a < |m'| && a !in done' ensures m'[a] == HeadW(g, done', a) {
      if a == t {
        NewHead(g, done, c);
      } else {
        HeadStep(g, done, c, a);
        assert a !in done;
      }
    }
    forall i | 0 <= i < |done'| ensures m'[done'[i]] == CellW(g, done', i) {
      if i < |done| {
        CellStep(g, done, c, i);
        assert done[i] != c && done[i] != t;
      } else {
        NewCell(g, done, c);
        RecentSnoc(g, done, c, t);
        assert m[t] == HeadW(g, done, t);
      }
    }
  }

  /** `e` is where the inverted list of block `p` ends. */
  ghost predicate IsEnd(g: Graph, done: seq<int>, p: int, e: int) {
    || (e == p && Last(g, done, p) < 0)
    || (exists j :: 0 <= j < |done| && done[j] == e && Target(g, done[j]) == p && Last(g, done[..j], p) < 0)
  }

  /** Starting the list of an infix header: the end of the block's own list now leads to it. */
  lemma StartKeepsThreaded(g: Graph, done: seq<int>, m: seq<Word>, c: int, e: int, m': seq<Word>)
    requires Threaded(g, done, m) && Headers(g) && Cell(g, c) && c !in done
    requires var t := Target(g, c); var p := Owner(g, t);
             && Starts(g, done, c, p) && IsEnd(g, done, p, e) && 0 <= e < |m|
             && m' == m[c := InfixEndW(g, done, p)][t := Inv(c)][e := Ehd(t - p - 1, INFIX_TAG)]
    ensures Threaded(g, done + [c], m')
  {
    var t, done' := Target(g, c), done + [c];
    var p := Owner(g, t);
    CellsSnoc(g, done, c);
    assert t !in done && p !in done by { assert g.o[t].Hd? && g.o[p].Hd?; }
    assert g.o[c].Ptr?;
    assert EndW(g, done', p) == Ehd(t - p - 1, INFIX_TAG) by { RecentSnoc(g, done, c, p); }
    assert e != c && e != t;
    forall a | 0 <= a < |m'| && a !in done' ensures m'[a] == HeadW(g, done', a) {
      StartHead(g, done, m, c, e, a);
    }
    forall i | 0 <= i < |done'| ensures m'[done'[i]] == CellW(g, done', i) {
      if i < |done| {
        StartCell(g, done, m, c, e, i);
      } else {
        NewCell(g, done, c);
      }
    }
  }

  lemma StartHead(g: Graph, done: seq<int>, m: seq<Word>, c: int, e: int, a: int)
    requires Threaded(g, done, m) && Cell(g, c) && c !in done
    requires var p := Owner(g, Target(g, c));
             Starts(g, done, c, p) && IsEnd(g, done, p, e)
    requires 0 <= a < |m| && a !in done && a != c
    ensures HeadW(g, done + [c], a) ==
            if a == e then EndW(g, done + [c], Owner(g, Target(g, c)))
            else if a == Target(g, c) then Inv(c) else m[a]
  {
    if a == Target(g, c) {
      NewHead(g, done, c);
    } else {
      HeadStep(g, done, c, a);
      assert m[a] == HeadW(g, done, a);
      var p := Owner(g, Target(g, c));
      if e != p {
        var j :| 0 <= j < |done| && done[j] == e && Target(g, done[j]) == p && Last(g, done[..j], p) < 0;
        LastIsLast(g, done, p, j);
      }
    }
  }

  lemma StartCell(g: Graph, done: seq<int>, m: seq<Word>, c: int, e: int, i: nat)
    requires Threaded(g, done, m) && Headers(g) && Cell(g, c) && c !in done
    requires var p := Owner(g, Target(g, c));
             Starts(g, done, c, p) && IsEnd(g, done, p, e)
    requires i < |done|
    ensures done[i] != c && done[i] != Target(g, c)
    ensures CellW(g, done + [c], i) ==
            if done[i] == e then EndW(g, done + [c], Owner(g, Target(g, c))) else m[done[i]]
  {
    var p := Owner(g, Target(g, c));
    CellStep(g, done, c, i);
    assert Cell(g, done[i]);
    assert g.o[p].Hd? && g.o[Target(g, c)].Hd?;
    if Target(g, done[i]) == p && Last(g, done[..i], p) < 0 {
      assert Last(g, done, p) >= 0 by { LastIsLast(g, done, p, i); }
      var j :| 0 <= j < |done| && done[j] == e && Target(g, done[j]) == p && Last(g, done[..j], p) < 0;
      EndUnique(g, done, p, i, j);
    }
  }

  /** The inverted lists of block `p` and of its infix headers are intact in memory `m`. */
  ghost predicate ListsOf(g: Graph, done: seq<int>, p: int, m: seq<Word>) {
    && Cells(g, done) && |m| == |g.o|
    && (forall a {:trigger HeadW(g, done, a)} :: 0 <= a < |m| && a !in done && Owner(g, a) == p ==>
        m[a] == HeadW(g, done, a))
    && (forall i {:trigger CellW(g, done, i)} :: 0 <= i < |done| && Owner(g, Target(g, done[i])) == p ==>
          m[done[i]] == CellW(g, done, i))
  }

  lemma ThreadedLists(g: Graph, done: seq<int>, p: int, m: seq<Word>)
    requires Threaded(g, done, m)
    ensures ListsOf(g, done, p, m)
  {
  }

  /** Follows the inverted list of block `p` to its end. */
  method FindEnd(mem: array<Word>, p: int, ghost g: Graph, ghost done: seq<int>) returns (e: int)
    requires ListsOf(g, done, p, mem[..]) && Headers(g) && p in g.hd
    ensures 0 <= e < mem.Length && mem[e] == EndW(g, done, p) && IsEnd(g, done, p, e)
  {
    e := p;
    ghost var j := |done|;
    assert p !in done by { assert g.o[p].Hd?; }
    assert mem[..][p] == HeadW(g, done, p);
    while mem[e].Ptr?
      invariant 0 <= e < mem.Length && 0 <= j <= |done|
      invariant j == |done| ==> e == p && mem[e] == HeadW(g, done, p)
      invariant j < |done| ==> e == done[j] && Target(g, done[j]) == p && mem[e] == CellW(g, done, j)
      decreases j
    {
      if j < |done| {
        j := Last(g, done[..j], p);
      } else {
        j := Last(g, done, p);
      }
      e := mem[e].adr;
      assert Cell(g, done[j]) && mem[..][done[j]] == CellW(g, done, j);
    }
  }

  /** The header word of a target tells which list, if any, hangs from it. */
  lemma HeadKinds(g: Graph, done: seq<int>, c: int)
    requires Cell(g, c)
    ensures var t := Target(g, c);
            && (t in g.hd ==> HeadW(g, done, t).Ptr? || HeadW(g, done, t).Ehd?)
            && (t !in g.hd && Last(g, done, t) >= 0 ==> HeadW(g, done, t).Inv?)
            && (t !in g.hd && Last(g, done, t) < 0 ==> HeadW(g, done, t) == g.o[t])
  {
  }

  /** The end of the inverted list of a closure says where its infix lists start. */
  lemma EndKinds(g: Graph, done: seq<int>, c: int)
    requires Cells(g, done) && Cell(g, c) && Target(g, c) !in g.hd
    ensures var p := Owner(g, Target(g, c)); var w := EndW(g, done, p);
            && p in g.hd && p < Target(g, c) && p == Target(g, c) - g.o[Target(g, c)].size
            && w.Ehd?
            && InfixEndW(g, done, p) == (if w.tag == CLOSURE_TAG then w else Link(p + 1 + w.size))
  {
  }

  /** First pointer found to an infix header: starts its list. */
  method StartInfix(mem: array<Word>, c: int, ghost g: Graph, ghost done: seq<int>)
    requires Threaded(g, done, mem[..]) && Headers(g) && Cell(g, c) && c !in done
    requires Starts(g, done, c, Owner(g, Target(g, c)))
    requires mem[c] == g.o[c] && mem[Target(g, c)] == g.o[Target(g, c)]
    modifies mem
    ensures Threaded(g, done + [c], mem[..])
  {
    ghost var m := mem[..];
    EndKinds(g, done, c);
    var q := mem[c].adr;
    var size := mem[q - 1].size;
    var hp := FindEnd(mem, q - size - 1, g, done);
    var w := mem[hp];
    mem[c] := if w.tag == CLOSURE_TAG then w else Link(q - size + w.size);
    mem[q - 1] := Inv(c);
    mem[hp] := Ehd(size - 1, INFIX_TAG);
    StartKeepsThreaded(g, done, m, c, hp, mem[..]);
  }

  /**
   * `invert_pointer_at` on the word `c`.  A pointer to a block joins the block's inverted list;
   * a pointer to an infix header joins that header's list, which is started, and chained to the
   * other infix lists of the closure, when it is the first one.
   */
  method InvertPointerAt(mem: array<Word>, chunks: seq<Chunk>, c: int, ghost g: Graph, ghost done: seq<int>)
    returns (ghost done': seq<int>)
    requires Threaded(g, done, mem[..]) && Headers(g)
    requires 0 <= c < mem.Length && c !in g.hd && c !in done
    requires g.o[c].Ptr? && InHeap(chunks, g.o[c].adr) ==> Cell(g, c)
    modifies mem
    ensures done' == if g.o[c].Ptr? && InHeap(chunks, g.o[c].adr) then done + [c] else done
    ensures Threaded(g, done', mem[..])
  {
    done' := done;
    var q := mem[c];
    assert mem[..][c] == HeadW(g, done, c);
    assert Last(g, done, c) >= 0 ==> Cell(g, done[Last(g, done, c)]);
    if q.Ptr? && InHeap(chunks, q.adr) {
      ghost var m := mem[..];
      var t := q.adr - 1;
      done' := done + [c];
      assert t !in done by { assert g.o[t].Hd?; }
      assert mem[..][t] == HeadW(g, done, t);
      HeadKinds(g, done, c);
      var h := mem[t];
      if h.Hd? {
        StartInfix(mem, c, g, done);
      } else {
        mem[c] := h;
        mem[t] := if h.Inv? then Inv(c) else Ptr(c);
        InsertKeepsThreaded(g, done, m, c, mem[..]);
      }
    }
  }

  /** The list of header `t` was started by cell number `f`. */
  ghost predicate IsFirst(g: Graph, done: seq<int>, t: int, f: int) {
    0 <= f < |done| && Target(g, done[f]) == t && Last(g, done[..f], t) < 0
  }

  lemma {:induction false} FirstExists(g: Graph, done: seq<int>, t: int, l: nat) returns (f: int)
    requires l < |done| && Target(g, done[l]) == t
    ensures IsFirst(g, done, t, f) && f <= l
    decreases l
  {
    var l' := Last(g, done[..l], t);
    if l' < 0 {
      f := l;
    } else {
      f := FirstExists(g, done, t, l');
    }
  }

  /** A position on the infix lists of block `p`: at cell `i`, or about to enter a list when `i == |done|`. */
  ghost predicate OnInfixList(g: Graph, done: seq<int>, p: int, q: Word, f: int, i: int) {
    if q.Inv? then
      0 <= i < |done| && q == Inv(done[i]) && InfixOf(g, p, Target(g, done[i])) &&
        IsFirst(g, done, Target(g, done[i]), f)
    else if q.Link? then
      i == |done| && InfixOf(g, p, q.adr) && Last(g, done, q.adr) >= 0 && IsFirst(g, done, q.adr, f)
    else
      q == Encoded(g, p)
  }

  /** One step along the infix lists, read in an intact memory. */
  lemma InfixStep(g: Graph, done: seq<int>, p: int, q: Word, f: int, i: int) returns (f': int, i': int)
    requires Cells(g, done) && p in g.hd && 0 <= p && OnInfixList(g, done, p, q, f, i) && (q.Inv? || q.Link?)
    ensures q.Inv? ==> OnInfixList(g, done, p, CellW(g, done, i), f', i')
    ensures q.Link? ==> 0 <= q.adr < |g.o| && OnInfixList(g, done, p, HeadW(g, done, q.adr), f', i')
    ensures q.Link? || CellW(g, done, i).Inv? ==> f' == f && i' < i
    ensures (f' == f && i' < i) || (q.Inv? && CellW(g, done, i).Link? && 0 <= f' < f)
    ensures 0 <= f && 0 <= i
  {
    if q.Link? {
      f', i' := f, Last(g, done, q.adr);
    } else {
      var t := Target(g, done[i]);
      var l := Last(g, done[..i], t);
      f', i' := f, l;
      if l < 0 {
        EndUnique(g, done, t, i, f);
        var r := Recent(g, done[..i], p);
        if r > p {
          i' := |done|;
          assert Cells(g, done[..i]);
          RecentInside(g, done[..i], p);
          f' := FirstExists(g, done[..i], r, Last(g, done[..i], r));
          assert done[..i][..f'] == done[..f'];
          LastIsLast(g, done, r, f');
        }
      }
    }
  }

  /** Where the infix lists of block `p` are entered. */
  lemma InfixEntry(g: Graph, done: seq<int>, p: int) returns (f: int)
    requires Cells(g, done) && Recent(g, done, p) > p && p in g.hd && 0 <= p
    ensures OnInfixList(g, done, p, Link(Recent(g, done, p)), f, |done|)
  {
    RecentInside(g, done, p);
    f := FirstExists(g, done, Recent(g, done, p), Last(g, done, Recent(g, done, p)));
  }

  /**
   * Recovers the encoded header of block `p` from behind its inverted lists.
   * `infixes` is the first infix header with a list, or -1.
   */
  method OriginalHeader(mem: array<Word>, p: int, ghost g: Graph, ghost done: seq<int>) returns (q: Word, infixes: int)
    requires ListsOf(g, done, p, mem[..]) && Headers(g) && p in g.hd && 0 <= p
    ensures q == Encoded(g, p)
    ensures infixes == if Recent(g, done, p) > p then Recent(g, done, p) else -1
  {
    var e := FindEnd(mem, p, g, done);
    q, infixes := mem[e], -1;
    if q.tag == INFIX_TAG {
      infixes := p + 1 + q.size;
      ghost var f := InfixEntry(g, done, p);
      ghost var i := |done|;
      q := Link(infixes);
      while !q.Ehd?
        invariant OnInfixList(g, done, p, q, f, i)
        decreases f, i
      {
        ghost var f', i' := InfixStep(g, done, p, q, f, i);
        if q.Link? { assert g.o[q.adr].Hd?; }
        f, i := f', i';
        q := mem[q.adr];
      }
    }
  }
}
