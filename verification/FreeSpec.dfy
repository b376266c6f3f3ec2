/** The blocks of the major heap as the free list and the sweeper see them. */
module FreeSpec {
  datatype Color = White | Black | Blue
  datatype Blk = Blk(size: nat, color: Color)

  /** Blocks by header address, in words; `size` does not count the header. */
  type Heap = map<int, Blk>

  /** Heap chunks, from their first word to the word after their last. */
  datatype Chunk = Chunk(lo: int, hi: int)

  function End(h: Heap, a: int): int { if a in h then a + 1 + h[a].size else a }

  ghost predicate IsStart(cs: seq<Chunk>, a: int) { exists c :: c in cs && c.lo == a }
  ghost predicate IsEnd(cs: seq<Chunk>, a: int) { exists c :: c in cs && c.hi == a }

  /** Where a block may start or a chunk may end. */
  ghost predicate Boundary(h: Heap, cs: seq<Chunk>, x: int) { x in h || IsEnd(cs, x) }

  /** The blocks fill the chunks without overlap: every word of a chunk is in exactly one block. */
  ghost predicate Tiled(h: Heap, cs: seq<Chunk>) {
    && (forall a {:trigger a in h} :: a in h ==> a > 0)
    && (forall a {:trigger End(h, a)} :: a in h ==> Boundary(h, cs, End(h, a)))
    && (forall a, b {:trigger End(h, a), End(h, b)} :: a in h && b in h && a < b ==> End(h, a) <= b)
    && (forall c {:trigger c in cs} :: c in cs ==> c.lo in h && c.hi !in h)
  }

  predicate IsFree(b: Blk) { b.color.Blue? || b.size == 0 }

  ghost predicate Sorted(list: seq<int>) {
    forall i, j {:trigger list[i], list[j]} :: 0 <= i < j < |list| ==> list[i] < list[j]
  }

  /** The list holds the blue blocks, in the order of addresses; they have room for a link. */
  ghost predicate Listed(h: Heap, list: seq<int>) {
    && Sorted(list)
    && (forall i {:trigger list[i]} :: 0 <= i < |list| ==>
        list[i] in h && h[list[i]].color.Blue? && h[list[i]].size > 0)
    && (forall a {:trigger h[a]} :: a in h && h[a].color.Blue? ==> Has(list, a))
  }

  ghost predicate Has(list: seq<int>, a: int) { exists i :: 0 <= i < |list| && list[i] == a }

  /** The words of the blocks of a list. */
  function Sum(h: Heap, list: seq<int>): nat {
    if list == [] then 0 else (if list[0] in h then 1 + h[list[0]].size else 0) + Sum(h, list[1..])
  }

  lemma {:induction false} SumAppend(h: Heap, a: seq<int>, b: seq<int>)
    ensures Sum(h, a + b) == Sum(h, a) + Sum(h, b)
  {
    if a == [] {
      assert a + b == b;
    } else {
      assert (a + b)[1..] == a[1..] + b;
      SumAppend(h, a[1..], b);
    }
  }

  lemma {:induction false} SumSame(h: Heap, h': Heap, list: seq<int>)
    requires forall i {:trigger list[i]} :: 0 <= i < |list| ==>
             list[i] in h && list[i] in h' && h'[list[i]].size == h[list[i]].size
    ensures Sum(h', list) == Sum(h, list)
  {
    if list != [] {
      forall i | 0 <= i < |list| - 1
        ensures list[1..][i] in h && list[1..][i] in h' && h'[list[1..][i]].size == h[list[1..][i]].size
      {
        assert list[1..][i] == list[i + 1];
      }
      SumSame(h, h', list[1..]);
    }
  }

  lemma {:induction false} SumAt(h: Heap, list: seq<int>, i: nat)
    requires i < |list| && list[i] in h
    ensures Sum(h, list) == Sum(h, list[..i]) + 1 + h[list[i]].size + Sum(h, list[i+1..])
  {
    assert list == list[..i] + ([list[i]] + list[i+1..]);
    SumAppend(h, list[..i], [list[i]] + list[i+1..]);
    assert ([list[i]] + list[i+1..])[1..] == list[i+1..];
  }

  // ---- Replacing a run of blocks by one ---------------------------------------------------------------------

  /** The blocks from `x` to `y` become one. */
  function Joined(h: Heap, x: int, y: int, c: Color): Heap {
    (map a | a in h && !(x <= a < y) :: h[a])[x := Blk(if y > x then y - x - 1 else 0, c)]
  }

  /** A run of whole blocks: from the start of one to the end of one. */
  ghost predicate Run(h: Heap, cs: seq<Chunk>, x: int, y: int) {
    && x in h && x < y && Boundary(h, cs, y)
    && (forall a {:trigger End(h, a)} :: a in h && x <= a < y ==> End(h, a) <= y)
    && (forall c {:trigger c in cs} :: c in cs ==> !(x < c.lo <= y) && !(x < c.hi < y))
  }

  lemma JoinedTiled(h: Heap, cs: seq<Chunk>, x: int, y: int, c: Color)
    requires Tiled(h, cs) && Run(h, cs, x, y)
    ensures Tiled(Joined(h, x, y, c), cs)
  {
    var h' := Joined(h, x, y, c);
    assert forall a :: a in h' <==> (a in h && !(x <= a < y)) || a == x;
    assert End(h', x) == y;
    forall a | a in h' ensures Boundary(h', cs, End(h', a)) {
      if a != x {
        assert End(h', a) == End(h, a);
        assert a < x ==> End(h, a) <= x by { assert End(h, x) >= x; }
        assert Boundary(h, cs, End(h, a));
      }
    }
    forall a, b | a in h' && b in h' && a < b ensures End(h', a) <= b {
      assert a != x ==> End(h', a) == End(h, a);
      assert End(h, a) >= a && End(h, b) >= b;
    }
  }

  /** A block with its neighbour. */
  lemma RunOne(h: Heap, cs: seq<Chunk>, x: int)
    requires Tiled(h, cs) && Separate(h, cs) && x in h
    ensures Run(h, cs, x, End(h, x))
  {
    assert Boundary(h, cs, End(h, x));
    forall c | c in cs ensures !(x < c.lo <= End(h, x)) && !(x < c.hi < End(h, x)) {
      assert End(h, c.lo) >= c.lo;
    }
  }

  /** No chunk ends inside a block, or starts just after one. */
  ghost predicate Separate(h: Heap, cs: seq<Chunk>) {
    forall c, a {:trigger c in cs, End(h, a)} :: c in cs && a in h ==> !(a < c.hi < End(h, a)) && End(h, a) != c.lo
  }

  lemma RunTwo(h: Heap, cs: seq<Chunk>, x: int, y: int, z: int)
    requires Tiled(h, cs) && Run(h, cs, x, y) && Run(h, cs, y, z)
    ensures Run(h, cs, x, z)
  {
    forall c | c in cs ensures !(x < c.lo <= z) && !(x < c.hi < z) { }
  }

  lemma JoinedSeparate(h: Heap, cs: seq<Chunk>, x: int, y: int, c: Color)
    requires Tiled(h, cs) && Separate(h, cs) && Run(h, cs, x, y)
    ensures Separate(Joined(h, x, y, c), cs)
  {
    var h' := Joined(h, x, y, c);
    forall d, a | d in cs && a in h' ensures !(a < d.hi < End(h', a)) && End(h', a) != d.lo {
      if a != x { assert End(h', a) == End(h, a); }
    }
  }

  // ---- Positions in the list ----------------------------------------------------------------------------------

  /** The node before position `k`; zero stands for the head of the list. */
  function At(list: seq<int>, k: int): int { if 0 < k <= |list| then list[k - 1] else 0 }

  /** The position after node `a`. */
  function Pos(list: seq<int>, a: int): (k: nat)
    ensures k <= |list|
  {
    if list == [] then 0 else if list[|list| - 1] == a then |list| else Pos(list[..|list| - 1], a)
  }

  lemma {:induction false} PosAt(list: seq<int>, k: nat)
    requires Sorted(list) && k <= |list| && (|list| > 0 ==> list[0] > 0)
    ensures Pos(list, At(list, k)) == k
  {
    if list != [] {
      var n := |list| - 1;
      assert k > 0 ==> list[0] <= list[k - 1];
      if k <= n {
        assert n > 0 ==> list[..n][0] == list[0];
        assert k > 0 ==> list[k - 1] < list[n];
        assert list[0] <= list[n];
        PosAt(list[..n], k);
      }
    }
  }

  /** Exactly the first `k` nodes are below `x`. */
  ghost predicate Cut(list: seq<int>, k: int, x: int) {
    && 0 <= k <= |list|
    && (forall i {:trigger list[i]} :: 0 <= i < k ==> list[i] < x)
    && (forall i {:trigger list[i]} :: k <= i < |list| ==> list[i] >= x)
  }

  /** `m` is the last node below `x`. */
  ghost predicate LastBelow(list: seq<int>, m: int, x: int) {
    exists k :: Cut(list, k, x) && m == At(list, k)
  }

  // ---- The state of a sweep -----------------------------------------------------------------------------------

  /** Below `x`, no two free blocks are neighbours. */
  ghost predicate Coalesced(h: Heap, x: int) {
    forall a {:trigger End(h, a)} :: a in h && End(h, a) in h && End(h, a) < x ==>
      !(IsFree(h[a]) && IsFree(h[End(h, a)]))
  }

  ghost predicate Whitened(h: Heap, x: int) {
    forall a {:trigger h[a]} :: a in h && a < x ==> !h[a].color.Black?
  }

  /** `frag` is the fragment that ends at `x`, if there is one. */
  ghost predicate FragmentAt(h: Heap, x: int, frag: int) {
    && frag < x
    && (frag + 1 == x ==> frag in h && h[frag].size == 0)
    && (forall a {:trigger End(h, a)} :: a in h && h[a].size == 0 && End(h, a) == x && x in h ==> a == frag)
  }

  /** A free block that ends at `x` is not followed by a free block of the list. */
  ghost predicate Clear(h: Heap, x: int) {
    forall a {:trigger End(h, a)} :: a in h && End(h, a) == x && x in h && IsFree(h[a]) ==> !h[x].color.Blue?
  }

  /** Two blocks of the list are never neighbours, and blocks in use have a field. */
  ghost predicate Spread(h: Heap) {
    && (forall a {:trigger End(h, a)} :: a in h && End(h, a) in h ==> !(h[a].color.Blue? && h[End(h, a)].color.Blue?))
    && (forall a {:trigger h[a]} :: a in h && h[a].color.Black? ==> h[a].size > 0)
  }

  ghost predicate SweepOk(h: Heap, cs: seq<Chunk>, list: seq<int>, merge: int, x: int, frag: int) {
    Boundary(h, cs, x) && LastBelow(list, merge, x) && Coalesced(h, x) && Whitened(h, x) && FragmentAt(h, x, frag) &&
      Clear(h, x)
  }

  // ---- Allocation: splitting a free block -------------------------------------------------------------------------

  /** The end of free block `c`, from `r` on, becomes a block. */
  function Split(h: Heap, c: int, r: int, color: Color): Heap
    requires c in h && c <= r < End(h, c)
  {
    var rest := h[r := Blk(End(h, c) - r - 1, color)];
    if r == c then rest else rest[c := Blk(r - c - 1, if r > c + 1 then Blue else White)]
  }

  ghost predicate SplitFacts(h: Heap, c: int, r: int, h': Heap) {
    && c in h && c <= r < End(h, c)
    && (forall a {:trigger a in h'} :: a in h' <==> a in h || a == r)
    && End(h', r) == End(h, c) && (r != c ==> End(h', c) == r)
    && (forall a {:trigger End(h', a)} :: a in h && a != c ==> End(h', a) == End(h, a) && h'[a] == h[a])
    && (forall a {:trigger a in h'} :: a in h && a > c ==> a >= End(h, c))
  }

  lemma SplitEnds(h: Heap, cs: seq<Chunk>, c: int, r: int, color: Color)
    requires Tiled(h, cs) && c in h && c <= r < End(h, c)
    ensures SplitFacts(h, c, r, Split(h, c, r, color))
  {
    forall a | a in h && a > c ensures a >= End(h, c) { assert End(h, a) >= a; }
  }

  lemma SplitOrder(h: Heap, cs: seq<Chunk>, c: int, r: int, h': Heap, a: int, b: int)
    requires Tiled(h, cs) && SplitFacts(h, c, r, h') && a in h' && b in h' && a < b
    ensures End(h', a) <= b
  {
    assert End(h, a) >= a && End(h, b) >= b;
  }

  lemma SplitBoundary(h: Heap, cs: seq<Chunk>, c: int, r: int, h': Heap, a: int)
    requires Tiled(h, cs) && SplitFacts(h, c, r, h') && a in h'
    ensures Boundary(h', cs, End(h', a))
  {
    assert Boundary(h, cs, End(h, c));
    assert a in h ==> Boundary(h, cs, End(h, a));
  }

  lemma SplitChunk(h: Heap, cs: seq<Chunk>, c: int, r: int, h': Heap, d: Chunk)
    requires Tiled(h, cs) && Separate(h, cs) && SplitFacts(h, c, r, h') && d in cs
    ensures d.lo in h' && d.hi !in h'
    ensures forall a {:trigger End(h', a)} :: a in h' ==> !(a < d.hi < End(h', a)) && End(h', a) != d.lo
  {
    assert !(c < d.hi < End(h, c)) && End(h, c) != d.lo;
    assert End(h, d.lo) >= d.lo;
    forall a | a in h' ensures !(a < d.hi < End(h', a)) && End(h', a) != d.lo {
      assert a in h ==> End(h, a) != d.lo;
    }
  }

  lemma SplitTiled(h: Heap, cs: seq<Chunk>, c: int, r: int, color: Color)
    requires Tiled(h, cs) && Separate(h, cs) && c in h && c <= r < End(h, c)
    ensures Tiled(Split(h, c, r, color), cs) && Separate(Split(h, c, r, color), cs)
  {
    hide Split, Boundary;
    SplitEnds(h, cs, c, r, color);
    var h' := Split(h, c, r, color);
    forall a, b | a in h' && b in h' && a < b ensures End(h', a) <= b { SplitOrder(h, cs, c, r, h', a, b); }
    forall a | a in h' ensures Boundary(h', cs, End(h', a)) { SplitBoundary(h, cs, c, r, h', a); }
    forall d | d in cs
      ensures d.lo in h' && d.hi !in h' && forall a {:trigger End(h', a)} :: a in h' ==>
              !(a < d.hi < End(h', a)) && End(h', a) != d.lo
    {
      SplitChunk(h, cs, c, r, h', d);
    }
  }

  // ---- Blocks and chunks --------------------------------------------------------------------------------------

  ghost predicate InChunk(cs: seq<Chunk>, a: int) { exists c :: c in cs && c.lo <= a < c.hi }

  /** Every block lies in a chunk, and chunks are apart from each other. */
  ghost predicate Housed(h: Heap, cs: seq<Chunk>) {
    && (forall a {:trigger InChunk(cs, a)} :: a in h ==> InChunk(cs, a))
    && (forall c {:trigger c in cs} :: c in cs ==> c.lo < c.hi)
    && (forall c, d {:trigger c in cs, d in cs} :: c in cs && d in cs && c != d ==> c.hi < d.lo || d.hi < c.lo)
  }

  ghost predicate Distinct(cs: seq<Chunk>) {
    forall i, j {:trigger cs[i], cs[j]} :: 0 <= i < j < |cs| ==> cs[i] != cs[j]
  }

  lemma JoinedHoused(h: Heap, cs: seq<Chunk>, x: int, y: int, c: Color)
    requires Housed(h, cs) && x in h
    ensures Housed(Joined(h, x, y, c), cs)
  {
  }

  lemma SplitHoused(h: Heap, cs: seq<Chunk>, c: int, r: int, color: Color)
    requires Separate(h, cs) && Housed(h, cs) && c in h && c <= r < End(h, c)
    ensures Housed(Split(h, c, r, color), cs)
  {
    var h' := Split(h, c, r, color);
    assert forall a :: a in h' ==> a in h || a == r;
    assert InChunk(cs, c);
    var d :| d in cs && d.lo <= c < d.hi;
    assert r < d.hi by { assert !(c < d.hi < End(h, c)); }
    assert InChunk(cs, r);
    hide InChunk;
  }
}
