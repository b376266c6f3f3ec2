/** Adding a heap chunk to the free list. */
module FreeAdd {
  import opened FreeSpec

  /** A new chunk, apart from the others. */
  predicate Apart(h: Heap, cs: seq<Chunk>, b: int, size: nat) {
    && b > 0 && size > 0
    && (forall a {:trigger a in h} :: a in h ==> End(h, a) < b || b + 1 + size < a)
    && (forall c {:trigger c in cs} :: c in cs ==> c.hi < b || b + 1 + size < c.lo)
    && (forall c {:trigger c in cs} :: c in cs ==> c.lo < c.hi)
  }

  function Added(h: Heap, b: int, size: nat): Heap { h[b := Blk(size, Blue)] }

  lemma AddTiled(h: Heap, cs: seq<Chunk>, b: int, size: nat, cs': seq<Chunk>)
    requires Tiled(h, cs) && Separate(h, cs) && Apart(h, cs, b, size) && cs' == cs + [Chunk(b, b + 1 + size)]
    ensures Tiled(Added(h, b, size), cs') && Separate(Added(h, b, size), cs')
  {
    var h' := Added(h, b, size);
    var n := Chunk(b, b + 1 + size);
    assert n in cs' && forall c :: c in cs ==> c in cs';
    assert forall a {:trigger End(h', a)} :: a in h && a != b ==> End(h', a) == End(h, a);
    forall a | a in h' ensures Boundary(h', cs', End(h', a)) {
      if a != b { assert Boundary(h, cs, End(h, a)); }
    }
    forall c | c in cs' ensures c.lo in h' && c.hi !in h' { }
    forall c, a | c in cs' && a in h' ensures !(a < c.hi < End(h', a)) && End(h', a) != c.lo {
      if c in cs && a != b { assert !(a < c.hi < End(h, a)) && End(h, a) != c.lo; }
    }
  }

  lemma InsertHas(list: seq<int>, j: nat, b: int, a: int)
    requires j <= |list|
    ensures Has(list[..j] + [b] + list[j..], b) && (Has(list, a) ==> Has(list[..j] + [b] + list[j..], a))
  {
    var l := list[..j] + [b] + list[j..];
    assert l[j] == b;
    if Has(list, a) {
      var i :| 0 <= i < |list| && list[i] == a;
      assert l[if i < j then i else i + 1] == a;
    }
  }

  lemma InsertAt(list: seq<int>, j: nat, b: int, i: nat)
    requires j <= |list| && i <= |list|
    ensures (list[..j] + [b] + list[j..])[i] == if i < j then list[i] else if i == j then b else list[i - 1]
  {
  }

  lemma InsertSorted(list: seq<int>, j: nat, b: int)
    requires Sorted(list) && Cut(list, j, b) && !Has(list, b)
    ensures Sorted(list[..j] + [b] + list[j..])
  {
    var l := list[..j] + [b] + list[j..];
    forall i, k {:trigger l[i], l[k]} | 0 <= i < k < |l|
      ensures l[i] < l[k]
    {
      InsertAt(list, j, b, i);
      InsertAt(list, j, b, k);
    }
  }

  lemma AddListed(h: Heap, cs: seq<Chunk>, list: seq<int>, j: nat, b: int, size: nat)
    requires Listed(h, list) && Apart(h, cs, b, size) && j <= |list| && Cut(list, j, b)
    ensures Listed(Added(h, b, size), list[..j] + [b] + list[j..])
  {
    hide Sorted, Cut;
    var h', l := Added(h, b, size), list[..j] + [b] + list[j..];
    assert b !in h;
    InsertSorted(list, j, b);
    forall i {:trigger l[i]} | 0 <= i < |l|
      ensures l[i] in h' && h'[l[i]].color.Blue? && h'[l[i]].size > 0
    {
      InsertAt(list, j, b, i);
    }
    forall a | a in h' && h'[a].color.Blue? ensures Has(l, a) {
      InsertHas(list, j, b, a);
      assert a == b || h[a].color.Blue?;
    }
  }

  lemma AddSum(h: Heap, cs: seq<Chunk>, list: seq<int>, j: nat, b: int, size: nat)
    requires Listed(h, list) && Apart(h, cs, b, size) && j <= |list|
    ensures Sum(Added(h, b, size), list[..j] + [b] + list[j..]) == Sum(h, list) + 1 + size
  {
    hide Sum;
    var h', l := Added(h, b, size), list[..j] + [b] + list[j..];
    assert b !in h;
    SumAt(h', l, j);
    assert l[..j] == list[..j] && l[j + 1..] == list[j..] && list == list[..j] + list[j..];
    SumAppend(h, list[..j], list[j..]);
    SumSame(h, h', list[..j]);
    SumTail(h, h', list, j);
  }

  lemma SumTail(h: Heap, h': Heap, list: seq<int>, j: nat)
    requires j <= |list| && forall i {:trigger list[i]} :: 0 <= i < |list| ==>
             list[i] in h && list[i] in h' && h'[list[i]].size == h[list[i]].size
    ensures Sum(h', list[j..]) == Sum(h, list[j..])
  {
    var tail := list[j..];
    forall i | 0 <= i < |tail|
      ensures tail[i] in h && tail[i] in h' && h'[tail[i]].size == h[tail[i]].size
    {
      assert tail[i] == list[j + i];
    }
    SumSame(h, h', tail);
  }

  lemma AddSweep(h: Heap, cs: seq<Chunk>, b: int, size: nat, cs': seq<Chunk>, x: int, frag: int)
    requires Tiled(h, cs) && Apart(h, cs, b, size) && cs' == cs + [Chunk(b, b + 1 + size)]
    requires Boundary(h, cs, x) && Coalesced(h, x) && Whitened(h, x) && FragmentAt(h, x, frag) && Clear(h, x) &&
             Spread(h)
    ensures var h' := Added(h, b, size);
            Boundary(h', cs', x) && Coalesced(h', x) && Whitened(h', x) && FragmentAt(h', x, frag) && Clear(h', x)
  {
    var h' := Added(h, b, size);
    assert forall c :: c in cs ==> c in cs';
    assert forall a {:trigger End(h', a)} :: a in h && a != b ==> End(h', a) == End(h, a) && h'[a] == h[a];
    assert b !in h && b + 1 + size !in h;
    forall a | a in h' && End(h', a) in h' && End(h', a) < x ensures !(IsFree(h'[a]) && IsFree(h'[End(h', a)])) {
      if a != b { assert End(h, a) != b; }
    }
    forall a | a in h' && a < x ensures !h'[a].color.Black? { if a != b { assert !h[a].color.Black?; } }
    assert frag in h ==> frag != b;
  }

  lemma AddSpread(h: Heap, cs: seq<Chunk>, b: int, size: nat)
    requires Apart(h, cs, b, size) && Spread(h)
    ensures Spread(Added(h, b, size))
  {
    var h' := Added(h, b, size);
    assert b !in h && b + 1 + size !in h;
    assert forall a {:trigger End(h', a)} :: a in h && a != b ==> End(h', a) == End(h, a) && h'[a] == h[a];
    forall a | a in h' && End(h', a) in h' ensures !(h'[a].color.Blue? && h'[End(h', a)].color.Blue?) {
      if a != b { assert End(h, a) != b; }
    }
  }

  lemma AddHoused(h: Heap, cs: seq<Chunk>, b: int, size: nat, cs': seq<Chunk>)
    requires Housed(h, cs) && Apart(h, cs, b, size) && cs' == cs + [Chunk(b, b + 1 + size)]
    ensures Housed(Added(h, b, size), cs')
  {
    var n := Chunk(b, b + 1 + size);
    assert n in cs' && forall c :: c in cs ==> c in cs';
    forall a | a in Added(h, b, size) ensures InChunk(cs', a) {
      if a != b {
        assert InChunk(cs, a);
        var c :| c in cs && c.lo <= a < c.hi;
        assert c in cs';
      }
    }
  }

  lemma AddDistinct(h: Heap, cs: seq<Chunk>, b: int, size: nat, cs': seq<Chunk>)
    requires Apart(h, cs, b, size) && cs' == cs + [Chunk(b, b + 1 + size)]
    ensures Distinct(cs) ==> Distinct(cs')
  {
    forall i | 0 <= i < |cs|
      ensures cs[i] != Chunk(b, b + 1 + size)
    {
      assert cs[i] in cs;
    }
  }

  lemma InsertLast(list: seq<int>, merge: int, x: int, j: nat, b: int)
    requires Sorted(list) && (|list| > 0 ==> list[0] > 0) && LastBelow(list, merge, x) && j <= |list| &&
             Cut(list, j, b) && b > 0
    requires forall i {:trigger list[i]} :: 0 <= i < |list| ==> list[i] != b
    ensures LastBelow(list[..j] + [b] + list[j..], if At(list, j) == merge && b < x then b else merge, x)
  {
    var l := list[..j] + [b] + list[j..];
    var k :| Cut(list, k, x) && merge == At(list, k);
    assert forall i {:trigger l[i]} :: 0 <= i < |l| ==> l[i] == if i < j then list[i] else if i == j then b
           else list[i - 1];
    assert j > 0 ==> list[0] <= list[j - 1];
    assert k > 0 ==> list[0] <= list[k - 1];
    assert j > 0 && k > 0 && list[j - 1] == list[k - 1] ==> j == k;
    var k' := if b < x then k + 1 else k;
    assert Cut(l, k', x);
    assert At(l, k') == if At(list, j) == merge && b < x then b else merge;
  }

  /**
   * The branch of `fl_add_block` that appends the block does not advance `fl_merge`. It leaves it on the last
   * free block before the sweep if and only if the new block is not before the sweep.
   */
  lemma AppendLast(list: seq<int>, merge: int, x: int, b: int)
    requires Sorted(list) && LastBelow(list, merge, x) && b > 0 && (|list| > 0 ==> list[0] > 0)
    requires forall i {:trigger list[i]} :: 0 <= i < |list| ==> list[i] < b
    ensures LastBelow(list + [b], merge, x) <==> b >= x
  {
    var l := list + [b];
    var k :| Cut(list, k, x) && merge == At(list, k);
    assert l[|list|] == b && forall i {:trigger l[i]} :: 0 <= i < |list| ==> l[i] == list[i];
    if b >= x {
      assert Cut(l, k, x) && At(l, k) == merge;
    } else {
      forall k' | Cut(l, k', x) ensures At(l, k') != merge {
        assert k' == |l| by { assert l[|list|] == b; }
        assert k > 0 ==> list[k - 1] < b;
      }
    }
  }
}
