/** Allocation keeps the free list in order, also in the middle of a sweep. */
module FreeAlloc {
  import opened FreeSpec

  /** The list after an allocation in its node `i`: the node goes unless something usable is left of it. */
  function ListAfter(list: seq<int>, i: nat, c: int, r: int): seq<int>
    requires i < |list|
  {
    if r > c + 1 then list else list[..i] + list[i + 1..]
  }

  lemma Removed(list: seq<int>, i: nat)
    requires Sorted(list) && i < |list|
    ensures var l := list[..i] + list[i + 1..];
            && Sorted(l) && |l| == |list| - 1
            && (forall k {:trigger l[k]} :: 0 <= k < |l| ==>
                l[k] == (if k < i then list[k] else list[k + 1]) && l[k] != list[i])
            && (forall a {:trigger Has(l, a)} :: Has(list, a) && a != list[i] ==> Has(l, a))
  {
    var l := list[..i] + list[i + 1..];
    forall k | 0 <= k < |l| ensures l[k] == (if k < i then list[k] else list[k + 1]) && l[k] != list[i] { }
    forall a | Has(list, a) && a != list[i] ensures Has(l, a) {
      var k :| 0 <= k < |list| && list[k] == a;
      assert l[if k < i then k else k - 1] == a;
    }
  }

  /** What an allocation of `wo` words from node `i` is. */
  ghost predicate Taken(h: Heap, list: seq<int>, i: int, wo: nat, color: Color, c: int, r: int) {
    && 0 <= i < |list| && c == list[i] && c in h && h[c].size >= wo >= 1 && r == c + h[c].size - wo && !color.Blue?
  }

  lemma SplitListed(h: Heap, cs: seq<Chunk>, list: seq<int>, i: int, wo: nat, color: Color, c: int, r: int)
    requires Tiled(h, cs) && Listed(h, list) && Taken(h, list, i, wo, color, c, r)
    ensures Listed(Split(h, c, r, color), ListAfter(list, i, c, r))
  {
    var h', l := Split(h, c, r, color), ListAfter(list, i, c, r);
    SplitEnds(h, cs, c, r, color);
    Removed(list, i);
    assert h'[r].color == color && (r > c + 1 ==> h'[c].color.Blue? && h'[c].size > 0);
    assert r == c + 1 ==> h'[c].color.White?;
    forall k | 0 <= k < |l| ensures l[k] in h' && h'[l[k]].color.Blue? && h'[l[k]].size > 0 {
      assert l[k] in h && h[l[k]].color.Blue?;
      assert l[k] != c ==> End(h', l[k]) == End(h, l[k]);
    }
    forall a | a in h' && h'[a].color.Blue? ensures Has(l, a) {
      if a != c {
        assert End(h', a) == End(h, a);
        assert h[a].color.Blue?;
      } else {
        assert list[i] == c;
      }
    }
  }

  lemma SplitSum(h: Heap, cs: seq<Chunk>, list: seq<int>, i: int, wo: nat, color: Color, c: int, r: int)
    requires Tiled(h, cs) && Listed(h, list) && Taken(h, list, i, wo, color, c, r)
    ensures Sum(Split(h, c, r, color), ListAfter(list, i, c, r)) == Sum(h, list) - if r > c + 1 then wo + 1
            else 1 + h[c].size
  {
    var h', l := Split(h, c, r, color), ListAfter(list, i, c, r);
    SplitEnds(h, cs, c, r, color);
    SumAt(h, list, i);
    var front, tail := list[..i], list[i+1..];
    forall k | 0 <= k < |front| ensures front[k] in h && front[k] in h' && h'[front[k]].size == h[front[k]].size {
      assert front[k] == list[k] && list[k] < list[i] && End(h', list[k]) == End(h, list[k]);
    }
    forall k | 0 <= k < |tail| ensures tail[k] in h && tail[k] in h' && h'[tail[k]].size == h[tail[k]].size {
      assert tail[k] == list[i+1+k] && list[i] < list[i+1+k] && End(h', list[i+1+k]) == End(h, list[i+1+k]);
    }
    SumSame(h, h', front);
    SumSame(h, h', tail);
    if r > c + 1 {
      SumAt(h', list, i);
    } else {
      SumAppend(h', list[..i], list[i+1..]);
    }
  }

  lemma SplitCut(list: seq<int>, i: nat, c: int, r: int, merge: int, x: int)
    requires Sorted(list) && i < |list| && c == list[i] && LastBelow(list, merge, x) && list[0] > 0
    ensures LastBelow(ListAfter(list, i, c, r), if r <= c + 1 && merge == c then At(list, i) else merge, x)
  {
    if r <= c + 1 {
      var l := list[..i] + list[i + 1..];
      Removed(list, i);
      var k :| Cut(list, k, x) && merge == At(list, k);
      var k' := if i < k then k - 1 else k;
      assert Cut(l, k', x);
      assert k > 0 && k - 1 != i ==> list[k - 1] != list[i];
      assert At(l, k') == if merge == c then At(list, i) else merge;
    }
  }

  lemma SplitCoalesced(h: Heap, cs: seq<Chunk>, wo: nat, color: Color, c: int, r: int, x: int)
    requires Tiled(h, cs) && c in h && h[c].color.Blue? && h[c].size >= wo >= 1 && r == c + h[c].size - wo &&
             !color.Blue?
    requires Coalesced(h, x)
    ensures Coalesced(Split(h, c, r, color), x)
  {
    var h' := Split(h, c, r, color);
    SplitEnds(h, cs, c, r, color);
    assert h'[r] == Blk(wo, color);
    hide Split;
    forall a | a in h' && End(h', a) in h' && End(h', a) < x ensures !(IsFree(h'[a]) && IsFree(h'[End(h', a)])) {
      if a != c && a != r {
        assert End(h, a) == End(h', a) && End(h, c) > r;
        assert End(h, a) in h;
      }
    }
  }

  lemma SplitFragment(h: Heap, cs: seq<Chunk>, wo: nat, color: Color, c: int, r: int, x: int, frag: int)
    requires Tiled(h, cs) && Separate(h, cs) && c in h && h[c].color.Blue? && h[c].size >= wo >= 1 &&
             r == c + h[c].size - wo && !color.Blue?
    requires Boundary(h, cs, x) && FragmentAt(h, x, frag) && Whitened(h, x) && (color.Black? ==> r >= x)
    ensures Boundary(Split(h, c, r, color), cs, x) && FragmentAt(Split(h, c, r, color), x, frag) &&
            Whitened(Split(h, c, r, color), x)
  {
    var h' := Split(h, c, r, color);
    SplitEnds(h, cs, c, r, color);
    assert h'[r] == Blk(wo, color) && (r > c ==> !h'[c].color.Black?);
    hide Split;
    assert r != c ==> x != r;
    forall a | a in h' && a < x ensures !h'[a].color.Black? {
      assert a != c && a != r ==> End(h', a) == End(h, a);
    }
    assert frag in h && frag != c ==> End(h', frag) == End(h, frag);
    forall a | a in h' && h'[a].size == 0 && End(h', a) == x && x in h' ensures a == frag {
      assert a != c && a != r ==> End(h', a) == End(h, a);
    }
  }

  /** Allocation, at any point of a sweep, leaves the sweep in order. */
  lemma SplitSweep(h: Heap, cs: seq<Chunk>, list: seq<int>, i: int, wo: nat, color: Color, c: int, r: int, merge: int,
                   x: int, frag: int)
    requires Tiled(h, cs) && Separate(h, cs) && Listed(h, list) && Taken(h, list, i, wo, color, c, r)
    requires SweepOk(h, cs, list, merge, x, frag) && (color.Black? ==> r >= x)
    ensures SweepOk(Split(h, c, r, color), cs, ListAfter(list, i, c, r), if r <= c + 1 && merge == c then At(list, i)
                    else merge, x, frag)
  {
    hide Split, Coalesced, FragmentAt, Whitened, Boundary, LastBelow, ListAfter, At, Clear;
    assert h[list[i]].color.Blue?;
    SplitCut(list, i, c, r, merge, x) by { assert list[0] in h; }
    SplitCoalesced(h, cs, wo, color, c, r, x);
    SplitFragment(h, cs, wo, color, c, r, x, frag);
    SplitClear(h, cs, wo, color, c, r, x);
  }

  lemma SplitClear(h: Heap, cs: seq<Chunk>, wo: nat, color: Color, c: int, r: int, x: int)
    requires Tiled(h, cs) && Separate(h, cs) && c in h && h[c].color.Blue? && h[c].size >= wo >= 1 &&
             r == c + h[c].size - wo && !color.Blue?
    requires Boundary(h, cs, x) && Clear(h, x)
    ensures Clear(Split(h, c, r, color), x)
  {
    var h' := Split(h, c, r, color);
    SplitEnds(h, cs, c, r, color);
    assert h'[r] == Blk(wo, color);
    hide Split;
    assert r != c ==> x != r;
    forall a | a in h' && End(h', a) == x && x in h' && IsFree(h'[a]) ensures !h'[x].color.Blue? {
      assert a != c && a != r ==> End(h', a) == End(h, a);
      assert x != c && x != r ==> End(h', x) == End(h, x);
    }
  }

  lemma SplitSpread(h: Heap, cs: seq<Chunk>, wo: nat, color: Color, c: int, r: int)
    requires Tiled(h, cs) && c in h && h[c].color.Blue? && h[c].size >= wo >= 1 && r == c + h[c].size - wo &&
             !color.Blue? && Spread(h)
    ensures Spread(Split(h, c, r, color))
  {
    var h' := Split(h, c, r, color);
    SplitEnds(h, cs, c, r, color);
    assert h'[r] == Blk(wo, color) && (r > c ==> !h'[c].color.Black?);
    hide Split;
    forall a | a in h' && h'[a].color.Black? ensures h'[a].size > 0 {
      assert a != c && a != r ==> End(h', a) == End(h, a) && h[a] == h'[a];
    }
    forall a | a in h' && End(h', a) in h' ensures !(h'[a].color.Blue? && h'[End(h', a)].color.Blue?) {
      if a != c && a != r {
        assert End(h', a) == End(h, a) && End(h, c) > r;
        var e := End(h, a);
        assert e in h && (e != c && e != r ==> End(h', e) == End(h, e));
      }
    }
  }
}
