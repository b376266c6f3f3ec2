/** Merging a dead block with its free neighbours keeps the free list in order and the sweep coalesced. */
module FreeMerge {
  import opened FreeSpec

  /**
   * The run that the white block at `x` is merged into: from `start` to `stop`; `k` nodes of the list are below `x`.
   */
  function Stop(h: Heap, list: seq<int>, k: int, x: int): int {
    if 0 <= k < |list| && list[k] == End(h, x) then End(h, list[k]) else End(h, x)
  }

  function FragStart(x: int, frag: int): int { if frag + 1 == x then frag else x }

  function Start(h: Heap, list: seq<int>, k: int, x: int, frag: int): int {
    if 0 < k <= |list| && End(h, list[k - 1]) == FragStart(x, frag) then list[k - 1] else FragStart(x, frag)
  }

  function RunColor(start: int, stop: int): Color { if stop > start + 1 then Blue else White }

  /** The list once the run is one block: the nodes inside it are replaced by it. */
  function ListAfter(h: Heap, list: seq<int>, k: int, x: int, frag: int): seq<int>
    requires 0 <= k <= |list|
  {
    var above := if k < |list| && list[k] == End(h, x) then list[k + 1..] else list[k..];
    var start, stop := Start(h, list, k, x, frag), Stop(h, list, k, x);
    if k > 0 && start == list[k - 1] then list[..k] + above
    else if RunColor(start, stop).Blue? then list[..k] + [start] + above
    else list[..k] + above
  }

  /** A white block at the point where the sweep has got to. */
  ghost predicate Sweepable(h: Heap, cs: seq<Chunk>, list: seq<int>, k: int, x: int, frag: int) {
    && Tiled(h, cs) && Separate(h, cs) && Listed(h, list) && Cut(list, k, x)
    && x in h && h[x].color.White? && Coalesced(h, x) && Whitened(h, x) && FragmentAt(h, x, frag)
  }

  lemma RunOfMerge(h: Heap, cs: seq<Chunk>, list: seq<int>, k: int, x: int, frag: int)
    requires Sweepable(h, cs, list, k, x, frag)
    ensures Run(h, cs, Start(h, list, k, x, frag), Stop(h, list, k, x))
    ensures Start(h, list, k, x, frag) <= x < Stop(h, list, k, x)
  {
    hide IsStart, IsEnd;
    var y := Stop(h, list, k, x);
    RunOne(h, cs, x);
    if y != End(h, x) {
      RunOne(h, cs, list[k]);
      RunTwo(h, cs, x, End(h, x), y);
    }
    var f := FragStart(x, frag);
    if f != x {
      RunOne(h, cs, frag);
      assert End(h, frag) == x;
      RunTwo(h, cs, frag, x, y);
    }
    var s := Start(h, list, k, x, frag);
    if s != f {
      RunOne(h, cs, s);
      RunTwo(h, cs, s, f, y);
    }
  }

  /** The nodes of the list that lie in the run are its first block, if it was free, and the block after `x`. */
  lemma NodesOutside(h: Heap, cs: seq<Chunk>, list: seq<int>, k: int, x: int, frag: int, i: int)
    requires Sweepable(h, cs, list, k, x, frag) && 0 <= i < |list|
    ensures var start, stop := Start(h, list, k, x, frag), Stop(h, list, k, x);
            && (i < k ==> list[i] < start || (i == k - 1 && list[i] == start))
            && (i >= k ==> list[i] >= stop || (i == k && list[k] == End(h, x)))
  {
    hide IsStart, IsEnd, Coalesced, Whitened;
    assert h[list[i]].color.Blue? && End(h, list[i]) > list[i];
    if i < k {
      assert list[i] < x && (frag + 1 == x ==> list[i] != frag);
      assert i < k - 1 ==> list[i] < list[k - 1];
    } else {
      assert list[i] != x && End(h, x) <= list[i];
      assert h[list[k]].color.Blue? && End(h, list[k]) > list[k] && list[k] != x;
      assert End(h, x) <= list[k];
      assert i > k ==> list[k] < list[i];
      if i > k && list[k] == End(h, x) { assert End(h, list[k]) <= list[i]; }
      assert i > k && list[k] != End(h, x) ==> list[i] > End(h, x);
    }
  }

  /** What the list is after the merge, node by node. */
  lemma ListParts(h: Heap, cs: seq<Chunk>, list: seq<int>, k: int, x: int, frag: int)
    requires Sweepable(h, cs, list, k, x, frag)
    ensures var start, stop := Start(h, list, k, x, frag), Stop(h, list, k, x);
            var l, c := ListAfter(h, list, k, x, frag), RunColor(start, stop);
            && (forall i {:trigger l[i]} :: 0 <= i < |l| ==>
                (l[i] == start && c.Blue?) || (Has(list, l[i]) && !(start <= l[i] < stop)))
            && (forall a {:trigger Has(l, a)} :: Has(list, a) && !(start <= a < stop) ==> Has(l, a))
            && (c.Blue? ==> Has(l, start))
            && Sorted(l)
            && Cut(l, if c.White? || (k > 0 && start == list[k - 1]) then k else k + 1, stop)
  {
    var start, stop := Start(h, list, k, x, frag), Stop(h, list, k, x);
    var l, c := ListAfter(h, list, k, x, frag), RunColor(start, stop);
    var skip := k < |list| && list[k] == End(h, x);
    var above := if skip then list[k + 1..] else list[k..];
    assert Sorted(list) && start <= x < stop && (k > 0 && start == list[k - 1] ==> c.Blue?) by {
      RunOfMerge(h, cs, list, k, x, frag);
      assert k > 0 ==> h[list[k - 1]].size > 0;
    }
    forall i | 0 <= i < k
      ensures list[i] < start || (i == k - 1 && list[i] == start)
    {
      NodesOutside(h, cs, list, k, x, frag, i);
    }
    forall i | 0 <= i < |above| ensures above[i] == list[if skip then k + 1 + i else k + i] && above[i] >= stop {
      NodesOutside(h, cs, list, k, x, frag, if skip then k + 1 + i else k + i);
    }
    assert skip ==> start <= list[k] < stop by { NodesSkip(h, cs, list, k, x, frag); }
    hide Sweepable, Start, Stop;
    PartsOfList(list, k, above, skip, start, stop, l, c);
  }

  lemma NodesSkip(h: Heap, cs: seq<Chunk>, list: seq<int>, k: int, x: int, frag: int)
    requires Sweepable(h, cs, list, k, x, frag)
    ensures k < |list| && list[k] == End(h, x) ==> x < list[k] < Stop(h, list, k, x)
  {
    if k < |list| { assert h[list[k]].size > 0; }
  }

  /** `l` is the first `k` nodes, then `start` if `mid` is one, then the nodes from `k + d` on. */
  ghost predicate Parts(l: seq<int>, list: seq<int>, k: int, mid: int, d: int, start: int) {
    && 0 <= k && 0 <= mid <= 1 && 0 <= d <= 1 && k + d <= |list| && |l| == |list| + mid - d
    && (forall i {:trigger l[i]} :: 0 <= i < k ==> l[i] == list[i])
    && (mid == 1 ==> l[k] == start)
    && (forall i {:trigger l[i]} :: k + mid <= i < |l| ==> l[i] == list[i + d - mid])
  }

  /** The first `k` nodes are below the run, save perhaps its start; the nodes from `k + d` on are above it. */
  ghost predicate Around(list: seq<int>, k: int, mid: int, d: int, start: int, stop: int) {
    && start < stop && 0 <= k && k + d <= |list| && 0 <= d <= 1
    && (forall i {:trigger list[i]} :: 0 <= i < k ==> list[i] < start || (mid == 0 && i == k - 1 && list[i] == start))
    && (forall i {:trigger list[i]} :: k + d <= i < |list| ==> list[i] >= stop)
    && (d == 1 ==> start <= list[k] < stop)
  }

  lemma PartsSorted(l: seq<int>, list: seq<int>, k: int, mid: int, d: int, start: int, stop: int)
    requires Sorted(list) && Parts(l, list, k, mid, d, start) && Around(list, k, mid, d, start, stop)
    ensures Sorted(l) && Cut(l, k + mid, stop)
  {
    forall i, j | 0 <= i < j < |l| ensures l[i] < l[j] {
      if i < k && j >= k + mid { assert list[i] <= start; }
    }
  }

  lemma PartsHas(l: seq<int>, list: seq<int>, k: int, mid: int, d: int, start: int, stop: int, a: int)
    requires Parts(l, list, k, mid, d, start) && Around(list, k, mid, d, start, stop) && Has(list, a) &&
             !(start <= a < stop)
    ensures Has(l, a)
  {
    var j :| 0 <= j < |list| && list[j] == a;
    assert l[if j < k then j else j - d + mid] == a;
  }

  lemma PartsFrom(l: seq<int>, list: seq<int>, k: int, mid: int, d: int, start: int, stop: int, i: int)
    requires Parts(l, list, k, mid, d, start) && Around(list, k, mid, d, start, stop) && 0 <= i < |l|
    ensures l[i] == start || (Has(list, l[i]) && !(start <= l[i] < stop))
    ensures l[i] == start ==> mid == 1 || (k > 0 && list[k - 1] == start)
  {
    if i < k {
      assert list[i] == l[i];
    } else if i >= k + mid {
      assert list[i + d - mid] == l[i];
    }
  }

  lemma PartsOfList(list: seq<int>, k: int, above: seq<int>, skip: bool, start: int, stop: int, l: seq<int>, c: Color)
    requires Sorted(list) && 0 <= k <= |list| && start < stop && (skip ==> k < |list| && start <= list[k] < stop)
    requires above == if skip then list[k + 1..] else list[k..]
    requires forall i {:trigger list[i]} :: 0 <= i < k ==> list[i] < start || (i == k - 1 && list[i] == start)
    requires forall i {:trigger above[i]} :: 0 <= i < |above| ==> above[i] >= stop
    requires k > 0 && start == list[k - 1] ==> c.Blue?
    requires !c.Black?
    requires l == if c.White? || (k > 0 && start == list[k - 1]) then list[..k] + above else list[..k] + [start] + above
    ensures forall i {:trigger l[i]} :: 0 <= i < |l| ==>
            (l[i] == start && c.Blue?) || (Has(list, l[i]) && !(start <= l[i] < stop))
    ensures forall a {:trigger Has(l, a)} :: Has(list, a) && !(start <= a < stop) ==> Has(l, a)
    ensures c.Blue? ==> Has(l, start)
    ensures Sorted(l) && Cut(l, if c.White? || (k > 0 && start == list[k - 1]) then k else k + 1, stop)
  {
    hide Has, Sorted, Cut;
    var mid := if c.White? || (k > 0 && start == list[k - 1]) then 0 else 1;
    var d := if skip then 1 else 0;
    PartsMade(list, k, above, skip, start, stop, l, mid, d);
    hide Parts, Around;
    PartsSorted(l, list, k, mid, d, start, stop);
    forall i | 0 <= i < |l| ensures (l[i] == start && c.Blue?) || (Has(list, l[i]) && !(start <= l[i] < stop)) {
      PartsFrom(l, list, k, mid, d, start, stop, i);
    }
    forall a | Has(list, a) && !(start <= a < stop) ensures Has(l, a) {
      PartsHas(l, list, k, mid, d, start, stop, a);
    }
    if c.Blue? { HasAt(l, if mid == 0 then k - 1 else k); }
  }

  lemma HasAt(l: seq<int>, i: int)
    requires 0 <= i < |l|
    ensures Has(l, l[i])
  {
  }

  lemma PartsMade(list: seq<int>, k: int, above: seq<int>, skip: bool, start: int, stop: int, l: seq<int>, mid: int,
                  d: int)
    requires 0 <= k <= |list| && start < stop && (skip ==> k < |list| && start <= list[k] < stop) &&
             d == (if skip then 1 else 0)
    requires above == if skip then list[k + 1..] else list[k..]
    requires forall i {:trigger list[i]} :: 0 <= i < k ==> list[i] < start || (i == k - 1 && list[i] == start)
    requires forall i {:trigger above[i]} :: 0 <= i < |above| ==> above[i] >= stop
    requires 0 <= mid <= 1 && (mid == 1 ==> k == 0 || start != list[k - 1])
    requires l == if mid == 0 then list[..k] + above else list[..k] + [start] + above
    ensures Parts(l, list, k, mid, d, start) && Around(list, k, mid, d, start, stop)
    ensures mid == 0 && k > 0 ==> l[k - 1] == list[k - 1]
    ensures mid == 1 ==> l[k] == start
  {
    hide Parts, Around;
    PartsShape(list, k, above, skip, start, l, mid, d);
    PartsAround(list, k, above, skip, start, stop, mid, d);
  }

  lemma PartsShape(list: seq<int>, k: int, above: seq<int>, skip: bool, start: int, l: seq<int>, mid: int, d: int)
    requires 0 <= k <= |list| && (skip ==> k < |list|) && d == (if skip then 1 else 0) && 0 <= mid <= 1
    requires above == if skip then list[k + 1..] else list[k..]
    requires l == if mid == 0 then list[..k] + above else list[..k] + [start] + above
    ensures Parts(l, list, k, mid, d, start)
    ensures mid == 0 && k > 0 ==> l[k - 1] == list[k - 1]
    ensures mid == 1 ==> l[k] == start
  {
    assert above == list[k + d..];
    if mid == 0 { assert l == list[..k] + list[k + d..]; } else { assert l == list[..k] + [start] + list[k + d..]; }
  }

  lemma PartsAround(list: seq<int>, k: int, above: seq<int>, skip: bool, start: int, stop: int, mid: int, d: int)
    requires 0 <= k <= |list| && start < stop && (skip ==> k < |list| && start <= list[k] < stop) &&
             d == (if skip then 1 else 0)
    requires above == if skip then list[k + 1..] else list[k..]
    requires forall i {:trigger list[i]} :: 0 <= i < k ==> list[i] < start || (i == k - 1 && list[i] == start)
    requires forall i {:trigger above[i]} :: 0 <= i < |above| ==> above[i] >= stop
    requires 0 <= mid <= 1 && (mid == 1 ==> k == 0 || start != list[k - 1])
    ensures Around(list, k, mid, d, start, stop)
  {
    forall i | k + d <= i < |list| ensures list[i] >= stop { assert above[i - k - d] == list[i]; }
  }

  lemma JoinedListed(h: Heap, list: seq<int>, l: seq<int>, start: int, stop: int)
    requires Listed(h, list) && start < stop && Sorted(l)
    requires forall i {:trigger l[i]} :: 0 <= i < |l| ==>
             (l[i] == start && RunColor(start, stop).Blue?) || (Has(list, l[i]) && !(start <= l[i] < stop))
    requires forall a {:trigger Has(l, a)} :: Has(list, a) && !(start <= a < stop) ==> Has(l, a)
    requires RunColor(start, stop).Blue? ==> Has(l, start)
    ensures Listed(Joined(h, start, stop, RunColor(start, stop)), l)
  {
    var h' := Joined(h, start, stop, RunColor(start, stop));
    forall i | 0 <= i < |l| ensures l[i] in h' && h'[l[i]].color.Blue? && h'[l[i]].size > 0 {
      if l[i] != start {
        var j :| 0 <= j < |list| && list[j] == l[i];
        assert h[list[j]].color.Blue?;
      }
    }
    forall a | a in h' && h'[a].color.Blue? ensures Has(l, a) {
      if a != start { assert h[a].color.Blue?; }
    }
  }

  lemma MergeListed(h: Heap, cs: seq<Chunk>, list: seq<int>, k: int, x: int, frag: int)
    requires Sweepable(h, cs, list, k, x, frag)
    ensures var start, stop := Start(h, list, k, x, frag), Stop(h, list, k, x);
            Listed(Joined(h, start, stop, RunColor(start, stop)), ListAfter(h, list, k, x, frag))
  {
    hide Start, Stop, ListAfter, RunColor, Joined, Listed, Coalesced, Whitened, FragmentAt, Separate, Run, Tiled, Has,
         Sorted;
    var start, stop := Start(h, list, k, x, frag), Stop(h, list, k, x);
    ListParts(h, cs, list, k, x, frag);
    RunOfMerge(h, cs, list, k, x, frag);
    JoinedListed(h, list, ListAfter(h, list, k, x, frag), start, stop);
  }

  // ---- The words of the list ------------------------------------------------------------------------------------

  lemma PartsSum(h: Heap, h': Heap, list: seq<int>, k: int, x: int, frag: int, start: int, stop: int)
    requires 0 <= k <= |list| && start < stop && x in h
    requires forall i {:trigger list[i]} :: 0 <= i < |list| ==>
             list[i] in h && (!(start <= list[i] < stop) ==> list[i] in h' && h'[list[i]].size == h[list[i]].size)
    requires start in h' && h'[start].size == stop - start - 1
    requires forall i {:trigger list[i]} :: 0 <= i < k ==> list[i] < start || (i == k - 1 && list[i] == start)
    requires forall i {:trigger list[i]} :: k <= i < |list| ==> list[i] >= stop || (i == k && list[k] == End(h, x))
    requires k < |list| && list[k] == End(h, x) ==> start <= list[k] < stop
    ensures var skip, joins := k < |list| && list[k] == End(h, x), k > 0 && list[k - 1] == start;
            var above := if skip then list[k + 1..] else list[k..];
            && Sum(h', list[..k] + above) == Sum(h, list) - (if skip then 1 + h[list[k]].size else 0) +
               (if joins then stop - start - 1 - h[start].size else 0)
            && Sum(h', list[..k] + [start] + above) == Sum(h', list[..k] + above) + stop - start
  {
    hide Sum;
    var skip := k < |list| && list[k] == End(h, x);
    var above := if skip then list[k + 1..] else list[k..];
    LowSum(h, h', list, k, start, stop);
    AboveSum(h, h', list, k, skip, above, start, stop);
    SumSplit(h, list, k, skip, above);
    SumAppend(h', list[..k], above);
    SumAppend(h', list[..k] + [start], above);
    SumAppend(h', list[..k], [start]);
    SumOne(h', start);
  }

  lemma SumOne(h: Heap, a: int)
    requires a in h
    ensures Sum(h, [a]) == 1 + h[a].size
  {
    assert [a][1..] == [];
  }

  lemma LowSum(h: Heap, h': Heap, list: seq<int>, k: int, start: int, stop: int)
    requires 0 <= k <= |list| && start < stop && start in h' && h'[start].size == stop - start - 1
    requires forall i {:trigger list[i]} :: 0 <= i < |list| ==>
             list[i] in h && (!(start <= list[i] < stop) ==> list[i] in h' && h'[list[i]].size == h[list[i]].size)
    requires forall i {:trigger list[i]} :: 0 <= i < k ==> list[i] < start || (i == k - 1 && list[i] == start)
    ensures Sum(h', list[..k]) == Sum(h, list[..k]) + if k > 0 && list[k - 1] == start
            then stop - start - 1 - h[start].size else 0
  {
    hide Sum;
    var joins := k > 0 && list[k - 1] == start;
    var low := if joins then list[..k - 1] else list[..k];
    forall i | 0 <= i < |low| ensures low[i] in h && low[i] in h' && h'[low[i]].size == h[low[i]].size {
      assert low[i] == list[i];
    }
    SumSame(h, h', low);
    if joins {
      assert list[..k] == low + [start] && list[k - 1] in h;
      SumAppend(h, low, [start]);
      SumAppend(h', low, [start]);
      SumOne(h, start);
      SumOne(h', start);
    }
  }

  lemma AboveSum(h: Heap, h': Heap, list: seq<int>, k: int, skip: bool, above: seq<int>, start: int, stop: int)
    requires 0 <= k <= |list| && start < stop && (skip ==> k < |list|) && above == if skip then list[k + 1..]
             else list[k..]
    requires forall i {:trigger list[i]} :: 0 <= i < |list| ==>
             list[i] in h && (!(start <= list[i] < stop) ==> list[i] in h' && h'[list[i]].size == h[list[i]].size)
    requires forall i {:trigger list[i]} :: k <= i < |list| ==> list[i] >= stop || (i == k && skip)
    ensures Sum(h', above) == Sum(h, above)
  {
    hide Sum;
    forall i | 0 <= i < |above| ensures above[i] in h && above[i] in h' && h'[above[i]].size == h[above[i]].size {
      assert above[i] == list[if skip then k + 1 + i else k + i];
    }
    SumSame(h, h', above);
  }

  lemma SumSplit(h: Heap, list: seq<int>, k: int, skip: bool, above: seq<int>)
    requires 0 <= k <= |list| && (skip ==> k < |list| && list[k] in h) && above == if skip then list[k + 1..]
             else list[k..]
    ensures Sum(h, list) == Sum(h, list[..k]) + (if skip then 1 + h[list[k]].size else 0) + Sum(h, above)
  {
    if skip {
      SumAt(h, list, k);
    } else {
      assert list == list[..k] + list[k..];
      SumAppend(h, list[..k], list[k..]);
    }
  }

  /** What the merge adds to the words of the list. */
  function Gain(h: Heap, x: int, frag: int, start: int, stop: int): nat {
    if RunColor(start, stop).Blue? && x in h then 1 + h[x].size + (if frag + 1 == x then 1 else 0) else 0
  }

  lemma RunWords(h: Heap, cs: seq<Chunk>, list: seq<int>, k: int, x: int, frag: int)
    requires Sweepable(h, cs, list, k, x, frag)
    ensures var start, stop := Start(h, list, k, x, frag), Stop(h, list, k, x);
            && (k > 0 && list[k - 1] == start <==> k > 0 && End(h, list[k - 1]) == FragStart(x, frag))
            && stop - start == (if k > 0 && list[k - 1] == start then 1 + h[start].size else 0) +
               (if frag + 1 == x then 1 else 0)
                               + 1 + h[x].size + (if k < |list| && list[k] == End(h, x) then 1 + h[list[k]].size else 0)
  {
    if k > 0 {
      assert h[list[k - 1]].color.Blue? && h[list[k - 1]].size > 0 && list[k - 1] < x;
      assert frag + 1 == x ==> h[frag].size == 0;
    }
    if k < |list| { assert list[k] in h; }
  }

  lemma JoinedSizes(h: Heap, list: seq<int>, start: int, stop: int, c: Color)
    requires Listed(h, list) && start < stop
    ensures var h' := Joined(h, start, stop, c);
            && start in h' && h'[start].size == stop - start - 1
            && forall i {:trigger list[i]} :: 0 <= i < |list| ==>
               list[i] in h && (!(start <= list[i] < stop) ==> list[i] in h' && h'[list[i]].size == h[list[i]].size)
  {
  }

  lemma MergeSum(h: Heap, cs: seq<Chunk>, list: seq<int>, k: int, x: int, frag: int)
    requires Sweepable(h, cs, list, k, x, frag)
    ensures var start, stop := Start(h, list, k, x, frag), Stop(h, list, k, x);
            Sum(Joined(h, start, stop, RunColor(start, stop)), ListAfter(h, list, k, x, frag)) ==
              Sum(h, list) + Gain(h, x, frag, start, stop)
  {
    hide Start, Stop, Joined, Listed, Coalesced, Whitened, FragmentAt, Separate, Run, Tiled, Sum;
    var start, stop := Start(h, list, k, x, frag), Stop(h, list, k, x);
    var h' := Joined(h, start, stop, RunColor(start, stop));
    RunOfMerge(h, cs, list, k, x, frag);
    RunWords(h, cs, list, k, x, frag);
    JoinedSizes(h, list, start, stop, RunColor(start, stop));
    forall i | 0 <= i < |list|
      ensures (i < k ==> list[i] < start || (i == k - 1 && list[i] == start)) &&
              (i >= k ==> list[i] >= stop || (i == k && list[k] == End(h, x)))
    {
      NodesOutside(h, cs, list, k, x, frag, i);
    }
    NodesSkip(h, cs, list, k, x, frag);
    PartsSum(h, h', list, k, x, frag, start, stop);
  }

  // ---- The sweep after the merge ------------------------------------------------------------------------------------

  /** A free block that ends at `x` is the last node below `x`. */
  lemma BlueBefore(h: Heap, cs: seq<Chunk>, list: seq<int>, k: int, x: int, frag: int, a: int)
    requires Sweepable(h, cs, list, k, x, frag) && a in h && End(h, a) == x
    ensures h[a].color.Blue? ==> k > 0 && list[k - 1] == a
  {
    if h[a].color.Blue? {
      assert Has(list, a);
      var i :| 0 <= i < |list| && list[i] == a;
      assert i < k && End(h, list[k - 1]) >= list[k - 1];
    }
  }

  /** The block before the run, if it is in the swept part, is not free. */
  lemma BeforeRun(h: Heap, cs: seq<Chunk>, list: seq<int>, k: int, x: int, frag: int, a: int)
    requires Sweepable(h, cs, list, k, x, frag) && a in h && End(h, a) == Start(h, list, k, x, frag)
    ensures !IsFree(h[a])
  {
    var start := Start(h, list, k, x, frag);
    if start == x {
      BlueBefore(h, cs, list, k, x, frag, a);
    } else {
      assert start in h && IsFree(h[start]) by { if k > 0 { assert h[list[k - 1]].color.Blue?; } }
      assert start < x by { if k > 0 { assert list[k - 1] < x; } }
    }
  }

  lemma MergeCoalesced(h: Heap, cs: seq<Chunk>, list: seq<int>, k: int, x: int, frag: int, c: Color)
    requires Sweepable(h, cs, list, k, x, frag) && !c.Black?
    ensures var start, stop := Start(h, list, k, x, frag), Stop(h, list, k, x);
            var h' := Joined(h, start, stop, c);
            Coalesced(h', stop) && Whitened(h', stop) && FragmentAt(h', stop, if stop == start + 1 then start else frag)
  {
    hide Start, Stop, IsStart, IsEnd, Listed;
    var start, stop := Start(h, list, k, x, frag), Stop(h, list, k, x);
    var h' := Joined(h, start, stop, c);
    RunOfMerge(h, cs, list, k, x, frag);
    assert forall a {:trigger a in h'} :: a in h' <==> (a in h && !(start <= a < stop)) || a == start;
    assert End(h', start) == stop;
    forall a | a in h' && a != start
      ensures End(h', a) == End(h, a) && h'[a] == h[a] && (a < start ==> End(h, a) <= start)
    {
      assert End(h, start) >= start;
    }
    hide Joined;
    forall a | a in h' && End(h', a) in h' && End(h', a) < stop ensures !(IsFree(h'[a]) && IsFree(h'[End(h', a)])) {
      if a < start {
        if End(h, a) == start {
          BeforeRun(h, cs, list, k, x, frag, a);
        }
      }
    }
    forall a | a in h' && h'[a].size == 0 && End(h', a) == stop && stop in h'
      ensures a == if stop == start + 1 then start else frag
    {
    }
  }

  lemma MergeSweep(h: Heap, cs: seq<Chunk>, list: seq<int>, k: int, x: int, frag: int)
    requires Sweepable(h, cs, list, k, x, frag) && Spread(h)
    ensures var start, stop := Start(h, list, k, x, frag), Stop(h, list, k, x);
            var c := RunColor(start, stop);
            SweepOk(Joined(h, start, stop, c), cs, ListAfter(h, list, k, x, frag), if c.Blue? then start
                    else At(list, k), stop, if c.Blue? then frag else start)
  {
    hide Start, Stop, Joined, ListAfter, Tiled, Separate, Listed, Coalesced, Whitened, FragmentAt, Boundary, Sorted,
         Has, LastBelow, Clear, Spread;
    var start, stop := Start(h, list, k, x, frag), Stop(h, list, k, x);
    var c := RunColor(start, stop);
    RunOfMerge(h, cs, list, k, x, frag);
    MergeCoalesced(h, cs, list, k, x, frag, c);
    JoinedBoundary(h, cs, start, stop, c);
    ListParts(h, cs, list, k, x, frag);
    MergeLast(h, cs, list, k, x, frag);
    MergeClear(h, cs, list, k, x, frag, c);
  }

  /** The block after the run is not in the list. */
  lemma AfterRun(h: Heap, cs: seq<Chunk>, list: seq<int>, k: int, x: int, frag: int)
    requires Sweepable(h, cs, list, k, x, frag) && Spread(h)
    ensures var stop := Stop(h, list, k, x); stop in h ==> !h[stop].color.Blue?
  {
    hide Separate, Coalesced, Whitened, FragmentAt;
    var stop := Stop(h, list, k, x);
    BlueAfter(h, cs, list, k, x, frag);
    if k < |list| && list[k] == End(h, x) {
      assert h[list[k]].color.Blue? && End(h, list[k]) == stop;
    }
  }

  /** A free block that starts where `x` ends is the first node above `x`. */
  lemma BlueAfter(h: Heap, cs: seq<Chunk>, list: seq<int>, k: int, x: int, frag: int)
    requires Sweepable(h, cs, list, k, x, frag)
    ensures End(h, x) in h && h[End(h, x)].color.Blue? ==> k < |list| && list[k] == End(h, x)
  {
    hide Separate, Coalesced, Whitened, FragmentAt;
    var e := End(h, x);
    if e in h && h[e].color.Blue? {
      assert Has(list, e);
      var i :| 0 <= i < |list| && list[i] == e;
      assert i >= k && list[k] <= list[i] && list[k] in h;
      assert list[k] != x && End(h, list[k]) > list[k];
    }
  }

  lemma MergeClear(h: Heap, cs: seq<Chunk>, list: seq<int>, k: int, x: int, frag: int, c: Color)
    requires Sweepable(h, cs, list, k, x, frag) && Spread(h)
    ensures var start, stop := Start(h, list, k, x, frag), Stop(h, list, k, x); Clear(Joined(h, start, stop, c), stop)
  {
    hide Start, Stop, Sweepable, Spread;
    AfterRun(h, cs, list, k, x, frag);
    RunOfMerge(h, cs, list, k, x, frag);
  }

  lemma JoinedEnds(h: Heap, cs: seq<Chunk>, start: int, stop: int, c: Color)
    requires Tiled(h, cs) && Run(h, cs, start, stop)
    ensures var h' := Joined(h, start, stop, c);
            && h'[start].color == c && End(h', start) == stop
            && (forall a {:trigger a in h'} :: a in h' <==> (a in h && !(start <= a < stop)) || a == start)
            && (forall a {:trigger End(h', a)} :: a in h' && a != start ==>
                End(h', a) == End(h, a) && h'[a] == h[a] && (a < start ==> End(h, a) <= start))
  {
    var h' := Joined(h, start, stop, c);
    forall a | a in h' && a != start
      ensures End(h', a) == End(h, a) && h'[a] == h[a] && (a < start ==> End(h, a) <= start)
    {
      assert End(h, start) >= start;
    }
  }

  lemma MergeSpread(h: Heap, cs: seq<Chunk>, list: seq<int>, k: int, x: int, frag: int, c: Color)
    requires Sweepable(h, cs, list, k, x, frag) && Spread(h) && !c.Black?
    ensures var start, stop := Start(h, list, k, x, frag), Stop(h, list, k, x); Spread(Joined(h, start, stop, c))
  {
    hide Start, Stop, Coalesced, Whitened, FragmentAt, Listed, Joined, Tiled, Separate, Run;
    var start, stop := Start(h, list, k, x, frag), Stop(h, list, k, x);
    var h' := Joined(h, start, stop, c);
    AfterRun(h, cs, list, k, x, frag);
    RunOfMerge(h, cs, list, k, x, frag);
    JoinedEnds(h, cs, start, stop, c);
    forall a | a in h' && h'[a].color.Black?
      ensures h'[a].size > 0
    {
      assert End(h', a) == End(h, a) && h[a].color.Black?;
    }
    forall a | a in h' && End(h', a) in h' ensures !(h'[a].color.Blue? && h'[End(h', a)].color.Blue?) {
      if a != start {
        var e := End(h, a);
        if e == start { BeforeRun(h, cs, list, k, x, frag, a); } else { assert End(h', e) == End(h, e); }
      } else {
        assert stop in h && End(h', stop) == End(h, stop);
      }
    }
  }

  lemma JoinedBoundary(h: Heap, cs: seq<Chunk>, start: int, stop: int, c: Color)
    requires Run(h, cs, start, stop)
    ensures Boundary(Joined(h, start, stop, c), cs, stop)
  {
  }

  lemma MergeLast(h: Heap, cs: seq<Chunk>, list: seq<int>, k: int, x: int, frag: int)
    requires Sweepable(h, cs, list, k, x, frag)
    ensures var start, stop := Start(h, list, k, x, frag), Stop(h, list, k, x);
            LastBelow(ListAfter(h, list, k, x, frag), if RunColor(start, stop).Blue? then start else At(list, k), stop)
  {
    hide Start, Stop, Tiled, Separate, Listed, Coalesced, Whitened, FragmentAt, Sorted, Has;
    var start, stop := Start(h, list, k, x, frag), Stop(h, list, k, x);
    var l, c := ListAfter(h, list, k, x, frag), RunColor(start, stop);
    ListParts(h, cs, list, k, x, frag);
    var k' := if c.White? || (k > 0 && start == list[k - 1]) then k else k + 1;
    assert Cut(l, k', stop);
    assert At(l, k') == if c.Blue? then start else At(list, k);
  }
}
