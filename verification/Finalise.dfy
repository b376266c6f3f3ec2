/** The table of finalisation functions: one array holding three sets and the free space between them. */
module Finalise {
  /** A function and the value it finalises. */
  datatype Final = Final(fun: int, val: int)

  /** What the collector knows of the values: which are white, and where the forward blocks lead. */
  datatype Heap = Heap(white: set<int>, forward: map<int, int>)

  predicate Steps(h: Heap, v: int) { v in h.white && v in h.forward }

  /** Chains of white forward blocks end: `rank` goes down along them. */
  ghost predicate Ranked(h: Heap, rank: map<int, nat>) {
    forall v {:trigger Steps(h, v)} :: Steps(h, v) ==>
      v in rank && (Steps(h, h.forward[v]) ==> h.forward[v] in rank && rank[h.forward[v]] < rank[v])
  }

  ghost function RankOf(h: Heap, rank: map<int, nat>, v: int): nat {
    if Steps(h, v) && v in rank then rank[v] + 1 else 0
  }

  /** The value at the end of the chain of white forward blocks that starts at `v`. */
  ghost function Resolve(h: Heap, rank: map<int, nat>, v: int): int
    requires Ranked(h, rank)
    decreases RankOf(h, rank, v)
  {
    if Steps(h, v) then Resolve(h, rank, h.forward[v]) else v
  }

  lemma {:induction false} ResolveEnds(h: Heap, rank: map<int, nat>, v: int)
    requires Ranked(h, rank)
    ensures !Steps(h, Resolve(h, rank, v))
    decreases RankOf(h, rank, v)
  {
    if Steps(h, v) { ResolveEnds(h, rank, h.forward[v]); }
  }

  ghost function ResolvePair(h: Heap, rank: map<int, nat>, f: Final): Final
    requires Ranked(h, rank)
  {
    Final(f.fun, Resolve(h, rank, f.val))
  }

  // ---- What an update does to the finalisable set -------------------------------------------------------------------

  /** The pairs kept and, in front of `moved`, those that move, from position `i` on. */
  ghost function Sift(h: Heap, rank: map<int, nat>, live: seq<Final>, i: nat, moved: seq<Final>)
    : (seq<Final>, seq<Final>)
    requires Ranked(h, rank)
    decreases |live| - i
  {
    if i >= |live| then (live, moved)
    else
      var f := ResolvePair(h, rank, live[i]);
      if f.val in h.white then Sift(h, rank, live[i := live[|live| - 1]][..|live| - 1], i, [f] + moved)
      else Sift(h, rank, live[i := f], i + 1, moved)
  }

  ghost function ResolveAll(h: Heap, rank: map<int, nat>, s: seq<Final>): seq<Final>
    requires Ranked(h, rank)
  {
    seq(|s|, i requires 0 <= i < |s| => ResolvePair(h, rank, s[i]))
  }

  ghost predicate NoneWhite(h: Heap, s: seq<Final>) {
    forall i {:trigger s[i]} :: 0 <= i < |s| ==> s[i].val !in h.white
  }

  ghost predicate NoneForward(h: Heap, s: seq<Final>) {
    forall i {:trigger s[i]} :: 0 <= i < |s| ==> s[i].val !in h.forward
  }

  ghost predicate AllWhite(h: Heap, s: seq<Final>) { forall i {:trigger s[i]} :: 0 <= i < |s| ==> s[i].val in h.white }

  /** Removing an element from a sequence by putting the last one in its place. */
  lemma SwapOut(live: seq<Final>, i: nat)
    requires i < |live|
    ensures var rest := live[i := live[|live| - 1]][..|live| - 1];
            && |rest| == |live| - 1 && rest[..i] == live[..i] &&
               multiset(live[i..]) == multiset(rest[i..]) + multiset{live[i]}
  {
    var n := |live| - 1;
    var rest := live[i := live[n]][..n];
    assert live[i..] == [live[i]] + live[i + 1..];
    if i < n {
      assert rest[i..] == [live[n]] + live[i + 1..n];
      assert live[i + 1..] == live[i + 1..n] + [live[n]];
    }
  }

  /** The pairs in play: those already kept, those still to look at with their values resolved, and those moved. */
  ghost function Bag(h: Heap, rank: map<int, nat>, live: seq<Final>, i: nat, moved: seq<Final>): multiset<Final>
    requires Ranked(h, rank) && i <= |live|
  {
    multiset(live[..i]) + multiset(ResolveAll(h, rank, live)[i..]) + multiset(moved)
  }

  lemma KeepBag(h: Heap, rank: map<int, nat>, live: seq<Final>, i: nat, moved: seq<Final>)
    requires Ranked(h, rank) && i < |live|
    ensures Bag(h, rank, live[i := ResolvePair(h, rank, live[i])], i + 1, moved) == Bag(h, rank, live, i, moved)
  {
    hide Resolve, Ranked;
    var f := ResolvePair(h, rank, live[i]);
    var next := live[i := f];
    assert next[..i + 1] == live[..i] + [f];
    var all := ResolveAll(h, rank, live);
    assert all[i..] == [f] + all[i + 1..];
    assert ResolveAll(h, rank, next)[i + 1..] == all[i + 1..];
  }

  lemma MoveBag(h: Heap, rank: map<int, nat>, live: seq<Final>, i: nat, moved: seq<Final>)
    requires Ranked(h, rank) && i < |live|
    ensures Bag(h, rank, live[i := live[|live| - 1]][..|live| - 1], i, [ResolvePair(h, rank, live[i])] + moved) ==
            Bag(h, rank, live, i, moved)
  {
    hide ResolvePair, Ranked, ResolveAll;
    var n := |live| - 1;
    var rest, all := live[i := live[n]][..n], ResolveAll(h, rank, live);
    ResolveSwap(h, rank, live, i);
    SwapOut(live, i);
    SwapOut(all, i);
    assert multiset([all[i]] + moved) == multiset{all[i]} + multiset(moved);
  }

  lemma ResolveSwap(h: Heap, rank: map<int, nat>, live: seq<Final>, i: nat)
    requires Ranked(h, rank) && i < |live|
    ensures var n, all := |live| - 1, ResolveAll(h, rank, live);
            && |all| == |live| && all[i] == ResolvePair(h, rank, live[i])
            && ResolveAll(h, rank, live[i := live[n]][..n]) == all[i := all[n]][..n]
  {
  }

  /** An update loses no pair and duplicates none; what it keeps is not white, and what it moves is. */
  lemma {:induction false} SiftKeepsAll(h: Heap, rank: map<int, nat>, live: seq<Final>, i: nat, moved: seq<Final>)
    requires Ranked(h, rank) && i <= |live| && NoneWhite(h, live[..i]) && AllWhite(h, moved)
    ensures var (kept, out) := Sift(h, rank, live, i, moved);
            && multiset(kept) + multiset(out) == Bag(h, rank, live, i, moved)
            && NoneWhite(h, kept) && AllWhite(h, out) && |kept| + |out| == |live| + |moved|
    decreases |live| - i
  {
    hide Resolve, Ranked, Bag;
    if i == |live| {
      assert live[..i] == live;
      BagEnds(h, rank, live, moved);
    } else {
      var f := ResolvePair(h, rank, live[i]);
      if f.val in h.white {
        MoveBag(h, rank, live, i, moved);
        SwapOut(live, i);
        SiftKeepsAll(h, rank, live[i := live[|live| - 1]][..|live| - 1], i, [f] + moved);
      } else {
        KeepBag(h, rank, live, i, moved);
        assert live[i := f][..i + 1] == live[..i] + [f];
        SiftKeepsAll(h, rank, live[i := f], i + 1, moved);
      }
    }
  }

  lemma BagEnds(h: Heap, rank: map<int, nat>, live: seq<Final>, moved: seq<Final>)
    requires Ranked(h, rank)
    ensures Bag(h, rank, live, |live|, moved) == multiset(live) + multiset(moved)
    ensures Bag(h, rank, live, 0, moved) == multiset(ResolveAll(h, rank, live)) + multiset(moved)
  {
    assert live[..|live|] == live;
    assert ResolveAll(h, rank, live)[0..] == ResolveAll(h, rank, live);
  }

  /**
   * What an update makes of the finalisable set `first`: it keeps `kept`, which are not white, and moves `moved`, which
   * are, and which are at the end of their forward blocks.
   */
  ghost predicate Sifted(h: Heap, rank: map<int, nat>, first: seq<Final>, kept: seq<Final>, moved: seq<Final>)
    requires Ranked(h, rank)
  {
    && multiset(kept) + multiset(moved) == multiset(ResolveAll(h, rank, first)) && |kept| + |moved| == |first|
    && NoneWhite(h, kept) && AllWhite(h, moved) && NoneForward(h, moved)
  }

  /** No white value that has been followed to its end is a forward block. */
  lemma FollowedEnds(h: Heap, rank: map<int, nat>, first: seq<Final>, kept: seq<Final>, moved: seq<Final>)
    requires Ranked(h, rank) && multiset(kept) + multiset(moved) == multiset(ResolveAll(h, rank, first))
    requires AllWhite(h, moved)
    ensures NoneForward(h, moved)
  {
    forall i {:trigger moved[i]} | 0 <= i < |moved|
      ensures moved[i].val !in h.forward
    {
      assert moved[i] in multiset(moved);
      assert moved[i] in multiset(ResolveAll(h, rank, first));
      var k :| 0 <= k < |first| && ResolveAll(h, rank, first)[k] == moved[i];
      ResolveEnds(h, rank, first[k].val);
    }
  }

  lemma SiftStep(h: Heap, rank: map<int, nat>, live: seq<Final>, i: nat, moved: seq<Final>)
    requires Ranked(h, rank) && i < |live|
    ensures var f := ResolvePair(h, rank, live[i]);
            Sift(h, rank, live, i, moved) ==
              if f.val in h.white then Sift(h, rank, live[i := live[|live| - 1]][..|live| - 1], i, [f] + moved)
                else Sift(h, rank, live[i := f], i + 1, moved)
  {
  }

  lemma SiftEnds(h: Heap, rank: map<int, nat>, first: seq<Final>, kept: seq<Final>, moved: seq<Final>)
    requires Ranked(h, rank) && Sift(h, rank, kept, |kept|, moved) == Sift(h, rank, first, 0, [])
    ensures Sifted(h, rank, first, kept, moved)
  {
    hide Bag, ResolveAll;
    SiftKeepsAll(h, rank, first, 0, []);
    BagEnds(h, rank, first, []);
    FollowedEnds(h, rank, first, kept, moved);
  }

  function Values(s: seq<Final>): seq<int> { seq(|s|, i requires 0 <= i < |s| => s[i].val) }

  // ---- The table ----------------------------------------------------------------------------------------------------

  /** How a registration ends: it may also read outside the table. */
  datatype Outcome = Registered | InvalidArgument | Stray

  /** The parts of the table after entry `i` became `f`, and after it moved to the finalising set. */
  lemma SliceTable(b: seq<Final>, t: seq<Final>, f: Final, i: nat, n: nat, a: nat, end: nat)
    requires i < n <= a <= end <= |b| == |t|
    ensures t == b[i := f] ==> t[..n] == b[..n][i := f] && t[a..end] == b[a..end] && t[end..] == b[end..]
    ensures t == b[i := f][i := b[i := f][n - 1]][a - 1 := f] ==>
            t[..n - 1] == b[..n][i := b[n - 1]][..n - 1] && t[a - 1..end] == [f] + b[a..end] && t[end..] == b[end..]
  {
  }

  class FinalTable {
    /** Of length 0 before the first registration. */
    var table: array<Final>
    var oldEnd: nat
    var youngEnd: nat
    var active: nat
    var size: nat

    ghost predicate Valid()
      reads this
    {
      oldEnd <= youngEnd <= active <= size == table.Length
    }

    ghost function Finalisable(): seq<Final>
      reads this, table
      requires Valid()
    {
      table[..oldEnd]
    }

    ghost function Recent(): seq<Final>
      reads this, table
      requires Valid()
    {
      table[oldEnd..youngEnd]
    }

    ghost function Finalising(): seq<Final>
      reads this, table
      requires Valid()
    {
      table[active..size]
    }

    constructor ()
      ensures Valid() && size == 0 && fresh(table)
    {
      table := new Final[0];
      oldEnd, youngEnd, active, size := 0, 0, 0, 0;
    }

    /** The inner loop of `final_update`: follows forward blocks from entry `i`. */
    method FollowForward(h: Heap, i: nat, ghost rank: map<int, nat>)
      requires i < table.Length && Ranked(h, rank)
      modifies table
      ensures table[..] == old(table[..])[i := ResolvePair(h, rank, old(table[i]))]
    {
      while table[i].val in h.white && table[i].val in h.forward
        invariant table[..] == old(table[..])[i := table[i]] && table[i].fun == old(table[i]).fun
        invariant Resolve(h, rank, table[i].val) == Resolve(h, rank, old(table[i]).val)
        decreases RankOf(h, rank, table[i].val)
      {
        assert Steps(h, table[i].val);
        table[i] := table[i].(val := h.forward[table[i].val]);
      }
    }

    /** One turn of the loop of `final_update`. */
    method SiftOne(h: Heap, i: nat, oldActive: nat, ghost rank: map<int, nat>) returns (next: nat)
      requires i < oldEnd <= active <= oldActive <= size == table.Length && Ranked(h, rank)
      modifies `oldEnd, `active, table
      ensures oldEnd <= active <= oldActive
      ensures var live, moved := old(table[..oldEnd]), old(table[active..oldActive]);
              var f := ResolvePair(h, rank, live[i]);
              if f.val in h.white then
                && next == i && oldEnd == |live| - 1 && active == old(active) - 1
                && table[..oldEnd] == live[i := live[oldEnd]][..oldEnd] && table[active..oldActive] == [f] + moved
              else
                && next == i + 1 && oldEnd == |live| && active == old(active) && table[..oldEnd] == live[i := f] &&
                   table[active..oldActive] == moved
      ensures table[oldActive..size] == old(table[oldActive..size])
    {
      hide ResolvePair, Ranked;
      ghost var before := table[..];
      FollowForward(h, i, rank);
      ghost var after := table[..];
      assert table[i] == after[i];
      next := i + 1;
      if table[i].val in h.white {
        var f := table[i];
        oldEnd := oldEnd - 1;
        table[i] := table[oldEnd];
        active := active - 1;
        table[active] := f;
        next := i;
        assert table[..] == after[i := after[oldEnd]][active := f];
      }
      SliceTable(before, table[..], after[i], i, old(oldEnd), old(active), oldActive);
    }

    /**
     * `final_update`: moves the pairs whose values are white to the finalising set and gives the values to darken. The
     * old part of the finalising set, and the recent set, which is empty, stay.
     */
    method Update(h: Heap, ghost rank: map<int, nat>) returns (darken: seq<int>)
      requires Valid() && Ranked(h, rank) && oldEnd == youngEnd
      modifies `oldEnd, `youngEnd, `active, table
      ensures Valid() && oldEnd == youngEnd && active <= old(active)
      ensures Sifted(h, rank, old(Finalisable()), Finalisable(), table[active..old(active)])
      ensures Finalising() == table[active..old(active)] + old(Finalising())
      ensures |darken| == old(active) - active
      ensures forall i {:trigger darken[i]} :: 0 <= i < |darken| ==> darken[i] == table[active + i].val
    {
      hide Resolve, Ranked, Sift, ResolveAll, ResolvePair, Sifted;
      var oldActive := active;
      ghost var first, last := table[..oldEnd], table[active..size];
      var i: nat := 0;
      assert table[active..oldActive] == [];
      while i < oldEnd
        invariant i <= oldEnd <= active <= oldActive == old(active) <= size == table.Length
        invariant Sift(h, rank, table[..oldEnd], i, table[active..oldActive]) == Sift(h, rank, first, 0, [])
        invariant table[oldActive..size] == last
        decreases oldEnd - i
      {
        SiftStep(h, rank, table[..oldEnd], i, table[active..oldActive]);
        i := SiftOne(h, i, oldActive, rank);
      }
      youngEnd := oldEnd;
      SiftEnds(h, rank, first, table[..oldEnd], table[active..oldActive]);
      assert table[active..size] == table[active..oldActive] + table[oldActive..size];
      darken := ValuesFrom(active, oldActive);
    }

    /** The values in the entries from `lo` to `hi`. */
    method ValuesFrom(lo: nat, hi: nat) returns (vals: seq<int>)
      requires lo <= hi <= table.Length
      ensures vals == Values(table[lo..hi])
    {
      vals := [];
      for i := lo to hi
        invariant vals == Values(table[lo..i])
      {
        assert table[lo..i + 1] == table[lo..i] + [table[i]];
        vals := vals + [table[i].val];
      }
    }

    /** `final_empty_young`: the recent set joins the finalisable set. */
    method EmptyYoung()
      requires Valid()
      modifies `oldEnd
      ensures Valid() && Recent() == [] && Finalisable() == old(Finalisable() + Recent()) &&
              Finalising() == old(Finalising())
    {
      oldEnd := youngEnd;
    }

    /** The countdown in the growth of `final_register`; it is on unsigned numbers, so that -1 here is their maximum. */
    method MoveUp(wider: array<Final>, n: nat, from: nat) returns (ok: bool)
      requires wider.Length == 2 * n && from <= n
      modifies wider
      ensures ok <==> from > 0
      ensures wider[..n] == old(wider[..n]) && (ok ==> wider[n + from..] == old(wider[from..n]))
    {
      ghost var before := wider[..n];
      var i := n - 1;
      while i == -1 || i >= from
        invariant -1 <= i < n && from <= i + 1
        invariant wider[..n] == before && wider[n + i + 1..] == before[i + 1..]
        decreases i + 1
      {
        if i == -1 { return false; }
        ghost var done := wider[n + i + 1..];
        wider[i + n] := wider[i];
        assert wider[n + i..] == [before[i]] + done;
        i := i - 1;
      }
      ok := true;
    }

    /** The growth in `final_register`: doubles the table, its finalising set staying at the end. */
    method Grow() returns (ok: bool)
      requires Valid() && youngEnd == active && size > 0
      modifies this
      ensures ok <==> old(active) > 0
      ensures ok ==>
              Valid() && fresh(table) && size == 2 * old(size) && oldEnd == old(oldEnd) &&
              youngEnd == old(youngEnd) < active
      ensures ok ==>
              Finalisable() == old(Finalisable()) && Recent() == old(Recent()) && Finalising() == old(Finalising())
    {
      ghost var before := table[..];
      var wider := new Final[2 * size];
      forall j | 0 <= j < size { wider[j] := table[j]; }
      assert wider[..size] == before;
      ok := MoveUp(wider, size, active);
      if ok {
        assert wider[..oldEnd] == wider[..size][..oldEnd] && wider[oldEnd..youngEnd] == wider[..size][oldEnd..youngEnd];
        table := wider;
        active := active + size;
        size := 2 * size;
      }
    }

    /**
     * `final_register`: puts the pair in the recent set and leaves the others alone. It reads outside the table exactly
     * when the table must grow while all of it is the finalising set.
     */
    method Register(fun: int, v: int, inHeap: bool, infixOffset: nat) returns (o: Outcome)
      requires Valid()
      modifies this, table
      ensures o.InvalidArgument? <==> !inHeap
      ensures o.InvalidArgument? ==> unchanged(this) && unchanged(table)
      ensures o.Stray? <==> inHeap && old(active) == 0 < old(size)
      ensures o.Registered? ==> size == if old(youngEnd) < old(active) then old(size) else if old(size) == 0 then 30
              else 2 * old(size)
      ensures o.Registered? ==> Valid() && oldEnd == old(oldEnd) && (fresh(table) || table == old(table))
      ensures o.Registered? ==>
              Finalisable() == old(Finalisable()) && Recent() == old(Recent()) + [Final(fun, v - infixOffset)] &&
              Finalising() == old(Finalising())
    {
      if !inHeap { return InvalidArgument; }
      if youngEnd >= active {
        if table.Length == 0 {
          table := new Final[30];
          active, size := 30, 30;
        } else {
          var ok := Grow();
          if !ok { return Stray; }
        }
      }
      Put(Final(fun, v - infixOffset));
      o := Registered;
    }

    method Put(f: Final)
      requires Valid() && youngEnd < active
      modifies `youngEnd, table
      ensures Valid() && Finalisable() == old(Finalisable()) && Recent() == old(Recent()) + [f] &&
              Finalising() == old(Finalising())
    {
      ghost var before := table[..];
      table[youngEnd] := f;
      assert table[..] == before[youngEnd := f];
      youngEnd := youngEnd + 1;
    }
  }

  /** When every value is white and none is a forward block, what an update has to sort out is all white. */
  lemma ResolvedWhite(h: Heap, first: seq<Final>)
    requires h.forward == map[] && Ranked(h, map[]) && AllWhite(h, first)
    ensures forall f {:trigger multiset(ResolveAll(h, map[], first))[f]} ::
            f in multiset(ResolveAll(h, map[], first)) ==> f.val in h.white
  {
    forall f | f in multiset(ResolveAll(h, map[], first))
      ensures f.val in h.white
    {
      var k :| 0 <= k < |first| && ResolveAll(h, map[], first)[k] == f;
      assert first[k].val in h.white;
    }
  }

  lemma NotBoth(h: Heap, s: seq<Final>)
    ensures AllWhite(h, s) && |s| > 0 ==> !NoneWhite(h, s)
  {
    if AllWhite(h, s) && |s| > 0 { assert s[0].val in h.white; }
  }

  lemma PartWhite(h: Heap, kept: seq<Final>, moved: seq<Final>, all: multiset<Final>)
    requires multiset(kept) + multiset(moved) == all && forall f {:trigger all[f]} :: f in all ==> f.val in h.white
    ensures AllWhite(h, kept)
  {
    forall i {:trigger kept[i]} | 0 <= i < |kept|
      ensures kept[i].val in h.white
    {
      assert kept[i] in multiset(kept);
      assert all[kept[i]] > 0;
    }
  }

  lemma KeepsNone(h: Heap, first: seq<Final>, kept: seq<Final>, moved: seq<Final>)
    requires h.forward == map[] && Ranked(h, map[]) && Sifted(h, map[], first, kept, moved) && AllWhite(h, first)
    ensures |kept| == 0
  {
    ResolvedWhite(h, first);
    PartWhite(h, kept, moved, multiset(ResolveAll(h, map[], first)));
    NotBoth(h, kept);
  }

  /** Thirty registrations of the same value, which fill the first table. */
  method FillTable() returns (t: FinalTable)
    ensures fresh(t) && fresh(t.table) && t.Valid() && t.Recent() == [] && |t.Finalisable()| == t.active == t.size == 30
    ensures forall i {:trigger t.Finalisable()[i]} :: 0 <= i < 30 ==> t.Finalisable()[i].val == 7
  {
    t := new FinalTable();
    var o := t.Register(0, 7, true, 0);
    var n := 1;
    while n < 30
      invariant 1 <= n <= 30 && t.Valid() && fresh(t) && fresh(t.table) && t.Finalising() == [] &&
                t.Finalisable() == [] && |t.Recent()| == n && t.size == 30
      invariant forall i {:trigger t.Recent()[i]} :: 0 <= i < n ==> t.Recent()[i].val == 7
    {
      o := t.Register(0, 7, true, 0);
      n := n + 1;
    }
    t.EmptyYoung();
  }

  /** The stray read is reached: a full table, an update that finds every value white, and one more registration. */
  method ReachStray() returns (o: Outcome)
    ensures o == Stray
  {
    hide Sifted, ResolveAll;
    var t := FillTable();
    var h := Heap({7}, map[]);
    ghost var first := t.Finalisable();
    var darken := t.Update(h, map[]);
    KeepsNone(h, first, t.Finalisable(), t.table[t.active..30]);
    SiftedSize(h, map[], first, t.Finalisable(), t.table[t.active..30]);
    o := t.Register(0, 7, true, 0);
  }

  lemma SiftedSize(h: Heap, rank: map<int, nat>, first: seq<Final>, kept: seq<Final>, moved: seq<Final>)
    requires Ranked(h, rank) && Sifted(h, rank, first, kept, moved)
    ensures |kept| + |moved| == |first|
  {
  }
}
