/**
 * Calling the finalisation functions. A function may do anything while it is called: register more values, let the
 * collectors run, call the finalisation functions again, or raise an exception.
 */
module FinalCalls {
  import opened Finalise

  /**
   * What the functions do, in the order of time; each ends by returning or by an exception, which another may catch.
   */
  datatype Act =
    | Register(fun: int, v: int, inHeap: bool, infixOffset: nat)
    | Minor
    | Major(h: Heap, rank: map<int, nat>)
    | Calls
    | Return
    | Raise

  datatype End = Finished | Raised | Strayed

  ghost predicate Sensible(acts: seq<Act>) {
    forall i {:trigger acts[i]} :: 0 <= i < |acts| && acts[i].Major? ==> Ranked(acts[i].h, acts[i].rank)
  }

  ghost predicate NoMajor(acts: seq<Act>) { forall i {:trigger acts[i]} :: 0 <= i < |acts| ==> !acts[i].Major? }

  // ---- Accounts of one function -------------------------------------------------------------------------------------

  /** How many pairs have function `g`. */
  ghost function Count(s: seq<Final>, g: int): nat {
    if |s| == 0 then 0 else Count(s[..|s| - 1], g) + if s[|s| - 1].fun == g then 1 else 0
  }

  lemma {:induction false} CountConcat(a: seq<Final>, b: seq<Final>, g: int)
    ensures Count(a + b, g) == Count(a, g) + Count(b, g)
    decreases |b|
  {
    if |b| == 0 {
      assert a + b == a;
    } else {
      CountConcat(a, b[..|b| - 1], g);
      assert (a + b)[..|a + b| - 1] == a + b[..|b| - 1];
    }
  }

  lemma CountOne(f: Final, g: int)
    ensures Count([f], g) == if f.fun == g then 1 else 0
  {
    assert [f][..0] == [];
  }

  lemma WithoutOne(s: seq<Final>, k: nat)
    requires k < |s|
    ensures multiset(s) == multiset(s[..k] + s[k + 1..]) + multiset{s[k]}
  {
    assert s == (s[..k] + [s[k]]) + s[k + 1..];
  }

  lemma Cancel(x: multiset<Final>, y: multiset<Final>, f: Final)
    requires x + multiset{f} == y + multiset{f}
    ensures x == y
  {
    assert x == (x + multiset{f}) - multiset{f} && y == (y + multiset{f}) - multiset{f};
  }

  lemma CountNone(g: int)
    ensures Count([], g) == 0
  {
  }

  /** Taking an element out of two permutations of the same pairs. */
  lemma TakeOut(a: seq<Final>, b: seq<Final>) returns (k: nat)
    requires multiset(a) == multiset(b) && |a| > 0
    ensures k < |b| && b[k] == a[|a| - 1] && multiset(a[..|a| - 1]) == multiset(b[..k] + b[k + 1..])
  {
    var n := |a| - 1;
    assert a[n] in multiset(b);
    k :| 0 <= k < |b| && b[k] == a[n];
    WithoutOne(a, n);
    assert a[..n] + a[n + 1..] == a[..n];
    WithoutOne(b, k);
    Cancel(multiset(a[..n]), multiset(b[..k] + b[k + 1..]), a[n]);
  }

  /** The order of the pairs does not matter. */
  lemma {:induction false} CountBag(a: seq<Final>, b: seq<Final>, g: int)
    requires multiset(a) == multiset(b)
    ensures Count(a, g) == Count(b, g)
    decreases |a|
  {
    assert |a| == |multiset(a)| == |multiset(b)| == |b|;
    if |a| > 0 {
      var k := TakeOut(a, b);
      CountBag(a[..|a| - 1], b[..k] + b[k + 1..], g);
      assert b == b[..k] + ([b[k]] + b[k + 1..]);
      CountOne(b[k], g);
      CountConcat(b[..k], [b[k]] + b[k + 1..], g);
      CountConcat([b[k]], b[k + 1..], g);
      CountConcat(b[..k], b[k + 1..], g);
    }
  }

  /** Following forward blocks keeps the functions. */
  lemma {:induction false} ResolveCount(h: Heap, rank: map<int, nat>, s: seq<Final>, g: int)
    requires Ranked(h, rank)
    ensures Count(ResolveAll(h, rank, s), g) == Count(s, g)
    decreases |s|
  {
    if |s| > 0 {
      var r := s[..|s| - 1];
      ResolveCount(h, rank, r, g);
      assert ResolveAll(h, rank, s)[..|s| - 1] == ResolveAll(h, rank, r);
    }
  }

  /** An update of the table loses no function and doubles none. */
  lemma SiftedCount(h: Heap, rank: map<int, nat>, first: seq<Final>, kept: seq<Final>, moved: seq<Final>, g: int)
    requires Ranked(h, rank) && Sifted(h, rank, first, kept, moved)
    ensures Count(kept, g) + Count(moved, g) == Count(first, g)
  {
    hide ResolveAll, Count;
    CountConcat(kept, moved, g);
    assert multiset(kept + moved) == multiset(kept) + multiset(moved);
    CountBag(kept + moved, ResolveAll(h, rank, first), g);
    ResolveCount(h, rank, first, g);
  }

  /** How many times `acts` registers `g`. */
  ghost function Given(acts: seq<Act>, g: int): nat {
    if |acts| == 0 then 0 else Given(acts[..|acts| - 1], g) + GivenBy(acts[|acts| - 1], g)
  }

  ghost function GivenBy(a: Act, g: int): nat { if a.Register? && a.inHeap && a.fun == g then 1 else 0 }

  lemma {:induction false} GivenConcat(a: seq<Act>, b: seq<Act>, g: int)
    ensures Given(a + b, g) == Given(a, g) + Given(b, g)
    decreases |b|
  {
    if |b| == 0 {
      assert a + b == a;
    } else {
      GivenConcat(a, b[..|b| - 1], g);
      assert (a + b)[..|a + b| - 1] == a + b[..|b| - 1];
    }
  }

  lemma GivenOne(a: Act, g: int)
    ensures Given([a], g) == GivenBy(a, g)
  {
    assert [a][..0] == [];
  }

  /** How many pairs in the table have function `g`. */
  ghost function Held(t: FinalTable, g: int): nat
    reads t, t.table
    requires t.Valid()
  {
    Count(t.Finalisable(), g) + Count(t.Recent(), g) + Count(t.Finalising(), g)
  }

  /**
   * From a table that held `g` `held0` times and was to finalise `queue0`, the acts `done` have led to the calls
   * `called` and to a table that holds it `held` times and is to finalise `queue`: as often as it was in the table, or
   * has been registered since, it has been called or is there still. Without a major collection, the calls are in the
   * order of the table.
   */
  ghost predicate Accounts(g: int, held0: nat, queue0: seq<Final>, done: seq<Act>, called: seq<Final>, held: nat,
                           queue: seq<Final>)
  {
    && Count(called, g) + held == held0 + Given(done, g)
    && (NoMajor(done) ==> called + queue == queue0)
  }

  lemma AccountsStart(g: int, held: nat, queue: seq<Final>)
    ensures Accounts(g, held, queue, [], [], held, queue)
  {
    assert [] + queue == queue;
  }

  lemma AccountsMore(g: int, held0: nat, queue0: seq<Final>, done: seq<Act>, called: seq<Final>, held: nat,
                     queue: seq<Final>, more: seq<Act>, calls: seq<Final>, held': nat, queue': seq<Final>)
    requires Accounts(g, held0, queue0, done, called, held, queue)
    requires Accounts(g, held, queue, more, calls, held', queue')
    ensures Accounts(g, held0, queue0, done + more, called + calls, held', queue')
  {
    hide Count, Given;
    CountConcat(called, calls, g);
    GivenConcat(done, more, g);
    if NoMajor(done + more) {
      assert forall i {:trigger done[i]} :: 0 <= i < |done| ==> done[i] == (done + more)[i];
      assert forall i {:trigger more[i]} :: 0 <= i < |more| ==> more[i] == (done + more)[|done| + i];
      assert (called + calls) + queue' == called + (calls + queue');
    }
  }

  // ---- The calls ----------------------------------------------------------------------------------------------------

  /** A minor collection and a finalisation step of the major one. */
  method Collect(t: FinalTable, h: Heap, rank: map<int, nat>, ghost g: int)
    requires t.Valid() && Ranked(h, rank)
    modifies t, t.table
    ensures t.Valid() && t.table == old(t.table) && Held(t, g) == old(Held(t, g))
  {
    hide Count, Sifted, Ranked;
    CountConcat(t.Finalisable(), t.Recent(), g);
    t.EmptyYoung();
    ghost var first, queue := t.Finalisable(), t.Finalising();
    var _ := t.Update(h, rank);
    ghost var moved := t.Finalising()[..|t.Finalising()| - |queue|];
    assert t.Finalising() == moved + queue;
    SiftedCount(h, rank, first, t.Finalisable(), moved, g);
    CountConcat(moved, queue, g);
    CountNone(g);
    assert t.Recent() == [];
  }

  /** A registration or a collection. */
  method Perform(t: FinalTable, a: Act, ghost g: int) returns (stray: bool)
    requires t.Valid() && (a.Register? || a.Minor? || a.Major?) && (a.Major? ==> Ranked(a.h, a.rank))
    modifies t, t.table
    ensures !stray ==> t.Valid() && (fresh(t.table) || t.table == old(t.table))
    ensures !stray ==> Accounts(g, old(Held(t, g)), old(t.Finalising()), [a], [], Held(t, g), t.Finalising())
  {
    hide Count, Given, Ranked;
    stray := false;
    GivenOne(a, g);
    CountNone(g);
    match a {
      case Register(fun, v, inHeap, infixOffset) =>
        var o := t.Register(fun, v, inHeap, infixOffset);
        stray := o.Stray?;
        if o.Registered? {
          CountOne(Final(fun, v - infixOffset), g);
          CountConcat(old(t.Recent()), [Final(fun, v - infixOffset)], g);
        }
      case Minor =>
        CountConcat(t.Finalisable(), t.Recent(), g);
        t.EmptyYoung();
      case Major(h, rank) =>
        Collect(t, h, rank, g);
        assert [a][0].Major?;
    }
    assert !stray && !a.Major? ==> [] + t.Finalising() == old(t.Finalising());
  }

  /** The next thing that a function does; `over` tells that it ends. */
  method Next(t: FinalTable, acts: seq<Act>, ghost g: int)
    returns (o: End, over: bool, called: seq<Final>, ghost done: seq<Act>, rest: seq<Act>)
    requires t.Valid() && Sensible(acts) && |acts| > 0
    modifies t, t.table
    ensures acts == done + rest && |done| > 0 && (!over ==> !o.Raised?)
    ensures !o.Strayed? ==> t.Valid() && (fresh(t.table) || t.table == old(t.table))
    ensures !o.Strayed? ==> Accounts(g, old(Held(t, g)), old(t.Finalising()), done, called, Held(t, g), t.Finalising())
    decreases |acts|, 0
  {
    hide Accounts, Held, Ranked, Sensible;
    var a := acts[0];
    SensibleParts(acts, [a], acts[1..]);
    o, over, called, done, rest := Finished, a.Return? || a.Raise?, [], [a], acts[1..];
    if over {
      Silent(g, Held(t, g), t.Finalising(), a);
      if a.Raise? { o := Raised; }
    } else if a.Calls? {
      ghost var held, queue, d := Held(t, g), t.Finalising(), [];
      Silent(g, held, queue, a);
      o, called, d, rest := DoCalls(t, rest, g);
      if !o.Strayed? { AccountsMore(g, held, queue, [a], [], held, queue, d, called, Held(t, g), t.Finalising()); }
      assert [] + called == called;
      done := [a] + d;
      if o.Raised? { o := Finished; }
    } else {
      var stray := Perform(t, a, g);
      if stray { o := Strayed; }
    }
  }

  lemma SensibleParts(acts: seq<Act>, done: seq<Act>, rest: seq<Act>)
    requires acts == done + rest && Sensible(acts)
    ensures Sensible(rest) && (|done| > 0 && done[0].Major? ==> Ranked(done[0].h, done[0].rank))
  {
    assert forall i {:trigger rest[i]} :: 0 <= i < |rest| ==> rest[i] == acts[|done| + i];
    if |done| > 0 { assert done[0] == acts[0]; }
  }

  /** One function, from its call to its end. */
  method Callback(t: FinalTable, acts: seq<Act>, ghost g: int)
    returns (o: End, called: seq<Final>, ghost done: seq<Act>, rest: seq<Act>)
    requires t.Valid() && Sensible(acts)
    modifies t, t.table
    ensures acts == done + rest && (|acts| > 0 ==> |done| > 0) && (|acts| == 0 ==> unchanged(t))
    ensures !o.Strayed? ==> t.Valid() && (fresh(t.table) || t.table == old(t.table))
    ensures !o.Strayed? ==> Accounts(g, old(Held(t, g)), old(t.Finalising()), done, called, Held(t, g), t.Finalising())
    decreases |acts|, 1
  {
    hide Accounts, Held, Ranked, Sensible;
    o, called, done, rest := Finished, [], [], acts;
    AccountsStart(g, Held(t, g), t.Finalising());
    var over := false;
    while !over && |rest| > 0
      invariant acts == done + rest && t.Valid() && (fresh(t.table) || t.table == old(t.table)) && !o.Strayed?
      invariant (over ==> |done| > 0) && (|acts| == 0 ==> unchanged(t))
      invariant Accounts(g, old(Held(t, g)), old(t.Finalising()), done, called, Held(t, g), t.Finalising())
      decreases |rest|
    {
      ghost var held, queue, d := Held(t, g), t.Finalising(), [];
      SensibleParts(acts, done, rest);
      var c;
      o, over, c, d, rest := Next(t, rest, g);
      ghost var before := done;
      done := done + d;
      if o.Strayed? { return; }
      AccountsMore(g, old(Held(t, g)), old(t.Finalising()), before, called, held, queue, d, c, Held(t, g),
                   t.Finalising());
      called := called + c;
    }
  }

  /** Taking the first pair of the queue to call it. */
  lemma TakeOne(g: int, others: nat, queue: seq<Final>)
    requires |queue| > 0
    ensures Accounts(g, others + Count(queue, g), queue, [], [queue[0]], others + Count(queue[1..], g), queue[1..])
  {
    assert queue == [queue[0]] + queue[1..];
    CountConcat([queue[0]], queue[1..], g);
    CountOne(queue[0], g);
  }

  /** Takes the next pair off the table. */
  method Take(t: FinalTable, ghost g: int) returns (f: Final)
    requires t.Valid() && t.active < t.size
    modifies t`active
    ensures t.Valid() && t.active == old(t.active) + 1
    ensures Accounts(g, old(Held(t, g)), old(t.Finalising()), [], [f], Held(t, g), t.Finalising())
  {
    f := t.table[t.active];
    TakeOne(g, Count(t.Finalisable(), g) + Count(t.Recent(), g), t.Finalising());
    t.active := t.active + 1;
    assert t.Finalising() == old(t.Finalising())[1..];
  }

  /** An act that leaves the table alone. */
  lemma Silent(g: int, held: nat, queue: seq<Final>, a: Act)
    requires a.Return? || a.Raise? || a.Calls?
    ensures Accounts(g, held, queue, [a], [], held, queue)
  {
    GivenOne(a, g);
    assert [] + queue == queue;
  }

  /**
   * `final_do_calls`, which must be reentrant: whatever the functions do, each pair is called once, here or by a call
   * in between, and none is left; after an exception those not called are still there. The registrations in between
   * stray out of the table as `final_register` does.
   */
  method DoCalls(t: FinalTable, acts: seq<Act>, ghost g: int)
    returns (o: End, called: seq<Final>, ghost done: seq<Act>, rest: seq<Act>)
    requires t.Valid() && Sensible(acts)
    modifies t, t.table
    ensures acts == done + rest
    ensures !o.Strayed? ==> t.Valid() && (fresh(t.table) || t.table == old(t.table))
    ensures !o.Strayed? ==> Accounts(g, old(Held(t, g)), old(t.Finalising()), done, called, Held(t, g), t.Finalising())
    ensures o.Finished? ==> t.Finalising() == []
    decreases |acts|, 2
  {
    hide Accounts, Held, Ranked, Sensible, Count;
    o, called, done, rest := Finished, [], [], acts;
    AccountsStart(g, Held(t, g), t.Finalising());
    while t.active < t.size
      invariant acts == done + rest && t.Valid() && (fresh(t.table) || t.table == old(t.table)) && o == Finished
      invariant Accounts(g, old(Held(t, g)), old(t.Finalising()), done, called, Held(t, g), t.Finalising())
      decreases |rest|, t.size - t.active
    {
      ghost var held, queue, before, d := Held(t, g), t.Finalising(), done, [];
      SensibleParts(acts, done, rest);
      var f := Take(t, g);
      ghost var held1, queue1 := Held(t, g), t.Finalising();
      AccountsMore(g, old(Held(t, g)), old(t.Finalising()), done, called, held, queue, [], [f], held1, queue1);
      assert done + [] == done;
      called := called + [f];
      var c;
      o, c, d, rest := Callback(t, rest, g);
      done := done + d;
      if o.Strayed? { return; }
      AccountsMore(g, old(Held(t, g)), old(t.Finalising()), before, called, held1, queue1, d, c, Held(t, g),
                   t.Finalising());
      called := called + c;
      if o.Raised? { return; }
    }
  }
}
