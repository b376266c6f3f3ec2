/** The skip list of global roots. */
module SkipList {
  import opened Congruential

  const MAX_LEVEL: nat := 15
  const HEAD: int := 0
  const NIL: int := -1

  /** Nodes by root address, with their links, one a level; the list head is node zero. */
  type Nodes = map<int, seq<int>>

  /** The node is linked at level `i`. */
  predicate On(n: Nodes, i: int, a: int) { a in n && 0 <= i < |n[a]| }

  /** `f` is the node after `a` at level `i`. */
  ghost predicate IsNext(n: Nodes, i: int, a: int, f: int) {
    && (f == NIL || (On(n, i, f) && f > a))
    && forall k {:trigger On(n, i, k)} :: On(n, i, k) && k > a ==> f != NIL && f <= k
  }

  ghost predicate Linked(n: Nodes) {
    && HEAD in n && |n[HEAD]| == MAX_LEVEL
    && (forall a {:trigger n[a]} :: a in n ==> a >= HEAD && 0 < |n[a]| <= MAX_LEVEL)
    && (forall i, a {:trigger On(n, i, a)} :: On(n, i, a) ==> IsNext(n, i, a, n[a][i]))
  }

  /** The level is the highest one in use, or zero. */
  ghost predicate TopLevel(n: Nodes, level: int) {
    && HEAD in n && |n[HEAD]| == MAX_LEVEL && 0 <= level < MAX_LEVEL
    && (level > 0 ==> n[HEAD][level] != NIL)
    && (forall i {:trigger n[HEAD][i]} :: level < i < MAX_LEVEL ==> n[HEAD][i] == NIL)
  }

  /** The registered roots. */
  function Roots(n: Nodes): set<int> { set a | a in n && a > HEAD }

  // ---- What the links say ---------------------------------------------------------------------------------

  /** The roots linked at a level. */
  function At(n: Nodes, i: int): set<int> { set a | a in n && a > HEAD && 0 <= i < |n[a]| }

  /** Every level is part of the level below, and the lowest one holds all the roots. */
  lemma Levels(n: Nodes, i: nat)
    requires Linked(n)
    ensures At(n, i + 1) <= At(n, i) && At(n, 0) == Roots(n)
  {
    forall a | a in Roots(n) ensures a in At(n, 0) { assert |n[a]| > 0; }
  }

  /** No link above the top level. */
  lemma NothingAbove(n: Nodes, level: int, i: int, a: int)
    requires Linked(n) && TopLevel(n, level) && i > level && On(n, i, a)
    ensures a == HEAD
  {
    assert |n[a]| <= MAX_LEVEL && a >= HEAD;
    assert On(n, i, HEAD) && n[HEAD][i] == NIL && IsNext(n, i, HEAD, n[HEAD][i]);
  }

  /** The list that following the links of a level from `a` gives. */
  function Walk(n: Nodes, i: int, a: int, fuel: nat): seq<int>
    decreases fuel
  {
    if fuel > 0 && On(n, i, a) && n[a][i] != NIL then [n[a][i]] + Walk(n, i, n[a][i], fuel - 1) else []
  }

  ghost predicate Increasing(s: seq<int>) { forall j, k {:trigger s[j], s[k]} :: 0 <= j < k < |s| ==> s[j] < s[k] }

  /** Following the links of a level gives its roots in increasing order, without repetition. */
  lemma {:induction false} WalkSorted(n: Nodes, i: int, a: int, fuel: nat)
    requires Linked(n) && On(n, i, a)
    ensures var w := Walk(n, i, a, fuel);
            Increasing(w) && forall j {:trigger w[j]} :: 0 <= j < |w| ==> w[j] > a && On(n, i, w[j])
    decreases fuel
  {
    assert IsNext(n, i, a, n[a][i]);
    if fuel > 0 && n[a][i] != NIL {
      var f := n[a][i];
      WalkSorted(n, i, f, fuel - 1);
      var w, t := Walk(n, i, a, fuel), Walk(n, i, f, fuel - 1);
      assert w == [f] + t;
      assert forall j {:trigger w[j]} :: 1 <= j < |w| ==> w[j] == t[j - 1];
    }
  }

  /** And it misses none of them. */
  lemma {:induction false} WalkMeets(n: Nodes, i: int, a: int, b: int, fuel: nat)
    requires Linked(n) && On(n, i, a) && On(n, i, b) && b > a && fuel >= b - a
    ensures b in Walk(n, i, a, fuel)
    decreases b - a
  {
    assert IsNext(n, i, a, n[a][i]);
    var f := n[a][i];
    if f != b { WalkMeets(n, i, f, b, fuel - 1); }
  }

  // ---- The level of a new node ------------------------------------------------------------------------------

  function Pow4(k: nat): nat { if k == 0 then 1 else 4 * Pow4(k - 1) }

  lemma {:induction false} Pow4Mono(i: nat, j: nat)
    requires i <= j
    ensures 1 <= Pow4(i) <= Pow4(j)
  {
    if i < j { Pow4Mono(i, j - 1); } else if i > 0 { Pow4Mono(i - 1, j - 1); }
  }

  lemma Pow4Values()
    ensures Pow4(14) == 0x1000_0000 && Pow4(15) == 0x4000_0000
  {
    assert Pow4(4) == 256;
    assert Pow4(8) == 0x1_0000;
    assert Pow4(12) == 0x100_0000;
  }

  lemma MulMono(m: nat, p: nat, q: nat)
    requires p <= q
    ensures m * p <= m * q
  {
  }

  lemma LevelBound(m: nat, level: nat)
    requires m >= 1 && m * Pow4(level) <= WORD < 4 * (m * Pow4(level))
    ensures level < MAX_LEVEL <==> m > 4
  {
    Pow4Values();
    if level >= 15 {
      Pow4Mono(15, level);
      MulMono(m, Pow4(15), Pow4(level));
    } else {
      Pow4Mono(level, 14);
      MulMono(m, Pow4(level), Pow4(14));
    }
  }

  lemma Pow4Zero()
    ensures Pow4(0) == 1
  {
  }

  lemma ShiftPair(r: int, q: int, m: int, level: nat)
    requires r == WORD - q && r >= 0xC000_0000 && 1 <= q && q == m * Pow4(level)
    ensures (r * 4) % WORD == WORD - 4 * q && 4 * q <= WORD && q * 4 == m * Pow4(level + 1)
  {
    assert r * 4 == 3 * WORD + (WORD - 4 * q);
  }

  /** The number drawn has exactly `level` pairs of ones in front: a quarter of the numbers have one more. */
  ghost predicate DrawnLevel(next: int, level: nat) {
    Pow4(level) * (0x1_0000_0000 - next) <= 0x1_0000_0000 < 4 * Pow4(level) * (0x1_0000_0000 - next)
  }

  /**
   * `random_level`. The level drawn fits the `MAX_LEVEL` links of the list head, and the array of
   * `register_global_root`, if and only if the number drawn is below `0xFFFFFFFC`.
   */
  method RandomLevel(seed: int) returns (next: int, level: nat)
    requires 0 <= seed < WORD
    ensures next == NextSeed(seed) == (seed * 69069 + 25173) % 0x1_0000_0000 && DrawnLevel(next, level)
    ensures level < MAX_LEVEL <==> next < 0xFFFF_FFFC
  {
    hide Pow4;
    next := NextSeed(seed);
    level := 0;
    var r := next;
    Pow4Zero();
    ghost var m, q := WORD - next, WORD - next;
    while r >= 0xC000_0000
      invariant 1 <= q <= WORD && r == WORD - q && q == m * Pow4(level)
      decreases WORD - q
    {
      ShiftPair(r, q, m, level);
      level := level + 1;
      r := (r * 4) % WORD;
      q := q * 4;
    }
    LevelBound(m, level);
  }

  // ---- Searching -----------------------------------------------------------------------------------------------

  /** `u` is the last node below `r` at level `i`. */
  ghost predicate IsPred(n: Nodes, i: int, r: int, u: int) {
    On(n, i, u) && u < r && (n[u][i] == NIL || n[u][i] >= r)
  }

  ghost predicate Preds(n: Nodes, level: int, r: int, update: seq<int>) {
    |update| == MAX_LEVEL && forall i {:trigger update[i]} :: 0 <= i <= level < MAX_LEVEL ==> IsPred(n, i, r, update[i])
  }

  lemma FoundNext(n: Nodes, r: int, u: int)
    requires Linked(n) && IsPred(n, 0, r, u)
    ensures n[u][0] == r <==> r in n
  {
    if r in n { assert |n[r]| > 0 && On(n, 0, r); }
    assert IsNext(n, 0, u, n[u][0]);
  }

  // ---- Inserting -----------------------------------------------------------------------------------------------

  /** Node `r` is linked after `update[j]` at the levels `j` below `i`, and not yet at the others. */
  ghost predicate Inserting(n: Nodes, n': Nodes, r: int, lvl: nat, update: seq<int>, i: nat) {
    && i <= lvl + 1 <= MAX_LEVEL == |update|
    && n'.Keys == n.Keys + {r} && |n'[r]| == lvl + 1
    && (forall a {:trigger n'[a]} :: a in n && a != r ==> |n'[a]| == |n[a]|)
    && (forall a, j {:trigger n'[a][j]} :: a in n && a != r && 0 <= j < |n[a]| == |n'[a]| ==>
          n'[a][j] == if j < i && update[j] == a then r else n[a][j])
    && (forall j {:trigger update[j]} {:trigger n'[r][j]} :: 0 <= j < i ==>
        On(n, j, update[j]) && n'[r][j] == n[update[j]][j])
  }

  lemma InsertOn(n: Nodes, n': Nodes, r: int, lvl: nat, update: seq<int>, i: int, a: int)
    requires Inserting(n, n', r, lvl, update, lvl + 1) && r !in n
    ensures On(n', i, a) <==> (On(n, i, a) || (a == r && 0 <= i <= lvl))
  {
    if a in n { assert |n'[a]| == |n[a]|; }
  }

  lemma InsertNext(n: Nodes, n': Nodes, r: int, lvl: nat, update: seq<int>, i: int, a: int)
    requires Linked(n) && Inserting(n, n', r, lvl, update, lvl + 1) && r !in n && Preds(n, lvl, r, update) &&
             On(n', i, a)
    ensures IsNext(n', i, a, n'[a][i])
  {
    forall k
      ensures On(n', i, k) <==> (On(n, i, k) || (k == r && 0 <= i <= lvl))
    {
      InsertOn(n, n', r, lvl, update, i, k);
    }
    hide Inserting;
    if i <= lvl {
      var u := update[i];
      assert IsPred(n, i, r, u) && IsNext(n, i, u, n[u][i]);
      assert On(n, i, a) ==> IsNext(n, i, a, n[a][i]);
      assert n'[a][i] == if a == r then n[u][i] else if a == u then r else n[a][i] by {
        InsertLink(n, n', r, lvl, update, i, a);
      }
    } else {
      assert n'[a][i] == n[a][i] by { InsertLink(n, n', r, lvl, update, i, a); }
      assert IsNext(n, i, a, n[a][i]);
    }
  }

  lemma InsertLink(n: Nodes, n': Nodes, r: int, lvl: nat, update: seq<int>, i: int, a: int)
    requires Inserting(n, n', r, lvl, update, lvl + 1) && r !in n && On(n', i, a)
    ensures i <= lvl ==> On(n, i, update[i]) && n'[a][i] == if a == r then n[update[i]][i] else if a == update[i] then r
            else if On(n, i, a) then n[a][i] else NIL
    ensures i > lvl ==> On(n, i, a) && n'[a][i] == n[a][i]
  {
    if i <= lvl { assert On(n, i, update[i]); }
    if a != r { assert |n'[a]| == |n[a]|; }
  }

  /** The nodes other than `r` keep their levels. */
  ghost predicate Heights(n: Nodes, n': Nodes, r: int) {
    forall a {:trigger n'[a]} :: a in n && a in n' && a != r ==> |n'[a]| == |n[a]|
  }

  lemma InsertHeights(n: Nodes, n': Nodes, r: int, lvl: nat, update: seq<int>)
    requires Inserting(n, n', r, lvl, update, lvl + 1)
    ensures r in n' && Heights(n, n', r) && |n'[r]| == lvl + 1
  {
  }

  lemma InsertLinked(n: Nodes, n': Nodes, r: int, lvl: nat, update: seq<int>)
    requires Linked(n) && Inserting(n, n', r, lvl, update, lvl + 1) && r !in n && r > HEAD && Preds(n, lvl, r, update)
    ensures Linked(n') && Roots(n') == Roots(n) + {r}
  {
    forall a | a in n' ensures a >= HEAD && 0 < |n'[a]| <= MAX_LEVEL { if a != r { assert |n'[a]| == |n[a]|; } }
    assert |n'[HEAD]| == |n[HEAD]|;
    hide Inserting, IsNext;
    forall i, a | On(n', i, a) ensures IsNext(n', i, a, n'[a][i]) { InsertNext(n, n', r, lvl, update, i, a); }
  }

  // ---- Removing ------------------------------------------------------------------------------------------------

  /** Node `r` is unlinked at the levels below `i`. */
  ghost predicate Removing(n: Nodes, n': Nodes, r: int, update: seq<int>, i: int) {
    && 0 <= i <= MAX_LEVEL == |update| && r in n
    && n'.Keys == n.Keys && n'[r] == n[r]
    && (forall a {:trigger n'[a]} :: a in n && a != r ==> |n'[a]| == |n[a]|)
    && (forall a, j {:trigger n'[a][j]} :: a in n && a != r && 0 <= j < |n[a]| == |n'[a]| ==>
          n'[a][j] == if j < i && j < |n[r]| && update[j] == a then n[r][j] else n[a][j])
  }

  lemma RemoveHeights(n: Nodes, n': Nodes, r: int, level: int, update: seq<int>)
    requires Removing(n, n', r, update, level + 1)
    ensures Heights(n, n' - {r}, r)
  {
  }

  lemma RemoveNext(n: Nodes, n': Nodes, r: int, level: int, update: seq<int>, i: int, a: int)
    requires Linked(n) && Removing(n, n', r, update, level + 1) && TopLevel(n, level) && Preds(n, level, r, update) &&
             r > HEAD
    requires On(n', i, a) && a != r
    ensures IsNext(n' - {r}, i, a, n'[a][i])
  {
    var m := n' - {r};
    forall k ensures On(m, i, k) <==> On(n, i, k) && k != r { if k in n && k != r { assert |n'[k]| == |n[k]|; } }
    assert On(n, i, a) && IsNext(n, i, a, n[a][i]);
    if i < |n[r]| {
      assert On(n, i, r) && IsNext(n, i, r, n[r][i]);
      assert i <= level by { if i > level { NothingAbove(n, level, i, r); } }
      var u := update[i];
      assert IsPred(n, i, r, u) && IsNext(n, i, u, n[u][i]);
    }
  }

  lemma RemoveLinked(n: Nodes, n': Nodes, r: int, level: int, update: seq<int>)
    requires Linked(n) && Removing(n, n', r, update, level + 1) && TopLevel(n, level) && Preds(n, level, r, update) &&
             r > HEAD
    ensures Linked(n' - {r}) && Roots(n' - {r}) == Roots(n) - {r}
  {
    var m := n' - {r};
    forall a | a in m ensures a >= HEAD && 0 < |m[a]| <= MAX_LEVEL { assert |n'[a]| == |n[a]| && |n[a]| > 0; }
    assert |n'[HEAD]| == |n[HEAD]|;
    hide IsNext, Preds, TopLevel;
    forall i, a | On(m, i, a) ensures IsNext(m, i, a, m[a][i]) { RemoveNext(n, n', r, level, update, i, a); }
  }

  class GlobalRoots {
    var nodes: Nodes
    var level: int
    var seed: int

    ghost predicate Valid()
      reads this
    {
      Linked(nodes) && TopLevel(nodes, level) && 0 <= seed < WORD
    }

    constructor ()
      ensures Valid() && Roots(nodes) == {} && nodes.Keys == {HEAD} && seed == 0
    {
      nodes, level, seed := map[HEAD := seq(MAX_LEVEL, _ => NIL)], 0, 0;
    }

    /** The search shared by registration and removal: the last node below `r`, at each level in use. */
    method Search(r: int) returns (update: seq<int>)
      requires Valid() && r > HEAD
      ensures Preds(nodes, level, r, update)
    {
      hide IsNext;
      update := seq(MAX_LEVEL, _ => HEAD);
      var e, i := HEAD, level;
      while i >= 0
        invariant -1 <= i <= level && |update| == MAX_LEVEL && e < r && On(nodes, if i >= 0 then i else 0, e)
        invariant forall j {:trigger update[j]} :: i < j <= level ==> IsPred(nodes, j, r, update[j])
        decreases i
      {
        while nodes[e][i] != NIL && nodes[e][i] < r
          invariant On(nodes, i, e) && e < r
          decreases r - e
        {
          NextUp(nodes, i, e);
          e := nodes[e][i];
        }
        update := update[i := e];
        i := i - 1;
      }
    }

    /**
     * `register_global_root`. A root that is there already is left alone; a new one draws a level, which strays out of
     * the arrays exactly when the number drawn is at least `0xFFFFFFFC`.
     */
    method Register(r: int) returns (stray: bool)
      requires Valid() && r > HEAD
      modifies this
      ensures seed == if r in Roots(old(nodes)) then old(seed) else NextSeed(old(seed))
      ensures stray <==> r !in Roots(old(nodes)) && seed >= 0xFFFF_FFFC
      ensures !stray ==> Valid() && Roots(nodes) == Roots(old(nodes)) + {r} && nodes.Keys == old(nodes.Keys) + {r}
      ensures !stray && r in Roots(old(nodes)) ==> nodes == old(nodes)
      ensures !stray && r !in Roots(old(nodes)) ==>
                r in nodes && Heights(old(nodes), nodes, r) && |nodes[r]| > 0 && DrawnLevel(seed, |nodes[r]| - 1)
    {
      hide IsNext, Preds, IsPred, NextSeed, DrawnLevel;
      var update := Search(r);
      SearchEnd(nodes, level, r, update);
      stray := false;
      if nodes[update[0]][0] == r {
        Present(nodes, r);
        return;
      }
      var lvl;
      seed, lvl := RandomLevel(seed);
      SeedInRange(old(seed));
      if lvl >= MAX_LEVEL { return true; }
      Insert(r, lvl, update);
    }

    /** The insertion in `register_global_root`, at any level below `MAX_LEVEL`. */
    method Insert(r: int, lvl: nat, update0: seq<int>)
      requires Valid() && r > HEAD && r !in nodes && lvl < MAX_LEVEL && Preds(nodes, level, r, update0)
      modifies `nodes, `level
      ensures Valid() && Roots(nodes) == Roots(old(nodes)) + {r} && nodes.Keys == old(nodes.Keys) + {r}
      ensures r in nodes && Heights(old(nodes), nodes, r) && |nodes[r]| == lvl + 1
    {
      hide IsNext, Inserting, Preds, IsPred;
      var update := update0;
      PredsSize(nodes, level, r, update);
      var i;
      ghost var n, top := nodes, level;
      if lvl > level {
        i := level + 1;
        while i <= lvl
          invariant level < i <= lvl + 1 && |update| == MAX_LEVEL && Preds(nodes, i - 1, r, update)
          invariant nodes == n && level == top
        {
          HeadPred(nodes, level, r, update, i);
          update := update[i := HEAD];
          i := i + 1;
        }
        level := lvl;
      } else {
        FewerPreds(nodes, level, lvl, r, update);
      }
      nodes := nodes[r := seq(lvl + 1, _ => NIL)];
      InsertNone(n, nodes, r, lvl, update);
      i := 0;
      while i <= lvl
        invariant 0 <= i <= lvl + 1 && Inserting(n, nodes, r, lvl, update, i) && level == if lvl > top then lvl else top
      {
        InsertStep(n, nodes, r, lvl, update, i);
        nodes := nodes[r := nodes[r][i := nodes[update[i]][i]]];
        nodes := nodes[update[i] := nodes[update[i]][i := r]];
        i := i + 1;
      }
      InsertLinked(n, nodes, r, lvl, update);
      InsertHeights(n, nodes, r, lvl, update);
      InsertTop(n, nodes, r, lvl, update, top, level);
    }

    /** `remove_global_root` */
    method Remove(r: int)
      requires Valid() && r > HEAD
      modifies `nodes, `level
      ensures Valid() && Roots(nodes) == Roots(old(nodes)) - {r} && Heights(old(nodes), nodes, r)
    {
      hide IsNext, Removing, Preds, IsPred;
      var update := Search(r);
      SearchEnd(nodes, level, r, update);
      if nodes[update[0]][0] != r {
        return;
      }
      ghost var n := nodes;
      RemoveNone(n, r, level, update);
      var i := 0;
      while i <= level
        invariant 0 <= i <= level + 1 && level == old(level) && Removing(n, nodes, r, update, i)
      {
        RemoveStep(n, nodes, r, level, update, i);
        if nodes[update[i]][i] == r {
          nodes := nodes[update[i] := nodes[update[i]][i := nodes[r][i]]];
        }
        i := i + 1;
      }
      RemoveLinked(n, nodes, r, level, update);
      RemoveTop(n, nodes, r, level, update);
      RemoveHeights(n, nodes, r, level, update);
      nodes := nodes - {r};
      ghost var n' := nodes;
      while level > 0 && nodes[HEAD][level] == NIL
        invariant 0 <= level < MAX_LEVEL && nodes == n' && HEAD in nodes && |nodes[HEAD]| == MAX_LEVEL
        invariant forall j {:trigger nodes[HEAD][j]} :: level < j < MAX_LEVEL ==> nodes[HEAD][j] == NIL
      {
        level := level - 1;
      }
    }
  }

  lemma SeedInRange(seed: int)
    ensures 0 <= NextSeed(seed) < WORD
  {
  }

  lemma PredsSize(n: Nodes, level: int, r: int, update: seq<int>)
    requires Preds(n, level, r, update)
    ensures |update| == MAX_LEVEL
  {
  }

  /**
   * Registering and removing one root in turn, from the start of the program, ends in a level out of bounds: the
   * generator draws every word. `draws` says when.
   */
  method ReachStray(r: int) returns (stray: bool, ghost draws: nat)
    requires r > HEAD
    ensures stray && SeedAfter(0, draws) >= 0xFFFF_FFFC
  {
    hide NextSeed;
    var g := new GlobalRoots();
    ghost var n := EveryWordDrawn(0, 0xFFFF_FFFF);
    var i := 0;
    stray := false;
    while !stray
      invariant fresh(g) && 0 <= i <= n && g.seed == SeedAfter(0, i) && (stray ==> g.seed >= 0xFFFF_FFFC)
      invariant !stray ==> i < n && g.Valid() && r !in Roots(g.nodes)
      decreases n - i, !stray
    {
      stray := g.Register(r);
      i := i + 1;
      if !stray { g.Remove(r); }
    }
    draws := i;
  }

  lemma NextUp(n: Nodes, i: int, e: int)
    requires Linked(n) && On(n, i, e) && n[e][i] != NIL
    ensures On(n, i, n[e][i]) && n[e][i] > e
  {
    assert IsNext(n, i, e, n[e][i]);
  }

  /** After the search, the next node at level zero is `r` if `r` is there. */
  lemma SearchEnd(n: Nodes, level: int, r: int, update: seq<int>)
    requires Linked(n) && TopLevel(n, level) && Preds(n, level, r, update) && r > HEAD
    ensures |update| == MAX_LEVEL && On(n, 0, update[0])
    ensures n[update[0]][0] == r <==> r in n
  {
    assert IsPred(n, 0, r, update[0]);
    FoundNext(n, r, update[0]);
    hide IsNext;
  }

  lemma Present(n: Nodes, r: int)
    requires r in n && r > HEAD
    ensures Roots(n) + {r} == Roots(n)
  {
  }

  lemma HeadPred(n: Nodes, level: int, r: int, update: seq<int>, i: int)
    requires Linked(n) && TopLevel(n, level) && level < i < MAX_LEVEL && Preds(n, i - 1, r, update) && r > HEAD
    ensures Preds(n, i, r, update[i := HEAD])
  {
    assert n[HEAD][i] == NIL;
  }

  lemma FewerPreds(n: Nodes, level: int, lvl: nat, r: int, update: seq<int>)
    requires Preds(n, level, r, update) && lvl <= level < MAX_LEVEL
    ensures Preds(n, lvl, r, update)
  {
  }

  lemma InsertNone(n: Nodes, n': Nodes, r: int, lvl: nat, update: seq<int>)
    requires lvl < MAX_LEVEL == |update| && r !in n && n' == n[r := seq(lvl + 1, _ => NIL)]
    ensures Inserting(n, n', r, lvl, update, 0)
  {
  }

  lemma InsertStep(n: Nodes, n': Nodes, r: int, lvl: nat, update: seq<int>, i: nat)
    requires Inserting(n, n', r, lvl, update, i) && i <= lvl && Preds(n, lvl, r, update) && r !in n
    ensures r in n' && i < |n'[r]| && update[i] in n' && i < |n'[update[i]]| && update[i] != r
    ensures var m := n'[r := n'[r][i := n'[update[i]][i]]];
            Inserting(n, m[update[i] := m[update[i]][i := r]], r, lvl, update, i + 1)
  {
    var u := update[i];
    assert IsPred(n, i, r, u) && u in n && |n'[u]| == |n[u]|;
    var m := n'[r := n'[r][i := n'[u][i]]];
    var m' := m[u := m[u][i := r]];
    assert n'[u][i] == n[u][i];
    assert forall a {:trigger m'[a]} :: a in n && a != r ==> |m'[a]| == |n[a]|;
    forall a, j | a in n && a != r && 0 <= j < |n[a]| == |m'[a]|
      ensures m'[a][j] == if j < i + 1 && update[j] == a then r else n[a][j]
    {
      assert a != u ==> m'[a][j] == n'[a][j];
    }
  }

  lemma InsertTop(n: Nodes, n': Nodes, r: int, lvl: nat, update: seq<int>, top: int, level: int)
    requires Inserting(n, n', r, lvl, update, lvl + 1) && Linked(n) && TopLevel(n, top) && r !in n && r > HEAD &&
             Preds(n, lvl, r, update)
    requires level == if lvl > top then lvl else top
    ensures TopLevel(n', level)
  {
    hide IsNext;
    assert |n'[HEAD]| == |n[HEAD]|;
    forall i | level < i < MAX_LEVEL ensures n'[HEAD][i] == NIL { assert n[HEAD][i] == NIL; }
    if level > 0 {
      assert n'[HEAD][level] == if level < lvl + 1 && update[level] == HEAD then r else n[HEAD][level];
      if level > top {
        assert IsPred(n, level, r, update[level]);
        NothingAbove(n, top, level, update[level]);
      }
    }
  }

  lemma RemoveNone(n: Nodes, r: int, level: int, update: seq<int>)
    requires r in n && |update| == MAX_LEVEL
    ensures Removing(n, n, r, update, 0)
  {
  }

  lemma RemoveStep(n: Nodes, n': Nodes, r: int, level: int, update: seq<int>, i: nat)
    requires Linked(n) && Removing(n, n', r, update, i) && i <= level < MAX_LEVEL && Preds(n, level, r, update)
    ensures update[i] in n' && i < |n'[update[i]]| && update[i] != r && r in n'
    ensures n'[update[i]][i] == r ==> i < |n'[r]|
    ensures Removing(n, if n'[update[i]][i] == r then n'[update[i] := n'[update[i]][i := n'[r][i]]]
                     else n', r, update, i + 1)
  {
    var u := update[i];
    assert IsPred(n, i, r, u) && |n'[u]| == |n[u]| && n'[u][i] == n[u][i];
    assert IsNext(n, i, u, n[u][i]);
    if i < |n[r]| { assert On(n, i, r); }
    hide IsNext;
    if n'[u][i] == r {
      var m := n'[u := n'[u][i := n'[r][i]]];
      assert forall a {:trigger m[a]} :: a in n && a != r ==> |m[a]| == |n[a]|;
      forall a, j | a in n && a != r && 0 <= j < |n[a]| == |m[a]|
        ensures m[a][j] == if j < i + 1 && j < |n[r]| && update[j] == a then n[r][j] else n[a][j]
      {
        assert a != u ==> m[a][j] == n'[a][j];
      }
    }
  }

  lemma RemoveTop(n: Nodes, n': Nodes, r: int, level: int, update: seq<int>)
    requires Linked(n) && TopLevel(n, level) && Removing(n, n', r, update, level + 1) && r > HEAD
    ensures forall j {:trigger (n' - {r})[HEAD][j]} :: level < j < MAX_LEVEL ==> (n' - {r})[HEAD][j] == NIL
    ensures HEAD in n' - {r} && |(n' - {r})[HEAD]| == MAX_LEVEL
  {
    hide IsNext;
    assert |n'[HEAD]| == |n[HEAD]|;
    forall j | level < j < MAX_LEVEL
      ensures (n' - {r})[HEAD][j] == NIL
    {
      assert n[HEAD][j] == NIL;
      assert n'[HEAD][j] == n[HEAD][j];
    }
  }
}
