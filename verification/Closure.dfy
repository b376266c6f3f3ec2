/** The LR(0) closure of a set of items. */
module Closure {
  import opened Warshall

  /**
   * An item is a position in `ritem`, where the right-hand sides follow each other; rule `r` starts at `rrhs[r]`.
   * Symbols from `start` on are variables, and `derives` lists the rules of each, ended by a negative number.
   */
  datatype Grammar = Grammar(ritem: seq<int>, rrhs: seq<int>, derives: seq<seq<int>>, start: int)

  predicate IsItem(g: Grammar, it: int) { 0 <= it < |g.ritem| }

  predicate IsVar(g: Grammar, s: int) { s >= g.start }

  predicate HasRule(g: Grammar, v: int, r: int) { 0 <= v < |g.derives| && r >= 0 && r in g.derives[v] }

  predicate RuleOk(g: Grammar, r: int) { 0 < r < |g.rrhs| && IsItem(g, g.rrhs[r]) }

  ghost predicate GrammarOk(g: Grammar) {
    && (forall v {:trigger g.derives[v]} :: 0 <= v < |g.derives| ==>
        |g.derives[v]| > 0 && g.derives[v][|g.derives[v]| - 1] == -1)
    && (forall v, i {:trigger g.derives[v][i]} :: 0 <= v < |g.derives| && 0 <= i < |g.derives[v]| - 1 ==>
        RuleOk(g, g.derives[v][i]))
    && (forall it {:trigger g.ritem[it]} :: IsItem(g, it) && IsVar(g, g.ritem[it]) ==>
        g.ritem[it] - g.start < |g.derives|)
    && (forall r, q {:trigger RuleOk(g, r), RuleOk(g, q)} :: RuleOk(g, r) && RuleOk(g, q) && r < q ==>
        g.rrhs[r] < g.rrhs[q])
  }

  lemma RuleIsOk(g: Grammar, v: int, r: int)
    requires GrammarOk(g) && HasRule(g, v, r)
    ensures RuleOk(g, r)
  {
    var i :| 0 <= i < |g.derives[v]| && g.derives[v][i] == r;
    assert g.derives[v] == g.derives[v];
  }

  // ---- What the closure is -----------------------------------------------------------------------------------

  /** `to` is the start of a rule of the variable that comes next in item `it`. */
  ghost predicate Derives(g: Grammar, it: int, to: int) {
    0 <= it < |g.ritem| && g.ritem[it] >= g.start && exists r ::
      HasRule(g, g.ritem[it] - g.start, r) && r < |g.rrhs| && g.rrhs[r] == to
  }

  /** Every item that an item of the set asks for is in the set. */
  ghost predicate Closed(g: Grammar, s: iset<int>) {
    forall it, to {:trigger Derives(g, it, to)} :: it in s && Derives(g, it, to) ==> to in s
  }

  ghost predicate InClosureN(g: Grammar, nucleus: seq<int>, it: int, n: nat)
    decreases n
  {
    if n == 0 then it in nucleus else exists from :: InClosureN(g, nucleus, from, n - 1) && Derives(g, from, it)
  }

  ghost predicate InClosure(g: Grammar, nucleus: seq<int>, it: int) {
    exists n: nat :: InClosureN(g, nucleus, it, n)
  }

  ghost function ClosureOf(g: Grammar, nucleus: seq<int>): iset<int> { iset it | InClosure(g, nucleus, it) }

  /** It is the least closed set of items that contains the nucleus. */
  lemma LeastClosed(g: Grammar, nucleus: seq<int>, s: iset<int>)
    ensures Closed(g, ClosureOf(g, nucleus)) && (forall it :: it in nucleus ==> it in ClosureOf(g, nucleus))
    ensures Closed(g, s) && (forall it :: it in nucleus ==> it in s) ==> ClosureOf(g, nucleus) <= s
  {
    forall it, to | it in ClosureOf(g, nucleus) && Derives(g, it, to) ensures to in ClosureOf(g, nucleus) {
      var n: nat :| InClosureN(g, nucleus, it, n);
      assert InClosureN(g, nucleus, to, n + 1);
    }
    forall it | it in nucleus ensures it in ClosureOf(g, nucleus) { assert InClosureN(g, nucleus, it, 0); }
    if Closed(g, s) && (forall it :: it in nucleus ==> it in s) {
      forall it | it in ClosureOf(g, nucleus) ensures it in s {
        var n: nat :| InClosureN(g, nucleus, it, n);
        ClosureInside(g, nucleus, s, it, n);
      }
    }
  }

  lemma {:induction false} ClosureInside(g: Grammar, nucleus: seq<int>, s: iset<int>, it: int, n: nat)
    requires Closed(g, s) && (forall i :: i in nucleus ==> i in s) && InClosureN(g, nucleus, it, n)
    ensures it in s
    decreases n
  {
    if n > 0 {
      var from :| InClosureN(g, nucleus, from, n - 1) && Derives(g, from, it);
      ClosureInside(g, nucleus, s, from, n - 1);
    }
  }

  // ---- First symbols -----------------------------------------------------------------------------------------

  /** Some rule of variable `i` starts with variable `j`. */
  ghost predicate First(g: Grammar, i: int, j: int) {
    exists r :: HasRule(g, i, r) && RuleOk(g, r) && g.ritem[g.rrhs[r]] == g.start + j
  }

  ghost function FirstRel(g: Grammar): Rel {
    seq(|g.derives|, i requires 0 <= i => seq(|g.derives|, j requires 0 <= j => First(g, i, j)))
  }

  ghost predicate Eff(g: Grammar, i: int, j: int) {
    0 <= i < |g.derives| && 0 <= j < |g.derives| && (i == j || Path(FirstRel(g), i, j))
  }

  /** A rule that a variable leads to. */
  ghost predicate FirstDerives(g: Grammar, i: int, r: int) {
    exists j :: Eff(g, i, j) && HasRule(g, j, r)
  }

  lemma ClosureBase(g: Grammar, nucleus: seq<int>, it: int)
    requires it in nucleus
    ensures InClosureN(g, nucleus, it, 0)
  {
  }

  lemma ClosureStep(g: Grammar, nucleus: seq<int>, from: int, it: int, n: nat)
    requires InClosureN(g, nucleus, from, n) && Derives(g, from, it)
    ensures InClosureN(g, nucleus, it, n + 1)
  {
  }

  lemma DerivesBy(g: Grammar, it: int, r: int)
    requires IsItem(g, it) && IsVar(g, g.ritem[it]) && HasRule(g, g.ritem[it] - g.start, r) && r < |g.rrhs|
    ensures Derives(g, it, g.rrhs[r])
  {
  }

  lemma FirstHolds(g: Grammar, i: int, j: int)
    requires Holds(FirstRel(g), i, j)
    ensures First(g, i, j)
  {
  }

  /** Following first symbols from item `it` reaches the start of rule `r`. */
  lemma {:induction false} RuleInClosure(g: Grammar, nucleus: seq<int>, it: int, n: nat, j: int, r: int, m: nat)
    requires GrammarOk(g) && InClosureN(g, nucleus, it, n) && IsItem(g, it) && IsVar(g, g.ritem[it]) && HasRule(g, j, r)
    requires PathN(FirstRel(g), g.ritem[it] - g.start, j, m)
    ensures RuleOk(g, r) && InClosure(g, nucleus, g.rrhs[r])
    decreases m
  {
    hide GrammarOk, InClosureN, FirstRel, Derives;
    RuleIsOk(g, j, r);
    var v := g.ritem[it] - g.start;
    var k;
    if m == 0 { k := j; } else { k :| Holds(FirstRel(g), v, k) && PathN(FirstRel(g), k, j, m - 1); }
    FirstHolds(g, v, k);
    var q :| HasRule(g, v, q) && RuleOk(g, q) && g.ritem[g.rrhs[q]] == g.start + k;
    var to := g.rrhs[q];
    DerivesBy(g, it, q);
    ClosureStep(g, nucleus, it, to, n);
    PathStarts(g, v, k, q);
    if m == 0 {
      DerivesBy(g, to, r);
      ClosureStep(g, nucleus, to, g.rrhs[r], n + 1);
    } else {
      RuleInClosure(g, nucleus, to, n + 1, j, r, m - 1);
    }
  }

  lemma PathStarts(g: Grammar, v: int, k: int, q: int)
    requires Holds(FirstRel(g), v, k)
    ensures 0 <= k < |g.derives|
  {
  }

  /** The rules that the variables next in the nucleus lead to. */
  ghost predicate NucleusRule(g: Grammar, nucleus: seq<int>, r: int) {
    exists it :: it in nucleus && IsItem(g, it) && IsVar(g, g.ritem[it]) && FirstDerives(g, g.ritem[it] - g.start, r)
  }

  /** An item of the nucleus, or the start of one of these rules. */
  ghost predicate Wanted(g: Grammar, nucleus: seq<int>, it: int) {
    it in nucleus || exists r :: NucleusRule(g, nucleus, r) && r < |g.rrhs| && r >= 0 && g.rrhs[r] == it
  }

  lemma WantedInClosure(g: Grammar, nucleus: seq<int>, it: int)
    requires GrammarOk(g) && Wanted(g, nucleus, it)
    ensures InClosure(g, nucleus, it)
  {
    hide GrammarOk, InClosureN, FirstRel, Derives;
    if it in nucleus {
      ClosureBase(g, nucleus, it);
    } else {
      var r :| NucleusRule(g, nucleus, r) && r < |g.rrhs| && r >= 0 && g.rrhs[r] == it;
      var from :|
        from in nucleus && IsItem(g, from) && IsVar(g, g.ritem[from]) && FirstDerives(g, g.ritem[from] - g.start, r);
      var v := g.ritem[from] - g.start;
      var j :| Eff(g, v, j) && HasRule(g, j, r);
      ClosureBase(g, nucleus, from);
      if v == j {
        DerivesBy(g, from, r);
        ClosureStep(g, nucleus, from, it, 0);
      } else {
        var m: nat :| PathN(FirstRel(g), v, j, m);
        RuleInClosure(g, nucleus, from, 0, j, r, m);
      }
    }
  }

  /** One more first symbol. */
  lemma EffStep(g: Grammar, i: int, j: int, k: int)
    requires Eff(g, i, j) && First(g, j, k) && 0 <= k < |g.derives|
    ensures Eff(g, i, k)
  {
    assert Holds(FirstRel(g), j, k);
    assert PathN(FirstRel(g), j, k, 0);
    if i != j {
      var m: nat :| PathN(FirstRel(g), i, j, m);
      PathAppend(FirstRel(g), i, j, k, m, 0);
    }
  }

  lemma {:induction false} ClosureWanted(g: Grammar, nucleus: seq<int>, it: int, n: nat)
    requires GrammarOk(g) && InClosureN(g, nucleus, it, n)
    ensures Wanted(g, nucleus, it)
    decreases n
  {
    hide GrammarOk, FirstRel, Eff, First;
    if n > 0 {
      var from :| InClosureN(g, nucleus, from, n - 1) && Derives(g, from, it);
      ClosureWanted(g, nucleus, from, n - 1);
      WantedNext(g, nucleus, from, it);
    }
  }

  lemma EffSelf(g: Grammar, v: int)
    requires 0 <= v < |g.derives|
    ensures Eff(g, v, v)
  {
  }

  lemma FirstBy(g: Grammar, i: int, r: int)
    requires HasRule(g, i, r) && RuleOk(g, r)
    ensures First(g, i, g.ritem[g.rrhs[r]] - g.start)
  {
  }

  /** What a wanted item asks for is wanted. */
  lemma WantedNext(g: Grammar, nucleus: seq<int>, from: int, it: int)
    requires GrammarOk(g) && Wanted(g, nucleus, from) && Derives(g, from, it)
    ensures Wanted(g, nucleus, it)
  {
    hide GrammarOk, FirstRel, Eff, First;
    var v := g.ritem[from] - g.start;
    var r :| HasRule(g, v, r) && r < |g.rrhs| && g.rrhs[r] == it;
    if from in nucleus {
      EffSelf(g, v);
      assert FirstDerives(g, v, r);
    } else {
      var q :| NucleusRule(g, nucleus, q) && q < |g.rrhs| && q >= 0 && g.rrhs[q] == from;
      var base :|
        base in nucleus && IsItem(g, base) && IsVar(g, g.ritem[base]) && FirstDerives(g, g.ritem[base] - g.start, q);
      var u := g.ritem[base] - g.start;
      var j :| Eff(g, u, j) && HasRule(g, j, q);
      RuleIsOk(g, j, q);
      FirstBy(g, j, q);
      EffStep(g, u, j, v);
      assert FirstDerives(g, u, r);
    }
    assert NucleusRule(g, nucleus, r);
  }

  // ---- The tables -----------------------------------------------------------------------------------------------

  /** `set_EFF`: the variables that can come first, directly or not. */
  method SetEff(g: Grammar) returns (eff: array2<bool>)
    requires GrammarOk(g)
    ensures fresh(eff) && eff.Length0 == eff.Length1 == |g.derives|
    ensures forall i, j {:trigger eff[i, j]} :: 0 <= i < |g.derives| && 0 <= j < |g.derives| ==>
            (eff[i, j] <==> Eff(g, i, j))
  {
    var n := |g.derives|;
    eff := new bool[n, n]((_, _) => false);
    var i := 0;
    while i < n
      invariant 0 <= i <= n
      invariant forall a, b {:trigger eff[a, b]} :: 0 <= a < n && 0 <= b < n ==>
                (eff[a, b] <==> a < i && First(g, a, b))
    {
      SetFirstRow(g, eff, i);
      i := i + 1;
    }
    FirstMatrix(g, eff);
    ReflexiveTransitiveClosure(eff, n, FirstRel(g));
  }

  lemma FirstMatrix(g: Grammar, eff: array2<bool>)
    requires eff.Length0 == eff.Length1 == |g.derives|
    requires forall a, b {:trigger eff[a, b]} :: 0 <= a < |g.derives| && 0 <= b < |g.derives| ==>
             (eff[a, b] <==> First(g, a, b))
    ensures Matrix(eff, FirstRel(g), |g.derives|)
  {
  }

  /** Some rule among the first `k` of variable `i` starts with variable `j`. */
  ghost predicate FirstIn(g: Grammar, i: int, j: int, k: int) {
    0 <= i < |g.derives| && exists m ::
      0 <= m < k <= |g.derives[i]| && RuleOk(g, g.derives[i][m]) && g.ritem[g.rrhs[g.derives[i][m]]] == g.start + j
  }

  lemma FirstInAll(g: Grammar, i: int, j: int)
    requires GrammarOk(g) && 0 <= i < |g.derives|
    ensures FirstIn(g, i, j, |g.derives[i]| - 1) <==> First(g, i, j)
  {
    if r :| HasRule(g, i, r) && RuleOk(g, r) && g.ritem[g.rrhs[r]] == g.start + j {
      var m :| 0 <= m < |g.derives[i]| && g.derives[i][m] == r;
      assert g.derives[i][|g.derives[i]| - 1] == -1;
    }
    if m :|
      0 <= m < |g.derives[i]| - 1 && RuleOk(g, g.derives[i][m]) && g.ritem[g.rrhs[g.derives[i][m]]] == g.start + j {
      assert HasRule(g, i, g.derives[i][m]);
    }
  }

  /** The row of a variable: the variables that start its rules. */
  method SetFirstRow(g: Grammar, eff: array2<bool>, i: nat)
    requires GrammarOk(g) && i < |g.derives| == eff.Length0 == eff.Length1
    requires forall b {:trigger eff[i, b]} :: 0 <= b < |g.derives| ==> !eff[i, b]
    modifies eff
    ensures forall a, b {:trigger eff[a, b]} :: 0 <= a < |g.derives| && 0 <= b < |g.derives| ==>
            (eff[a, b] <==> if a == i then First(g, a, b) else old(eff[a, b]))
  {
    var sp := 0;
    var d := g.derives[i];
    assert forall m {:trigger d[m]} :: 0 <= m < |d| - 1 ==> RuleOk(g, g.derives[i][m]) && d[m] > 0;
    while d[sp] > 0
      invariant 0 <= sp < |d|
      invariant forall a, b {:trigger eff[a, b]} :: 0 <= a < |g.derives| && 0 <= b < |g.derives| ==>
                  (eff[a, b] <==> if a == i then FirstIn(g, i, b, sp) else old(eff[a, b]))
      decreases |d| - sp
    {
      assert RuleOk(g, g.derives[i][sp]);
      var symbol := g.ritem[g.rrhs[d[sp]]];
      FirstInMore(g, i, sp);
      if IsVar(g, symbol) {
        eff[i, symbol - g.start] := true;
      }
      sp := sp + 1;
    }
    forall b | 0 <= b < |g.derives| ensures FirstIn(g, i, b, sp) <==> First(g, i, b) { FirstInAll(g, i, b); }
  }

  lemma FirstInMore(g: Grammar, i: int, k: nat)
    requires 0 <= i < |g.derives| && k < |g.derives[i]|
    ensures forall b {:trigger FirstIn(g, i, b, k + 1)} :: FirstIn(g, i, b, k + 1) <==>
              FirstIn(g, i, b, k) || (RuleOk(g, g.derives[i][k]) && g.ritem[g.rrhs[g.derives[i][k]]] == g.start + b)
  {
  }

  /** A rule of one of the first `k` variables that variable `i` leads to. */
  ghost predicate DerivesBelow(g: Grammar, i: int, r: int, k: int) {
    exists j :: 0 <= j < k && Eff(g, i, j) && HasRule(g, j, r)
  }

  lemma DerivesBelowMore(g: Grammar, i: int, k: int)
    requires k >= 0
    ensures forall r {:trigger DerivesBelow(g, i, r, k + 1)} :: DerivesBelow(g, i, r, k + 1) <==>
            DerivesBelow(g, i, r, k) || (Eff(g, i, k) && HasRule(g, k, r))
  {
  }

  lemma DerivesBelowAll(g: Grammar, i: int, r: int)
    ensures DerivesBelow(g, i, r, |g.derives|) <==> FirstDerives(g, i, r)
  {
    hide FirstRel;
  }

  /** `set_first_derives`: for each variable, the rules that it leads to. */
  method SetFirstDerives(g: Grammar) returns (fd: array2<bool>)
    requires GrammarOk(g)
    ensures fresh(fd) && fd.Length0 == |g.derives| && fd.Length1 == |g.rrhs|
    ensures forall i, r {:trigger fd[i, r]} :: 0 <= i < |g.derives| && 0 <= r < |g.rrhs| ==>
            (fd[i, r] <==> FirstDerives(g, i, r))
  {
    hide GrammarOk, Eff, FirstDerives, DerivesBelow, HasRule;
    var n := |g.derives|;
    var eff := SetEff(g);
    fd := new bool[n, |g.rrhs|]((_, _) => false);
    var i := 0;
    while i < n
      invariant 0 <= i <= n
      invariant forall a, b {:trigger eff[a, b]} :: 0 <= a < n && 0 <= b < n ==> (eff[a, b] <==> Eff(g, a, b))
      invariant forall a, r {:trigger fd[a, r]} :: 0 <= a < n && 0 <= r < |g.rrhs| ==>
                (fd[a, r] <==> a < i && FirstDerives(g, a, r))
    {
      var j := 0;
      NoneBelow(g, i);
      while j < n
        invariant 0 <= j <= n
        invariant forall a, b {:trigger eff[a, b]} :: 0 <= a < n && 0 <= b < n ==> (eff[a, b] <==> Eff(g, a, b))
        invariant forall a, r {:trigger fd[a, r]} :: 0 <= a < n && 0 <= r < |g.rrhs| ==>
                    (fd[a, r] <==> if a == i then DerivesBelow(g, i, r, j) else a < i && FirstDerives(g, a, r))
      {
        DerivesBelowMore(g, i, j);
        if eff[i, j] {
          AddRules(g, fd, i, j);
        }
        assert forall r {:trigger fd[i, r]} :: 0 <= r < |g.rrhs| ==> (fd[i, r] <==> DerivesBelow(g, i, r, j + 1));
        j := j + 1;
      }
      forall r | 0 <= r < |g.rrhs|
        ensures DerivesBelow(g, i, r, n) <==> FirstDerives(g, i, r)
      {
        DerivesBelowAll(g, i, r);
      }
      i := i + 1;
    }
  }

  lemma NoneBelow(g: Grammar, i: int)
    ensures forall r {:trigger DerivesBelow(g, i, r, 0)} :: !DerivesBelow(g, i, r, 0)
  {
  }

  /** Sets the bits of the rules of variable `j` in row `i`. */
  method AddRules(g: Grammar, fd: array2<bool>, i: nat, j: nat)
    requires GrammarOk(g) && i < |g.derives| == fd.Length0 && j < |g.derives| && fd.Length1 == |g.rrhs|
    modifies fd
    ensures forall a, r {:trigger fd[a, r]} :: 0 <= a < fd.Length0 && 0 <= r < |g.rrhs| ==>
            (fd[a, r] <==> old(fd[a, r]) || (a == i && HasRule(g, j, r)))
  {
    var rp, d := 0, g.derives[j];
    assert forall m {:trigger d[m]} :: 0 <= m < |d| - 1 ==> RuleOk(g, g.derives[j][m]) && d[m] > 0;
    assert d[|d| - 1] == -1 by { assert d == g.derives[j]; }
    while d[rp] >= 0
      invariant 0 <= rp < |d|
      invariant forall a, r {:trigger fd[a, r]} :: 0 <= a < fd.Length0 && 0 <= r < |g.rrhs| ==>
                (fd[a, r] <==> old(fd[a, r]) || (a == i && r in d[..rp]))
      decreases |d| - rp
    {
      assert d[..rp + 1] == d[..rp] + [d[rp]];
      fd[i, d[rp]] := true;
      rp := rp + 1;
    }
    forall r | 0 <= r < |g.rrhs| ensures r in d[..rp] <==> HasRule(g, j, r) {
      assert d == d[..rp] + [-1];
    }
  }

  // ---- The closure ----------------------------------------------------------------------------------------------

  ghost predicate Increasing(s: seq<int>) { forall i, j {:trigger s[i], s[j]} :: 0 <= i < j < |s| ==> s[i] < s[j] }

  /** The start of one of the rules below `k` of a set of rules. */
  ghost predicate Starts(g: Grammar, rules: seq<bool>, k: int, it: int) {
    exists r :: 0 <= r < k && r < |rules| && rules[r] && r < |g.rrhs| && g.rrhs[r] == it
  }

  /** `out` is the merge of the first `c` items of the nucleus and of the starts of the rules below `k`. */
  ghost predicate Merging(g: Grammar, nucleus: seq<int>, rules: seq<bool>, k: int, c: int, out: seq<int>) {
    && 0 <= c <= |nucleus| && Increasing(out)
    && (forall i {:trigger out[i]} :: 0 <= i < |out| ==> out[i] in nucleus[..c] || Starts(g, rules, k, out[i]))
    && (forall it {:trigger it in nucleus[..c]} :: it in nucleus[..c] ==> it in out)
    && (forall it {:trigger Starts(g, rules, k, it)} :: Starts(g, rules, k, it) ==> it in out)
    && (forall i, j {:trigger out[i], nucleus[j]} :: 0 <= i < |out| && c <= j < |nucleus| ==> out[i] < nucleus[j])
    && (forall i, r {:trigger out[i], rules[r]} ::
        0 <= i < |out| && 0 <= k <= r < |rules| && rules[r] && r < |g.rrhs| ==> out[i] < g.rrhs[r])
  }

  const BITS_PER_WORD: nat := 32

  /** The bits of a set of rules, a whole number of words. */
  function RuleBits(g: Grammar): nat { (|g.rrhs| + BITS_PER_WORD - 1) / BITS_PER_WORD * BITS_PER_WORD }

  ghost predicate NucleusBelow(g: Grammar, nucleus: seq<int>, c: int, r: int) {
    0 <= c <= |nucleus| && exists i ::
      0 <= i < c && IsItem(g, nucleus[i]) && IsVar(g, g.ritem[nucleus[i]]) &&
      FirstDerives(g, g.ritem[nucleus[i]] - g.start, r)
  }

  lemma NucleusBelowAll(g: Grammar, nucleus: seq<int>, r: int)
    ensures NucleusBelow(g, nucleus, |nucleus|, r) <==> NucleusRule(g, nucleus, r)
  {
    hide FirstDerives;
    if it :| it in nucleus && IsItem(g, it) && IsVar(g, g.ritem[it]) && FirstDerives(g, g.ritem[it] - g.start, r) {
      var i :| 0 <= i < |nucleus| && nucleus[i] == it;
      assert NucleusBelow(g, nucleus, |nucleus|, r);
    }
    if i :|
      0 <= i < |nucleus| && IsItem(g, nucleus[i]) && IsVar(g, g.ritem[nucleus[i]]) &&
      FirstDerives(g, g.ritem[nucleus[i]] - g.start, r) {
      assert nucleus[i] in nucleus;
    }
  }

  /** The first half of `closure`: the set of the rules that the nucleus leads to. */
  method CollectRules(g: Grammar, fd: array2<bool>, nucleus: seq<int>) returns (rules: array<bool>)
    requires GrammarOk(g) && fd.Length0 == |g.derives| && fd.Length1 == |g.rrhs|
    requires forall i, r {:trigger fd[i, r]} :: 0 <= i < |g.derives| && 0 <= r < |g.rrhs| ==>
             (fd[i, r] <==> FirstDerives(g, i, r))
    requires forall i {:trigger nucleus[i]} :: 0 <= i < |nucleus| ==> IsItem(g, nucleus[i])
    ensures fresh(rules) && rules.Length == RuleBits(g)
    ensures forall r {:trigger rules[r]} :: 0 <= r < rules.Length ==>
            (rules[r] <==> r < |g.rrhs| && NucleusRule(g, nucleus, r))
  {
    hide GrammarOk, FirstDerives, NucleusRule, NucleusBelow;
    rules := new bool[RuleBits(g)](_ => false);
    BitsEnough(g);
    var c := 0;
    NucleusNone(g, nucleus);
    while c < |nucleus|
      invariant 0 <= c <= |nucleus|
      invariant forall r {:trigger rules[r]} :: 0 <= r < rules.Length ==>
                (rules[r] <==> r < |g.rrhs| && NucleusBelow(g, nucleus, c, r))
    {
      var symbol := g.ritem[nucleus[c]];
      forall r
        ensures NucleusBelow(g, nucleus, c + 1, r) <==>
                NucleusBelow(g, nucleus, c, r) || (IsVar(g, symbol) && FirstDerives(g, symbol - g.start, r))
      {
        NucleusMore(g, nucleus, c, r);
      }
      if IsVar(g, symbol) {
        VarInRange(g, nucleus[c]);
        var r := 0;
        while r < |g.rrhs|
          invariant 0 <= r <= |g.rrhs|
          invariant forall q {:trigger rules[q]} :: 0 <= q < rules.Length ==>
                      (rules[q] <==> q < |g.rrhs| && NucleusBelow(g, nucleus, if q < r then c + 1 else c, q))
        {
          rules[r] := rules[r] || fd[symbol - g.start, r];
          r := r + 1;
        }
      }
      c := c + 1;
    }
    forall r | 0 <= r < rules.Length
      ensures NucleusBelow(g, nucleus, |nucleus|, r) <==> NucleusRule(g, nucleus, r)
    {
      NucleusBelowAll(g, nucleus, r);
    }
  }

  lemma BitsEnough(g: Grammar)
    ensures |g.rrhs| <= RuleBits(g)
  {
  }

  lemma NucleusNone(g: Grammar, nucleus: seq<int>)
    ensures forall r {:trigger NucleusBelow(g, nucleus, 0, r)} :: !NucleusBelow(g, nucleus, 0, r)
  {
  }

  lemma NucleusMore(g: Grammar, nucleus: seq<int>, c: nat, r: int)
    requires c < |nucleus| && IsItem(g, nucleus[c])
    ensures NucleusBelow(g, nucleus, c + 1, r) <==>
            NucleusBelow(g, nucleus, c, r) || (IsVar(g, g.ritem[nucleus[c]]) &&
                                               FirstDerives(g, g.ritem[nucleus[c]] - g.start, r))
  {
    hide FirstDerives;
  }

  lemma VarInRange(g: Grammar, it: int)
    requires GrammarOk(g) && IsItem(g, it) && IsVar(g, g.ritem[it])
    ensures 0 <= g.ritem[it] - g.start < |g.derives|
  {
  }

  /** A set of real rules: their starts increase with their numbers. */
  ghost predicate RulesUp(g: Grammar, rules: seq<bool>) {
    && (forall r {:trigger rules[r]} :: 0 <= r < |rules| && rules[r] ==> r < |g.rrhs|)
    && (forall r, q {:trigger rules[r], rules[q]} :: 0 <= r < q < |rules| && rules[r] && rules[q] ==>
        g.rrhs[r] < g.rrhs[q])
  }

  /** One rule of the set: the items of the nucleus before its start, then its start, once. */
  method MergeItem(g: Grammar, nucleus: seq<int>, ghost rules: seq<bool>, r: nat, c0: nat, out0: seq<int>)
    returns (c: nat, out: seq<int>)
    requires Merging(g, nucleus, rules, r, c0, out0) && Increasing(nucleus) && RulesUp(g, rules) && r < |rules| &&
             rules[r]
    ensures Merging(g, nucleus, rules, r + 1, c, out) && c <= |nucleus|
  {
    hide Merging, RulesUp;
    MergingBounds(g, nucleus, rules, r, c0, out0);
    var itemno := g.rrhs[r];
    c, out := c0, out0;
    while c < |nucleus| && nucleus[c] < itemno
      invariant c0 <= c <= |nucleus| && Merging(g, nucleus, rules, r, c, out)
    {
      RulesAbove(g, rules, r, nucleus[c]);
      CopyOne(g, nucleus, rules, r, c, out);
      out := out + [nucleus[c]];
      c := c + 1;
    }
    ghost var target := if c < |nucleus| && nucleus[c] == itemno then c + 1 else c;
    AddStart(g, nucleus, rules, r, c, out, target);
    out := out + [itemno];
    LastBelow(g, nucleus, rules, r + 1, target, out);
    while c < |nucleus| && nucleus[c] == itemno
      invariant c <= target && (c < target ==> c < |nucleus| && nucleus[c] == itemno)
      decreases |nucleus| - c
    {
      c := c + 1;
    }
  }

  lemma MergingBounds(g: Grammar, nucleus: seq<int>, rules: seq<bool>, k: int, c: int, out: seq<int>)
    requires Merging(g, nucleus, rules, k, c, out) && RulesUp(g, rules)
    ensures 0 <= c <= |nucleus| && (0 <= k < |rules| && rules[k] ==> k < |g.rrhs|)
  {
  }

  lemma LastBelow(g: Grammar, nucleus: seq<int>, rules: seq<bool>, k: int, c: int, out: seq<int>)
    requires Merging(g, nucleus, rules, k, c, out) && |out| > 0
    ensures c < |nucleus| ==> out[|out| - 1] < nucleus[c]
  {
  }

  lemma CopyOne(g: Grammar, nucleus: seq<int>, rules: seq<bool>, k: int, c: nat, out: seq<int>)
    requires Merging(g, nucleus, rules, k, c, out) && Increasing(nucleus) && c < |nucleus| && k >= 0
    requires forall r {:trigger rules[r]} :: k <= r < |rules| && rules[r] && r < |g.rrhs| ==> nucleus[c] < g.rrhs[r]
    ensures Merging(g, nucleus, rules, k, c + 1, out + [nucleus[c]])
  {
    hide Starts;
    var l, done := out + [nucleus[c]], nucleus[..c + 1];
    assert done == nucleus[..c] + [nucleus[c]];
    forall i | 0 <= i < |l| ensures l[i] in done || Starts(g, rules, k, l[i]) {
      if i < |out| { assert l[i] == out[i]; }
    }
  }

  lemma RulesAbove(g: Grammar, rules: seq<bool>, r: nat, x: int)
    requires RulesUp(g, rules) && r < |rules| && rules[r] && x < g.rrhs[r]
    ensures forall q {:trigger rules[q]} :: r <= q < |rules| && rules[q] && q < |g.rrhs| ==> x < g.rrhs[q]
  {
  }

  lemma StartsMore(g: Grammar, rules: seq<bool>, r: nat, it: int)
    requires r < |rules| && rules[r] && r < |g.rrhs|
    ensures Starts(g, rules, r + 1, it) <==> Starts(g, rules, r, it) || it == g.rrhs[r]
  {
  }

  lemma AddStart(g: Grammar, nucleus: seq<int>, rules: seq<bool>, r: nat, c: nat, out: seq<int>, target: nat)
    requires Merging(g, nucleus, rules, r, c, out) && Increasing(nucleus) && RulesUp(g, rules) && r < |rules| &&
             rules[r]
    requires c < |nucleus| ==> nucleus[c] >= g.rrhs[r]
    requires target == if c < |nucleus| && nucleus[c] == g.rrhs[r] then c + 1 else c
    ensures Merging(g, nucleus, rules, r + 1, target, out + [g.rrhs[r]])
  {
    hide Starts;
    var itemno, l := g.rrhs[r], out + [g.rrhs[r]];
    forall it
      ensures Starts(g, rules, r + 1, it) <==> Starts(g, rules, r, it) || it == itemno
    {
      StartsMore(g, rules, r, it);
    }
    assert target == c + 1 ==> nucleus[..target] == nucleus[..c] + [itemno];
    forall it | it in nucleus[..c] ensures it in nucleus[..target] { }
    forall i | 0 <= i < |l| ensures l[i] in nucleus[..target] || Starts(g, rules, r + 1, l[i]) {
      if i < |out| {
        assert l[i] == out[i];
        assert Starts(g, rules, r, out[i]) ==> Starts(g, rules, r + 1, out[i]);
      } else {
        StartsMore(g, rules, r, itemno);
      }
    }
    forall it | Starts(g, rules, r + 1, it) ensures it in l { StartsMore(g, rules, r, it); }
    forall i, j | 0 <= i < |l| && target <= j < |nucleus| ensures l[i] < nucleus[j] {
      assert c < j ==> nucleus[c] < nucleus[j];
      if i < |out| { assert l[i] == out[i]; }
    }
  }

  lemma SkipRule(g: Grammar, nucleus: seq<int>, rules: seq<bool>, r: nat, k: nat, c: int, out: seq<int>)
    requires Merging(g, nucleus, rules, r, c, out) && r <= k <= |rules| && forall q {:trigger rules[q]} ::
             r <= q < k ==> !rules[q]
    ensures Merging(g, nucleus, rules, k, c, out)
  {
    forall it ensures Starts(g, rules, k, it) <==> Starts(g, rules, r, it) { }
    hide Starts;
  }

  /** `closure`: the least closed set of items that contains the nucleus, in increasing order. */
  method Closure(g: Grammar, fd: array2<bool>, nucleus: seq<int>) returns (itemset: seq<int>)
    requires GrammarOk(g) && fd.Length0 == |g.derives| && fd.Length1 == |g.rrhs|
    requires forall i, r {:trigger fd[i, r]} :: 0 <= i < |g.derives| && 0 <= r < |g.rrhs| ==>
             (fd[i, r] <==> FirstDerives(g, i, r))
    requires Increasing(nucleus) && forall i {:trigger nucleus[i]} :: 0 <= i < |nucleus| ==> IsItem(g, nucleus[i])
    ensures Increasing(itemset) && forall it {:trigger it in itemset} :: it in itemset <==> it in ClosureOf(g, nucleus)
  {
    hide GrammarOk, FirstDerives, NucleusRule, Merging, Increasing, RulesUp, InClosure;
    var ruleset := CollectRules(g, fd, nucleus);
    var rules := ruleset[..];
    CollectedUp(g, nucleus, rules);
    var w, ruleno, c := 0, 0, 0;
    itemset := [];
    MergeNone(g, nucleus, rules);
    while w < |rules| / BITS_PER_WORD
      invariant 0 <= w <= |rules| / BITS_PER_WORD && ruleno == w * BITS_PER_WORD &&
                Merging(g, nucleus, rules, ruleno, c, itemset) && 0 <= c <= |nucleus|
    {
      if forall q :: ruleno <= q < ruleno + BITS_PER_WORD ==> !rules[q] {
        SkipRule(g, nucleus, rules, ruleno, ruleno + BITS_PER_WORD, c, itemset);
        ruleno := ruleno + BITS_PER_WORD;
      } else {
        var bit := 0;
        while bit < BITS_PER_WORD
          invariant 0 <= bit <= BITS_PER_WORD && ruleno == w * BITS_PER_WORD + bit &&
                    Merging(g, nucleus, rules, ruleno, c, itemset) && 0 <= c <= |nucleus|
        {
          if rules[ruleno] {
            c, itemset := MergeItem(g, nucleus, rules, ruleno, c, itemset);
          } else {
            SkipRule(g, nucleus, rules, ruleno, ruleno + 1, c, itemset);
          }
          ruleno, bit := ruleno + 1, bit + 1;
        }
      }
      w := w + 1;
    }
    AllBits(g, rules, ruleno);
    while c < |nucleus|
      invariant Merging(g, nucleus, rules, |rules|, c, itemset) && 0 <= c <= |nucleus|
      decreases |nucleus| - c
    {
      CopyOne(g, nucleus, rules, |rules|, c, itemset);
      itemset := itemset + [nucleus[c]];
      c := c + 1;
    }
    MergedAll(g, nucleus, rules, itemset);
  }

  lemma MergeNone(g: Grammar, nucleus: seq<int>, rules: seq<bool>)
    ensures Merging(g, nucleus, rules, 0, 0, [])
  {
  }

  lemma AllBits(g: Grammar, rules: seq<bool>, ruleno: int)
    requires |rules| == RuleBits(g) && ruleno == |rules| / BITS_PER_WORD * BITS_PER_WORD
    ensures ruleno == |rules|
  {
  }

  lemma CollectedUp(g: Grammar, nucleus: seq<int>, rules: seq<bool>)
    requires GrammarOk(g)
    requires forall r {:trigger rules[r]} :: 0 <= r < |rules| ==>
             (rules[r] <==> r < |g.rrhs| && NucleusRule(g, nucleus, r))
    ensures RulesUp(g, rules)
  {
    forall r | 0 <= r < |rules| && rules[r] ensures RuleOk(g, r) { NucleusRuleOk(g, nucleus, r); }
    hide NucleusRule;
  }

  lemma NucleusRuleOk(g: Grammar, nucleus: seq<int>, r: int)
    requires GrammarOk(g) && NucleusRule(g, nucleus, r)
    ensures RuleOk(g, r)
  {
    hide GrammarOk, Eff;
    var it :| it in nucleus && IsItem(g, it) && IsVar(g, g.ritem[it]) && FirstDerives(g, g.ritem[it] - g.start, r);
    var j :| Eff(g, g.ritem[it] - g.start, j) && HasRule(g, j, r);
    RuleIsOk(g, j, r);
  }

  lemma MergedAll(g: Grammar, nucleus: seq<int>, rules: seq<bool>, out: seq<int>)
    requires GrammarOk(g) && Merging(g, nucleus, rules, |rules|, |nucleus|, out) && |rules| == RuleBits(g)
    requires forall r {:trigger rules[r]} :: 0 <= r < |rules| ==>
             (rules[r] <==> r < |g.rrhs| && NucleusRule(g, nucleus, r))
    ensures Increasing(out) && forall it {:trigger it in out} :: it in out <==> it in ClosureOf(g, nucleus)
  {
    hide GrammarOk, NucleusRule, InClosureN, Increasing;
    assert nucleus[..|nucleus|] == nucleus;
    BitsEnough(g);
    forall it ensures it in out <==> it in ClosureOf(g, nucleus) {
      assert Wanted(g, nucleus, it) <==> it in nucleus || Starts(g, rules, |rules|, it);
      if it in out {
        var i :| 0 <= i < |out| && out[i] == it;
        WantedInClosure(g, nucleus, it);
      }
      if InClosure(g, nucleus, it) {
        var n: nat :| InClosureN(g, nucleus, it, n);
        ClosureWanted(g, nucleus, it, n);
      }
    }
  }
}
