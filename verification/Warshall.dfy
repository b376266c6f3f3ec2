/** Transitive closure of a relation, in place, on a matrix of bits. */
module Warshall {
  type Rel = seq<seq<bool>>

  predicate Square(r: Rel, n: nat) { |r| == n && forall i {:trigger r[i]} :: 0 <= i < n ==> |r[i]| == n }

  predicate Holds(r: Rel, i: int, j: int) { 0 <= i < |r| && 0 <= j < |r[i]| && r[i][j] }

  /** A path from `i` to `j` whose inner nodes are all below `k`. */
  predicate Via(r: Rel, k: nat, i: int, j: int) {
    if k == 0 then Holds(r, i, j) else Via(r, k - 1, i, j) || (Via(r, k - 1, i, k - 1) && Via(r, k - 1, k - 1, j))
  }

  /** A path of `m + 1` edges. */
  ghost predicate PathN(r: Rel, i: int, j: int, m: nat)
    decreases m
  {
    if m == 0 then Holds(r, i, j) else exists k :: Holds(r, i, k) && PathN(r, k, j, m - 1)
  }

  ghost predicate Path(r: Rel, i: int, j: int) { exists m: nat :: PathN(r, i, j, m) }

  lemma {:induction false} PathAppend(r: Rel, i: int, j: int, k: int, m: nat, n: nat)
    requires PathN(r, i, j, m) && PathN(r, j, k, n)
    ensures PathN(r, i, k, m + n + 1)
    decreases m
  {
    if m > 0 {
      var l :| Holds(r, i, l) && PathN(r, l, j, m - 1);
      PathAppend(r, l, j, k, m - 1, n);
    }
  }

  lemma {:induction false} ViaPath(r: Rel, k: nat, i: int, j: int)
    requires Via(r, k, i, j)
    ensures Path(r, i, j)
    decreases k
  {
    if k == 0 {
      assert PathN(r, i, j, 0);
    } else if Via(r, k - 1, i, j) {
      ViaPath(r, k - 1, i, j);
    } else {
      ViaPath(r, k - 1, i, k - 1);
      ViaPath(r, k - 1, k - 1, j);
      var m: nat :| PathN(r, i, k - 1, m);
      var n: nat :| PathN(r, k - 1, j, n);
      PathAppend(r, i, k - 1, j, m, n);
    }
  }

  /** Paths through nodes below `k` compose at a node below `k`. */
  lemma {:induction false} ViaCompose(r: Rel, k: nat, i: int, m: int, j: int)
    requires Via(r, k, i, m) && Via(r, k, m, j) && 0 <= m < k
    ensures Via(r, k, i, j)
    decreases k
  {
    var p := k - 1;
    if m < p {
      if Via(r, p, i, m) && Via(r, p, m, j) { ViaCompose(r, p, i, m, j); }
      if Via(r, p, i, m) && Via(r, p, m, p) { ViaCompose(r, p, i, m, p); }
      if Via(r, p, p, m) && Via(r, p, m, j) { ViaCompose(r, p, p, m, j); }
    }
  }

  lemma {:induction false} ViaMore(r: Rel, k: nat, n: nat, i: int, j: int)
    requires k <= n && Via(r, k, i, j)
    ensures Via(r, n, i, j)
    decreases n
  {
    if k < n { ViaMore(r, k, n - 1, i, j); }
  }

  lemma {:induction false} PathVia(r: Rel, n: nat, i: int, j: int, m: nat)
    requires Square(r, n) && PathN(r, i, j, m)
    ensures Via(r, n, i, j)
    decreases m
  {
    if m == 0 {
      ViaMore(r, 0, n, i, j);
    } else {
      var k :| Holds(r, i, k) && PathN(r, k, j, m - 1);
      PathVia(r, n, k, j, m - 1);
      ViaMore(r, 0, n, i, k);
      ViaCompose(r, n, i, k, j);
    }
  }

  /** The matrix holds the relation `r`. */
  ghost predicate Matrix(a: array2<bool>, r: Rel, n: nat)
    reads a
  {
    a.Length0 == n == a.Length1 && Square(r, n) && forall i, j {:trigger a[i, j]} :: 0 <= i < n && 0 <= j < n ==>
      a[i, j] == r[i][j]
  }

  /** `transitive_closure` */
  method TransitiveClosure(a: array2<bool>, n: nat, ghost r: Rel)
    requires Matrix(a, r, n)
    modifies a
    ensures forall i, j {:trigger a[i, j]} :: 0 <= i < n && 0 <= j < n ==> (a[i, j] <==> Path(r, i, j))
  {
    hide Path;
    var k := 0;
    while k < n
      invariant 0 <= k <= n
      invariant forall i, j {:trigger a[i, j]} :: 0 <= i < n && 0 <= j < n ==> a[i, j] == Via(r, k, i, j)
    {
      var j := 0;
      while j < n
        invariant 0 <= j <= n
        invariant forall i, l {:trigger a[i, l]} :: 0 <= i < n && 0 <= l < n ==>
                  a[i, l] == Via(r, if i < j then k + 1 else k, i, l)
      {
        RowSame(a, n, r, k, j);
        if a[j, k] {
          OrRow(a, n, r, k, j);
        } else {
          assert forall l {:trigger a[j, l]} :: 0 <= l < n ==> a[j, l] == Via(r, k + 1, j, l);
        }
        j := j + 1;
      }
      k := k + 1;
    }
    forall i, j | 0 <= i < n && 0 <= j < n ensures a[i, j] <==> Path(r, i, j) { ViaIsPath(r, n, i, j); }
  }

  lemma ViaIsPath(r: Rel, n: nat, i: int, j: int)
    requires Square(r, n)
    ensures Via(r, n, i, j) <==> Path(r, i, j)
  {
    if Via(r, n, i, j) { ViaPath(r, n, i, j); }
    if m: nat :| PathN(r, i, j, m) { PathVia(r, n, i, j, m); }
  }

  /** Row `k` does not change while it is being added to the others. */
  lemma RowSame(a: array2<bool>, n: nat, r: Rel, k: nat, j: nat)
    requires a.Length0 == n == a.Length1 && k < n && j <= n
    requires forall i, l {:trigger a[i, l]} :: 0 <= i < n && 0 <= l < n ==>
             a[i, l] == Via(r, if i < j then k + 1 else k, i, l)
    ensures forall l {:trigger a[k, l]} :: 0 <= l < n ==> a[k, l] == Via(r, k, k, l)
  {
    forall l | 0 <= l < n ensures a[k, l] == Via(r, k, k, l) {
      assert Via(r, k + 1, k, l) == (Via(r, k, k, l) || (Via(r, k, k, k) && Via(r, k, k, l)));
    }
  }

  /** Adds row `k` to row `j`. */
  method OrRow(a: array2<bool>, n: nat, ghost r: Rel, k: nat, j: nat)
    requires a.Length0 == n == a.Length1 && k < n && j < n && a[j, k]
    requires forall i, l {:trigger a[i, l]} :: 0 <= i < n && 0 <= l < n ==>
             a[i, l] == Via(r, if i < j then k + 1 else k, i, l)
    requires forall l {:trigger a[k, l]} :: 0 <= l < n ==> a[k, l] == Via(r, k, k, l)
    modifies a
    ensures forall i, l {:trigger a[i, l]} :: 0 <= i < n && 0 <= l < n ==>
            a[i, l] == Via(r, if i < j + 1 then k + 1 else k, i, l)
  {
    assert Via(r, k, j, k);
    var l := 0;
    while l < n
      invariant 0 <= l <= n
      invariant forall i, m {:trigger a[i, m]} :: 0 <= i < n && 0 <= m < n && i != j ==> a[i, m] == old(a[i, m])
      invariant forall m {:trigger a[j, m]} :: 0 <= m < l ==> a[j, m] == (old(a[j, m]) || old(a[k, m]))
      invariant forall m {:trigger a[j, m]} :: l <= m < n ==> a[j, m] == old(a[j, m])
    {
      a[j, l] := a[j, l] || a[k, l];
      l := l + 1;
    }
  }

  /** `reflexive_transitive_closure` */
  method ReflexiveTransitiveClosure(a: array2<bool>, n: nat, ghost r: Rel)
    requires Matrix(a, r, n)
    modifies a
    ensures forall i, j {:trigger a[i, j]} :: 0 <= i < n && 0 <= j < n ==> (a[i, j] <==> i == j || Path(r, i, j))
  {
    TransitiveClosure(a, n, r);
    var i := 0;
    while i < n
      invariant 0 <= i <= n
      invariant forall l, m {:trigger a[l, m]} :: 0 <= l < n && 0 <= m < n ==>
                (a[l, m] <==> (l == m && l < i) || Path(r, l, m))
    {
      a[i, i] := true;
      i := i + 1;
    }
  }
}
