/**
 * The tables of a generated lexer: each state's row of moves is packed into two arrays shared by all the states, in
 * slots that the others leave free. What the engine reads in them is the automaton, move by move.
 */
module LexTables {
  import opened Lexing

  datatype Move = Backtrack | Goto(state: nat)
  datatype Remembered = NoRemember | Remember(action: nat)
  datatype State = Perform(action: nat) | Shift(remembered: Remembered, moves: seq<Move>)

  const SYMBOLS := 257
  const FREE := -1

  /** A row has a move for every byte and for the end of file, to states of the automaton. */
  ghost predicate WellFormed(auto: seq<State>) {
    forall s {:trigger auto[s]} :: 0 <= s < |auto| && auto[s].Shift? ==> RowOk(auto[s].moves, |auto|)
  }

  ghost predicate RowOk(moves: seq<Move>, n: nat) {
    |moves| == SYMBOLS && forall c {:trigger moves[c]} :: 0 <= c < SYMBOLS && moves[c].Goto? ==> moves[c].state < n
  }

  // ---- The default of a row -----------------------------------------------------------------------------------------

  /** The element that occurs most often. */
  method MostFrequent(v: seq<int>) returns (best: int)
    requires |v| > 0
    ensures best in v && forall e {:trigger multiset(v)[e]} :: multiset(v)[e] <= multiset(v)[best]
  {
    var frequencies: map<int, nat>, most := map[], 0;
    best := v[0];
    for i := 0 to |v|
      invariant forall e {:trigger e in frequencies} :: e in frequencies <==> e in v[..i]
      invariant forall e {:trigger frequencies[e]} :: e in frequencies ==>
                  frequencies[e] == multiset(v[..i])[e] + 1 <= most
      invariant if i == 0 then most == 0 else best in frequencies && frequencies[best] == most
    {
      var e := v[i];
      assert v[..i + 1] == v[..i] + [e];
      var r := (if e in frequencies then frequencies[e] else 1) + 1;
      frequencies := frequencies[e := r];
      if r > most { most, best := r, e; }
    }
    assert v[..|v|] == v;
    forall e ensures multiset(v)[e] <= multiset(v)[best] {
      if e in v { assert e in frequencies; }
    }
  }

  /** The moves that differ from the default, from `i` on, with their symbols. */
  function NonDefault(def: int, v: seq<int>, i: nat): seq<(nat, int)>
    decreases |v| - i
  {
    if i >= |v| then []
    else if v[i] == def then NonDefault(def, v, i + 1)
    else [(i, v[i])] + NonDefault(def, v, i + 1)
  }

  lemma {:induction false} NonDefaultIs(def: int, v: seq<int>, i: nat, x: (nat, int))
    ensures x in NonDefault(def, v, i) <==> i <= x.0 < |v| && v[x.0] == x.1 != def
    decreases |v| - i
  {
    if i < |v| { NonDefaultIs(def, v, i + 1, x); }
  }

  // ---- Packing ------------------------------------------------------------------------------------------------------

  /** State `s` finds its row from `base` on: its own moves in the slots that it owns, its default for the others. */
  ghost predicate Packed(trans: seq<int>, check: seq<int>, base: int, def: int, row: seq<int>, s: int) {
    && |row| == SYMBOLS && |trans| == |check| && 0 <= base && base + SYMBOLS <= |check|
    && forall c {:trigger row[c]} :: 0 <= c < SYMBOLS ==> Slot(trans, check, base + c, def, row[c], s)
  }

  predicate Slot(trans: seq<int>, check: seq<int>, p: int, def: int, v: int, s: int)
    requires 0 <= p < |trans| == |check|
  {
    if v == def then check[p] != s else check[p] == s && trans[p] == v
  }

  /** Slots in use keep their contents, and what is added belongs to state `s`. */
  ghost predicate Extends(trans: seq<int>, check: seq<int>, trans': seq<int>, check': seq<int>, s: int, row: seq<int>) {
    && |trans| == |check| <= |trans'| == |check'|
    && (forall p: nat {:trigger ExtendsAt(trans, check, trans', check', s, row, p)} :: p < |check'| ==>
          ExtendsAt(trans, check, trans', check', s, row, p))
  }

  ghost predicate ExtendsAt(trans: seq<int>, check: seq<int>, trans': seq<int>, check': seq<int>, s: int,
                            row: seq<int>, p: nat)
    requires |trans| == |check| && p < |trans'| == |check'|
  {
    || (p < |check| && check'[p] == check[p] && trans'[p] == trans[p])
    || (p >= |check| && check'[p] == FREE && trans'[p] == 0)
    || ((p >= |check| || check[p] == FREE) && check'[p] == s && trans'[p] in row)
  }

  lemma PackedKept(trans: seq<int>, check: seq<int>, trans': seq<int>, check': seq<int>, base: int, def: int,
                   row: seq<int>, s: int, s': int, row': seq<int>)
    requires Packed(trans, check, base, def, row, s) && Extends(trans, check, trans', check', s', row')
    requires s != s' && s != FREE
    ensures Packed(trans', check', base, def, row, s)
  {
    forall c {:trigger row[c]} | 0 <= c < SYMBOLS ensures Slot(trans', check', base + c, def, row[c], s) {
      assert Slot(trans, check, base + c, def, row[c], s);
      assert ExtendsAt(trans, check, trans', check', s', row', base + c);
    }
  }

  /** Nothing is stored beyond the slots used, nor in a free slot. */
  ghost predicate Clean(trans: seq<int>, check: seq<int>, used: nat) {
    && used <= |check| == |trans|
    && (forall p {:trigger check[p]} :: used <= p < |check| ==> check[p] == FREE)
    && (forall p {:trigger trans[p]} :: 0 <= p < |check| && check[p] == FREE ==> trans[p] == 0)
  }

  class Packer {
    var trans: array<int>
    var check: array<int>
    var lastUsed: nat

    ghost predicate Valid()
      reads this, trans, check
    {
      trans != check && trans.Length == check.Length > 0 && Clean(trans[..], check[..], lastUsed)
    }

    constructor ()
      ensures Valid() && fresh(trans) && fresh(check) && lastUsed == 0
      ensures forall p {:trigger check[p]} :: 0 <= p < check.Length ==> check[p] == FREE
      ensures forall p {:trigger trans[p]} :: 0 <= p < trans.Length ==> trans[p] == 0
    {
      trans := new int[1024](_ => 0);
      check := new int[1024](_ => FREE);
      lastUsed := 0;
    }

    method Grow()
      requires Valid()
      modifies this
      ensures Valid() && fresh(trans) && fresh(check) && lastUsed == old(lastUsed)
      ensures check.Length == 2 * old(check.Length)
      ensures check[..] == old(check[..]) + seq(old(check.Length), _ => FREE)
      ensures trans[..] == old(trans[..]) + seq(old(check.Length), _ => 0)
    {
      var n, oldTrans, oldCheck := trans.Length, trans, check;
      var t := new int[2 * n](_ => 0);
      var c := new int[2 * n](_ => FREE);
      forall i | 0 <= i < lastUsed { t[i] := oldTrans[i]; }
      forall i | 0 <= i < lastUsed { c[i] := oldCheck[i]; }
      trans, check := t, c;
    }

    method TryPack(nondef: seq<(nat, int)>, b: nat) returns (ok: bool)
      requires forall x :: x in nondef ==> b + x.0 < check.Length
      ensures ok <==> Fits(check[..], nondef, b)
    {
      for i := 0 to |nondef|
        invariant forall x :: x in nondef[..i] ==> check[b + x.0] == FREE
      {
        if check[b + nondef[i].0] != FREE {
          assert nondef[i] in nondef;
          return false;
        }
      }
      assert nondef[..|nondef|] == nondef;
      return true;
    }

    /** Room for a row from `b` on. */
    method Reserve(b: nat)
      requires Valid()
      modifies this
      ensures Valid() && lastUsed == old(lastUsed) && b + SYMBOLS <= check.Length
      ensures (trans == old(trans) && check == old(check)) || (fresh(trans) && fresh(check))
      ensures Grown(old(trans[..]), old(check[..]), trans[..], check[..])
    {
      while b + SYMBOLS > check.Length
        invariant Valid() && lastUsed == old(lastUsed)
        invariant (trans == old(trans) && check == old(check)) || (fresh(trans) && fresh(check))
        invariant Grown(old(trans[..]), old(check[..]), trans[..], check[..])
        decreases b + SYMBOLS - check.Length
      {
        ghost var t, c := trans[..], check[..];
        Grow();
        GrownTrans(old(trans[..]), old(check[..]), t, c, trans[..], check[..]);
      }
    }

    /** The first place where the moves fall on free slots. */
    method PackFrom(nondef: seq<(nat, int)>) returns (b: nat)
      requires Valid() && Symbols(nondef)
      modifies this
      ensures Valid() && lastUsed == old(lastUsed) && b + SYMBOLS <= check.Length
      ensures Fits(check[..], nondef, b) && NoneBefore(check[..], nondef, b)
      ensures (trans == old(trans) && check == old(check)) || (fresh(trans) && fresh(check))
      ensures Grown(old(trans[..]), old(check[..]), trans[..], check[..])
    {
      hide Fits, NoneBefore, Grown;
      b := 0;
      Reserve(b);
      NoneYet(check[..], nondef);
      var ok := TryPack(nondef, b);
      while !ok
        invariant Valid() && lastUsed == old(lastUsed) && b + SYMBOLS <= check.Length
        invariant ok <==> Fits(check[..], nondef, b)
        invariant NoneBefore(check[..], nondef, b)
        invariant (trans == old(trans) && check == old(check)) || (fresh(trans) && fresh(check))
        invariant Grown(old(trans[..]), old(check[..]), trans[..], check[..])
        decreases !ok, lastUsed - b
      {
        ghost var t, c := trans[..], check[..];
        FitsUnused(c, nondef, b, lastUsed);
        b := b + 1;
        Reserve(b);
        NextPlace(t, c, trans[..], check[..], nondef, b - 1);
        GrownTrans(old(trans[..]), old(check[..]), t, c, trans[..], check[..]);
        ok := TryPack(nondef, b);
      }
    }

    /** The moves that differ from the default go to their slots, marked as those of state `s`. */
    method Store(nondef: seq<(nat, int)>, base: nat, s: int, ghost row: seq<int>)
      requires trans != check && trans.Length == check.Length && base + SYMBOLS <= check.Length && |row| == SYMBOLS
      requires forall x :: x in nondef ==> x.0 < SYMBOLS && row[x.0] == x.1
      modifies trans, check
      ensures forall x :: x in nondef ==> check[base + x.0] == s && trans[base + x.0] == x.1
      ensures Stored(old(trans[..]), old(check[..]), trans[..], check[..], nondef, base, s)
    {
      for i := 0 to |nondef|
        invariant forall x :: x in nondef[..i] ==> check[base + x.0] == s && trans[base + x.0] == x.1
        invariant Stored(old(trans[..]), old(check[..]), trans[..], check[..], nondef, base, s)
      {
        ghost var t, c := trans[..], check[..];
        var x := nondef[i];
        assert x in nondef && nondef[..i + 1] == nondef[..i] + [x];
        trans[base + x.0] := x.1;
        check[base + x.0] := s;
        assert trans[..] == t[base + x.0 := x.1] && check[..] == c[base + x.0 := s];
        StoredMore(old(trans[..]), old(check[..]), t, c, nondef, base, s, x);
      }
      assert nondef[..|nondef|] == nondef;
    }

    method PackMoves(s: nat, moves: seq<Move>) returns (base: nat, def: int)
      requires Valid() && |moves| == SYMBOLS && s !in check[..]
      modifies this, trans, check
      ensures Valid() && base + SYMBOLS <= lastUsed && old(lastUsed) <= lastUsed
      ensures (trans == old(trans) && check == old(check)) || (fresh(trans) && fresh(check))
      ensures def in Row(moves) && Packed(trans[..], check[..], base, def, Row(moves), s)
      ensures Extends(old(trans[..]), old(check[..]), trans[..], check[..], s, Row(moves))
    {
      hide Fits, NoneBefore, Grown, Stored, Clean, Packed, Extends;
      var v := Row(moves);
      def := MostFrequent(v);
      var nondef := NonDefault(def, v, 0);
      forall x: (nat, int)
        ensures x in nondef <==> 0 <= x.0 < |v| && v[x.0] == x.1 != def
      {
        NonDefaultIs(def, v, 0, x);
      }
      base := PackFrom(nondef);
      ghost var t, c := trans[..], check[..];
      Store(nondef, base, s, v);
      ghost var used := lastUsed;
      if base + SYMBOLS > lastUsed { lastUsed := base + SYMBOLS; }
      StoredClean(t, c, trans[..], check[..], nondef, base, s, used, lastUsed);
      StoredRow(old(trans[..]), old(check[..]), t, c, trans[..], check[..], nondef, base, def, v, s);
    }
  }

  ghost predicate Symbols(nondef: seq<(nat, int)>) { forall x :: x in nondef ==> x.0 < SYMBOLS }

  ghost predicate Fits(check: seq<int>, nondef: seq<(nat, int)>, b: nat) {
    forall x :: x in nondef ==> b + x.0 < |check| && check[b + x.0] == FREE
  }

  ghost predicate NoneBefore(check: seq<int>, nondef: seq<(nat, int)>, b: nat) {
    forall b': nat {:trigger Fits(check, nondef, b')} :: b' < b ==> !Fits(check, nondef, b')
  }

  lemma NoneYet(check: seq<int>, nondef: seq<(nat, int)>)
    ensures NoneBefore(check, nondef, 0)
  {
  }

  /** Beyond the slots used, everything fits. */
  lemma FitsUnused(check: seq<int>, nondef: seq<(nat, int)>, b: nat, used: nat)
    requires Symbols(nondef) && b + SYMBOLS <= |check| && used <= |check|
    requires forall p {:trigger check[p]} :: used <= p < |check| ==> check[p] == FREE
    ensures b >= used ==> Fits(check, nondef, b)
  {
  }

  lemma NextPlace(t: seq<int>, c: seq<int>, t': seq<int>, c': seq<int>, nondef: seq<(nat, int)>, b: nat)
    requires Grown(t, c, t', c') && Symbols(nondef) && b + SYMBOLS <= |c|
    requires NoneBefore(c, nondef, b) && !Fits(c, nondef, b)
    ensures NoneBefore(c', nondef, b + 1)
  {
    forall b': nat {:trigger Fits(c', nondef, b')} | b' < b + 1 ensures !Fits(c', nondef, b') {
      assert !Fits(c, nondef, b');
      var x :| x in nondef && !(b' + x.0 < |c| && c[b' + x.0] == FREE);
      assert c'[b' + x.0] == c[b' + x.0];
    }
  }

  /** The arrays have only got longer. */
  ghost predicate Grown(trans: seq<int>, check: seq<int>, trans': seq<int>, check': seq<int>) {
    && |trans| == |check| <= |trans'| == |check'| && trans <= trans' && check <= check'
    && (forall p {:trigger check'[p]} :: |check| <= p < |check'| ==> check'[p] == FREE && trans'[p] == 0)
  }

  lemma GrownTrans(t: seq<int>, c: seq<int>, t1: seq<int>, c1: seq<int>, t2: seq<int>, c2: seq<int>)
    requires Grown(t, c, t1, c1) && Grown(t1, c1, t2, c2)
    ensures Grown(t, c, t2, c2)
  {
    forall p {:trigger c2[p]} | |c| <= p < |c2| ensures c2[p] == FREE && t2[p] == 0 {
      if p < |c1| { assert c2[p] == c1[p] && t2[p] == t1[p]; }
    }
  }

  function Target(m: Move): int { if m.Goto? then m.state else -1 }

  function Row(moves: seq<Move>): (v: seq<int>)
    ensures |v| == |moves| && forall c {:trigger v[c]} :: 0 <= c < |v| ==> v[c] == Target(moves[c])
  {
    seq(|moves|, c requires 0 <= c < |moves| => Target(moves[c]))
  }

  ghost predicate StoredAt(t: seq<int>, c: seq<int>, t': seq<int>, c': seq<int>, nondef: seq<(nat, int)>, base: nat,
                           s: int, p: int)
    requires 0 <= p < |t| == |c| == |t'| == |c'|
  {
    (t'[p] == t[p] && c'[p] == c[p]) || (p >= base && (p - base, t'[p]) in nondef && c'[p] == s)
  }

  ghost predicate Stored(t: seq<int>, c: seq<int>, t': seq<int>, c': seq<int>, nondef: seq<(nat, int)>, base: nat,
                         s: int)
  {
    && |t| == |c| == |t'| == |c'|
    && forall p {:trigger StoredAt(t, c, t', c', nondef, base, s, p)} :: 0 <= p < |c| ==>
         StoredAt(t, c, t', c', nondef, base, s, p)
  }

  lemma StoredMore(t0: seq<int>, c0: seq<int>, t: seq<int>, c: seq<int>, nondef: seq<(nat, int)>, base: nat, s: int,
                   x: (nat, int))
    requires Stored(t0, c0, t, c, nondef, base, s) && x in nondef && base + x.0 < |c|
    ensures Stored(t0, c0, t[base + x.0 := x.1], c[base + x.0 := s], nondef, base, s)
  {
    var t', c' := t[base + x.0 := x.1], c[base + x.0 := s];
    forall p {:trigger StoredAt(t0, c0, t', c', nondef, base, s, p)} | 0 <= p < |c0|
      ensures StoredAt(t0, c0, t', c', nondef, base, s, p)
    {
      assert StoredAt(t0, c0, t, c, nondef, base, s, p);
    }
  }

  lemma StoredRow(t0: seq<int>, c0: seq<int>, t: seq<int>, c: seq<int>, t': seq<int>, c': seq<int>,
                  nondef: seq<(nat, int)>, base: nat, def: int, row: seq<int>, s: nat)
    requires Grown(t0, c0, t, c) && Stored(t, c, t', c', nondef, base, s) && base + SYMBOLS <= |c| && |row| == SYMBOLS
    requires forall x :: x in nondef <==> 0 <= x.0 < |row| && row[x.0] == x.1 != def
    requires forall x :: x in nondef ==> c'[base + x.0] == s && t'[base + x.0] == x.1
    requires Fits(c, nondef, base) && s !in c0
    ensures Packed(t', c', base, def, row, s) && Extends(t0, c0, t', c', s, row)
  {
    forall k {:trigger row[k]} | 0 <= k < SYMBOLS ensures Slot(t', c', base + k, def, row[k], s) {
      assert StoredAt(t, c, t', c', nondef, base, s, base + k);
      if row[k] != def { assert (k, row[k]) in nondef; }
    }
    forall p: nat {:trigger ExtendsAt(t0, c0, t', c', s, row, p)} | p < |c'|
      ensures ExtendsAt(t0, c0, t', c', s, row, p)
    {
      assert StoredAt(t, c, t', c', nondef, base, s, p);
    }
  }

  lemma StoredClean(t: seq<int>, c: seq<int>, t': seq<int>, c': seq<int>, nondef: seq<(nat, int)>, base: nat, s: nat,
                    used: nat, used': nat)
    requires Clean(t, c, used) && Stored(t, c, t', c', nondef, base, s) && Symbols(nondef)
    requires base + SYMBOLS <= |c| && used' == if base + SYMBOLS > used then base + SYMBOLS else used
    ensures Clean(t', c', used')
  {
    forall p | 0 <= p < |c'|
      ensures (used' <= p ==> c'[p] == FREE) && (c'[p] == FREE ==> t'[p] == 0)
    {
      assert StoredAt(t, c, t', c', nondef, base, s, p);
    }
  }

  // ---- The tables ---------------------------------------------------------------------------------------------------

  function Kept(r: Remembered): int { if r.Remember? then r.action else -1 }

  /** State `s` is in the tables. */
  ghost predicate Entered(auto: seq<State>, t: Tables, s: nat)
    requires s < |auto| == |t.base| == |t.backtrk| == |t.deflt|
  {
    match auto[s]
    case Perform(n) => t.base[s] == -(n + 1)
    case Shift(r, moves) =>
      && t.backtrk[s] == Kept(r) && t.deflt[s] in Row(moves)
      && Packed(t.trans, t.check, t.base[s], t.deflt[s], Row(moves), s)
  }

  /** The first `n` states are in the tables, and no other. */
  ghost predicate Filled(auto: seq<State>, t: Tables, n: nat) {
    && n <= |auto| == |t.base| == |t.backtrk| == |t.deflt| && |t.trans| == |t.check|
    && (forall s: nat {:trigger Entered(auto, t, s)} :: s < n ==> Entered(auto, t, s))
    && (forall s {:trigger t.deflt[s]} :: 0 <= s < |auto| && !(s < n && auto[s].Shift?) ==> t.deflt[s] == 0)
    && (forall p {:trigger t.check[p]} :: 0 <= p < |t.check| ==> t.check[p] < n)
    && (forall p {:trigger t.trans[p]} :: 0 <= p < |t.trans| ==> t.trans[p] == 0 || t.trans[p] < |auto|)
  }

  lemma RowBound(auto: seq<State>, s: nat, v: int)
    requires WellFormed(auto) && s < |auto| && auto[s].Shift? && v in Row(auto[s].moves)
    ensures v < |auto|
  {
    assert RowOk(auto[s].moves, |auto|);
    var c :| 0 <= c < SYMBOLS && Row(auto[s].moves)[c] == v;
    assert v == Target(auto[s].moves[c]);
  }

  lemma FilledPerform(auto: seq<State>, t: Tables, n: nat, base: seq<int>)
    requires Filled(auto, t, n) && n < |auto| && auto[n].Perform? && base == t.base[n := -(auto[n].action + 1)]
    ensures Filled(auto, t.(base := base), n + 1)
  {
    hide Packed;
    var t' := t.(base := base);
    forall s: nat {:trigger Entered(auto, t', s)} | s < n + 1 ensures Entered(auto, t', s) {
      if s < n { assert Entered(auto, t, s); }
    }
  }

  lemma FilledShift(auto: seq<State>, t: Tables, t': Tables, n: nat, b: int, d: int)
    requires WellFormed(auto) && Filled(auto, t, n) && n < |auto| && auto[n].Shift?
    requires t'.base == t.base[n := b] && t'.deflt == t.deflt[n := d]
    requires t'.backtrk == t.backtrk[n := Kept(auto[n].remembered)]
    requires Extends(t.trans, t.check, t'.trans, t'.check, n, Row(auto[n].moves)) && d in Row(auto[n].moves)
    requires Packed(t'.trans, t'.check, b, d, Row(auto[n].moves), n)
    ensures Filled(auto, t', n + 1)
  {
    hide Packed;
    forall s: nat {:trigger Entered(auto, t', s)} | s < n + 1 ensures Entered(auto, t', s) {
      if s < n && auto[s].Shift? {
        assert Entered(auto, t, s);
        PackedKept(t.trans, t.check, t'.trans, t'.check, t.base[s], t.deflt[s], Row(auto[s].moves), s, n,
                   Row(auto[n].moves));
      } else if s < n {
        assert Entered(auto, t, s);
      }
    }
    forall p: nat | p < |t'.check| ensures t'.check[p] < n + 1 && (t'.trans[p] == 0 || t'.trans[p] < |auto|) {
      assert ExtendsAt(t.trans, t.check, t'.trans, t'.check, n, Row(auto[n].moves), p);
      if t'.trans[p] in Row(auto[n].moves) { RowBound(auto, n, t'.trans[p]); }
    }
  }

  /** What the engine finds in the tables is the automaton. */
  ghost predicate Compacted(auto: seq<State>, t: Tables) {
    Sound(t) && |t.base| == |auto| && forall s: nat {:trigger Read(auto, t, s)} :: s < |auto| ==> Read(auto, t, s)
  }

  ghost predicate Read(auto: seq<State>, t: Tables, s: nat)
    requires Sound(t) && s < |auto| == |t.base|
  {
    match auto[s]
    case Perform(n) => t.base[s] == -(n + 1)
    case Shift(r, moves) =>
      && t.base[s] >= 0 && |moves| == SYMBOLS
      && t.backtrk[s] == (if r.Remember? then r.action else -1)
      && forall c {:trigger moves[c]} :: 0 <= c <= EOF ==>
           Next(t, s, c) == if moves[c].Goto? then moves[c].state else -1
  }

  lemma EnteredRead(auto: seq<State>, t: Tables, s: nat)
    requires Sound(t) && s < |auto| == |t.base| && Entered(auto, t, s)
    ensures Read(auto, t, s)
  {
    if auto[s].Shift? {
      var moves := auto[s].moves;
      forall c {:trigger moves[c]} | 0 <= c <= EOF ensures Next(t, s, c) == if moves[c].Goto? then moves[c].state
        else -1
      {
        assert Slot(t.trans, t.check, t.base[s] + c, t.deflt[s], Row(moves)[c], s);
      }
    }
  }

  lemma FilledSound(auto: seq<State>, t: Tables)
    requires WellFormed(auto) && Filled(auto, t, |auto|) && (|auto| == 0 ==> |t.trans| == 0)
    ensures Sound(t)
  {
    forall s | 0 <= s < |t.base| && t.base[s] >= 0 ensures t.base[s] + EOF < |t.check| {
      assert Entered(auto, t, s);
    }
    forall s | 0 <= s < |t.base| ensures t.deflt[s] < |t.base| {
      assert Entered(auto, t, s);
      if auto[s].Shift? { RowBound(auto, s, t.deflt[s]); }
    }
  }

  /** The rows lie among the slots used. */
  ghost predicate Within(auto: seq<State>, base: seq<int>, n: nat, used: nat) {
    n <= |auto| == |base| && forall s {:trigger base[s]} :: 0 <= s < n && auto[s].Shift? ==> base[s] + SYMBOLS <= used
  }

  /** The unused ends of the arrays can go. */
  lemma Cut(auto: seq<State>, t: Tables, n: nat, used: nat)
    requires Filled(auto, t, n) && Within(auto, t.base, n, used) && used <= |t.check|
    ensures Filled(auto, t.(trans := t.trans[..used], check := t.check[..used]), n)
  {
    var t' := t.(trans := t.trans[..used], check := t.check[..used]);
    forall s: nat {:trigger Entered(auto, t', s)} | s < n ensures Entered(auto, t', s) {
      assert Entered(auto, t, s);
      if auto[s].Shift? {
        var row, b := Row(auto[s].moves), t.base[s];
        forall c {:trigger row[c]} | 0 <= c < SYMBOLS ensures Slot(t'.trans, t'.check, b + c, t.deflt[s], row[c], s) {
          assert Slot(t.trans, t.check, b + c, t.deflt[s], row[c], s);
        }
      }
    }
  }

  ghost function View(packer: Packer, base: array<int>, backtrk: array<int>, deflt: array<int>): Tables
    reads packer, packer.trans, packer.check, base, backtrk, deflt
  {
    Tables(base[..], backtrk[..], deflt[..], packer.trans[..], packer.check[..])
  }

  ghost predicate Separate(packer: Packer, base: array<int>, backtrk: array<int>, deflt: array<int>)
    reads packer
  {
    base != backtrk && base != deflt && backtrk != deflt && {base, backtrk, deflt} !! {packer.trans, packer.check}
  }

  method AddState(auto: seq<State>, packer: Packer, base: array<int>, backtrk: array<int>, deflt: array<int>, i: nat)
    requires WellFormed(auto) && packer.Valid() && Separate(packer, base, backtrk, deflt) && i < |auto|
    requires Filled(auto, View(packer, base, backtrk, deflt), i) && Within(auto, base[..], i, packer.lastUsed)
    requires backtrk[i] == -1
    modifies packer, packer.trans, packer.check, base, backtrk, deflt
    ensures packer.Valid() && Separate(packer, base, backtrk, deflt)
    ensures (packer.trans == old(packer.trans) && packer.check == old(packer.check)) ||
            (fresh(packer.trans) && fresh(packer.check))
    ensures Filled(auto, View(packer, base, backtrk, deflt), i + 1) && Within(auto, base[..], i + 1, packer.lastUsed)
    ensures backtrk[..] == old(backtrk[..])[i := backtrk[i]]
  {
    hide WellFormed, Packed, Extends, Clean, Row;
    FilledFresh(auto, View(packer, base, backtrk, deflt), i);
    ghost var t := View(packer, base, backtrk, deflt);
    hide Filled;
    match auto[i]
    case Perform(action) =>
      base[i] := -(action + 1);
      assert base[..] == t.base[i := -(action + 1)];
      FilledPerform(auto, t, i, base[..]);
      WithinNext(auto, t.base, base[..], i, packer.lastUsed, packer.lastUsed);
    case Shift(remembered, moves) =>
      ghost var used := packer.lastUsed;
      if remembered.Remember? { backtrk[i] := remembered.action; }
      var b, d := packer.PackMoves(i, moves);
      base[i] := b;
      deflt[i] := d;
      assert base[..] == t.base[i := b] && deflt[..] == t.deflt[i := d] &&
             backtrk[..] == t.backtrk[i := Kept(remembered)];
      FilledShift(auto, t, View(packer, base, backtrk, deflt), i, b, d);
      WithinNext(auto, t.base, base[..], i, used, packer.lastUsed);
  }

  lemma WithinNext(auto: seq<State>, base: seq<int>, base': seq<int>, n: nat, used: nat, used': nat)
    requires Within(auto, base, n, used) && n < |auto| == |base'| && base' == base[n := base'[n]] && used <= used'
    requires auto[n].Shift? ==> base'[n] + SYMBOLS <= used'
    ensures Within(auto, base', n + 1, used')
  {
  }

  /** `compact_tables`: the tables of an automaton. */
  method CompactTables(auto: seq<State>) returns (t: Tables)
    requires WellFormed(auto)
    ensures Compacted(auto, t)
  {
    hide Filled, WellFormed, Compacted;
    var n := |auto|;
    var base, backtrk, deflt := new int[n](_ => 0), new int[n](_ => -1), new int[n](_ => 0);
    var packer := new Packer();
    FilledNone(auto, View(packer, base, backtrk, deflt));
    for i := 0 to n
      invariant packer.Valid() && Separate(packer, base, backtrk, deflt) && fresh(packer.trans) && fresh(packer.check)
      invariant Filled(auto, View(packer, base, backtrk, deflt), i)
      invariant Within(auto, base[..], i, packer.lastUsed) && (n == 0 ==> packer.lastUsed == 0)
      invariant forall s {:trigger backtrk[s]} :: i <= s < n ==> backtrk[s] == -1
    {
      AddState(auto, packer, base, backtrk, deflt, i);
    }
    var used := packer.lastUsed;
    Cut(auto, View(packer, base, backtrk, deflt), n, used);
    t := Tables(base[..], backtrk[..], deflt[..], packer.trans[..used], packer.check[..used]);
    assert packer.trans[..][..used] == packer.trans[..used] && packer.check[..][..used] == packer.check[..used];
    FilledRead(auto, t);
  }

  lemma FilledNone(auto: seq<State>, t: Tables)
    requires |auto| == |t.base| == |t.backtrk| == |t.deflt| && |t.trans| == |t.check|
    requires forall s {:trigger t.deflt[s]} :: 0 <= s < |auto| ==> t.deflt[s] == 0
    requires forall p {:trigger t.check[p]} :: 0 <= p < |t.check| ==> t.check[p] == FREE
    requires forall p {:trigger t.trans[p]} :: 0 <= p < |t.trans| ==> t.trans[p] == 0
    ensures Filled(auto, t, 0)
  {
  }

  lemma FilledFresh(auto: seq<State>, t: Tables, n: nat)
    requires Filled(auto, t, n) && n < |auto| && WellFormed(auto)
    ensures n !in t.check && (auto[n].Shift? ==> |auto[n].moves| == SYMBOLS)
  {
  }

  lemma FilledRead(auto: seq<State>, t: Tables)
    requires WellFormed(auto) && Filled(auto, t, |auto|) && (|auto| == 0 ==> |t.trans| == 0)
    ensures Compacted(auto, t)
  {
    FilledSound(auto, t);
    hide Sound, Packed;
    forall s: nat {:trigger Read(auto, t, s)} | s < |auto| ensures Read(auto, t, s) {
      assert Entered(auto, t, s);
      EnteredRead(auto, t, s);
    }
  }

  // ---- Runs ---------------------------------------------------------------------------------------------------------

  /** The state of the automaton after `k` symbols from `start`, or -1 once there is none. */
  function Run(auto: seq<State>, input: seq<int>, s: int, start: nat, k: nat): int {
    if k == 0 then s
    else
      var p, c := Run(auto, input, s, start, k - 1), if start + k - 1 < |input| then input[start + k - 1] else 256;
      if 0 <= p < |auto| && auto[p].Shift? && 0 <= c < |auto[p].moves| && auto[p].moves[c].Goto?
        then auto[p].moves[c].state else -1
  }

  /** What the automaton recognises in a state, or -1. */
  function Recognised(auto: seq<State>, s: int): int {
    if !(0 <= s < |auto|) then -1
    else match auto[s]
      case Perform(n) => n
      case Shift(Remember(n), _) => n
      case Shift(NoRemember, _) => -1
  }

  lemma {:induction false} RunIs(auto: seq<State>, t: Tables, input: seq<int>, s: int, start: nat, k: nat)
    requires Compacted(auto, t) && Bytes(input)
    ensures StateAfter(t, input, s, start, k) == Run(auto, input, s, start, k)
    ensures ActionOf(t, StateAfter(t, input, s, start, k)) == Recognised(auto, Run(auto, input, s, start, k))
  {
    if k > 0 {
      RunIs(auto, t, input, s, start, k - 1);
      var p := Run(auto, input, s, start, k - 1);
      if 0 <= p < |auto| { assert Read(auto, t, p); }
    }
    var q := Run(auto, input, s, start, k);
    if 0 <= q < |auto| { assert Read(auto, t, q); }
  }

  /** The longest prefix that the automaton recognises has `m` symbols, and `action` is what it is recognised as. */
  ghost predicate Longest(auto: seq<State>, input: seq<int>, s: int, start: nat, m: nat, action: int) {
    && action == Recognised(auto, Run(auto, input, s, start, m)) && action >= 0
    && forall k: nat {:trigger Run(auto, input, s, start, k)} :: k > m ==>
         Recognised(auto, Run(auto, input, s, start, k)) == -1
  }

  ghost predicate Nowhere(auto: seq<State>, input: seq<int>, s: int, start: nat) {
    forall k: nat {:trigger Run(auto, input, s, start, k)} :: Recognised(auto, Run(auto, input, s, start, k)) == -1
  }

  /** The longest match in the tables is that of the automaton. */
  lemma MatchIs(auto: seq<State>, t: Tables, input: seq<int>, s: int, start: nat, m: nat)
    requires Compacted(auto, t) && Bytes(input)
    ensures LongestAt(t, input, s, start, m) <==>
            Longest(auto, input, s, start, m, ActionOf(t, StateAfter(t, input, s, start, m)))
    ensures NoMatch(t, input, s, start) <==> Nowhere(auto, input, s, start)
  {
    assert Sound(t) && |t.backtrk| == |t.base|;
    hide StateAfter, Run, Compacted;
    forall k: nat ensures StateAfter(t, input, s, start, k) == Run(auto, input, s, start, k)
                  ensures ActionOf(t, StateAfter(t, input, s, start, k)) ==
                          Recognised(auto, Run(auto, input, s, start, k))
                  ensures Recognised(auto, Run(auto, input, s, start, k)) >= -1
    {
      RunIs(auto, t, input, s, start, k);
    }
  }

  predicate Stopped(auto: seq<State>, s: int) { !(0 <= s < |auto|) || auto[s].Perform? }

  lemma StoppedIs(auto: seq<State>, t: Tables, input: seq<int>, s: int, start: nat, k: nat)
    requires Compacted(auto, t) && Bytes(input)
    ensures Halted(t, StateAfter(t, input, s, start, k)) <==> Stopped(auto, Run(auto, input, s, start, k))
  {
    hide StateAfter, Run;
    RunIs(auto, t, input, s, start, k);
    var p := Run(auto, input, s, start, k);
    if 0 <= p < |auto| { assert Read(auto, t, p); }
  }

  /**
   * From the automaton to the token: its tables, packed and then read by the engine through the buffer, give the
   * longest prefix of the rest of the input that the automaton recognises, or nothing if it recognises none.
   */
  method LexToken(auto: seq<State>, b: LexBuffer, s: nat, maxLen: nat, ghost stop: nat)
    returns (r: Result, failed: bool, ghost m: nat)
    requires WellFormed(auto) && s < |auto| && b.Valid()
    requires Stopped(auto, Run(auto, b.input, s, b.absPos + b.currPos, stop))
    modifies b, b.buffer
    ensures !failed && r.Token? ==> Longest(auto, b.input, s, old(b.absPos + b.currPos), m, r.action)
    ensures !failed && r.EmptyToken? ==> Nowhere(auto, b.input, s, old(b.absPos + b.currPos))
    ensures !failed ==> b.Valid() && !r.NeedRefill?
    ensures !failed && r.Token? ==>
              && b.absPos + b.currPos == PosAfter(b.input, old(b.absPos + b.currPos), m)
              && b.absPos + b.startPos == old(b.absPos + b.currPos)
              && b.buffer[b.startPos..b.currPos] == b.input[b.absPos + b.startPos..b.absPos + b.currPos]
    ensures failed ==> b.startPos <= b.len && b.len - b.startPos + 512 > maxLen
  {
    hide WellFormed, Run, StateAfter, LongestAt, NoMatch, Longest, Nowhere, Read, Sound;
    ghost var start := b.absPos + b.currPos;
    var t := CompactTables(auto);
    StoppedIs(auto, t, b.input, s, start, stop);
    r, failed, m := b.NextToken(t, s, maxLen, stop);
    if !failed { MatchIs(auto, t, b.input, s, start, m); }
  }
}
