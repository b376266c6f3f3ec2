/** The linear congruential generator behind the levels of the skip list: from any seed it draws every word. */
module Congruential {
  import opened Powers

  const WORD: int := 0x1_0000_0000

  function NextSeed(seed: int): int { (seed * 69069 + 25173) % WORD }

  /** The seed after `n` draws. */
  function SeedAfter(seed: int, n: nat): int { if n == 0 then seed else NextSeed(SeedAfter(seed, n - 1)) }

  lemma {:induction false} SeedRange(seed: int, n: nat)
    requires 0 <= seed < WORD
    ensures 0 <= SeedAfter(seed, n) < WORD
  {
  }

  lemma {:induction false} SeedSum(seed: int, i: nat, j: nat)
    ensures SeedAfter(seed, i + j) == SeedAfter(SeedAfter(seed, i), j)
  {
    if j > 0 { SeedSum(seed, i, j - 1); }
  }

  // ---- Drawing `2^k` times is one affine map ---------------------------------------------------------------------

  function Slope(k: nat): nat {
    if k == 0 then 17267 else Slope(k - 1) + 2 * Pow2(k - 1) * Slope(k - 1) * Slope(k - 1)
  }

  function Shift(k: nat): nat {
    if k == 0 then 25173 else Shift(k - 1) * (1 + 2 * (Pow2(k - 1) * Slope(k - 1)))
  }

  /** `2^k` draws multiply the seed by `1 + 4 * 2^k * Slope(k)` and add `2^k * Shift(k)`. */
  function Jump(k: nat, s: int): int { s + 4 * Pow2(k) * Slope(k) * s + Pow2(k) * Shift(k) }

  lemma {:induction false} ShiftOdd(k: nat)
    ensures Shift(k) % 2 == 1
  {
    if k > 0 {
      ShiftOdd(k - 1);
      OddProduct(Shift(k - 1), Pow2(k - 1) * Slope(k - 1));
    }
  }

  lemma OddProduct(v: nat, x: nat)
    requires v % 2 == 1
    ensures (v * (1 + 2 * x)) % 2 == 1
  {
    assert v * (1 + 2 * x) == v + 2 * (v * x);
  }

  lemma JumpTwice(k: nat, s: int)
    ensures Jump(k + 1, s) == Jump(k, Jump(k, s))
  {
    var p, u, v := Pow2(k), Slope(k), Shift(k);
    assert Pow2(k + 1) == 2 * p && Slope(k + 1) == u + 2 * p * u * u && Shift(k + 1) == v * (1 + 2 * (p * u));
    JumpAlgebra(p, u, v, s);
  }

  lemma JumpAlgebra(p: int, u: int, v: int, s: int)
    ensures var t := s + 4 * p * u * s + p * v;
            t + 4 * p * u * t + p * v == s + 4 * (2 * p) * (u + 2 * p * u * u) * s + 2 * p * (v * (1 + 2 * (p * u)))
  {
    var q := p * u;
    var t := s + 4 * q * s + p * v;
    assert 4 * p * u * s == 4 * q * s && 4 * p * u * t == 4 * q * t;
    assert 4 * q * t == 4 * q * s + 16 * (q * (q * s)) + 4 * (q * (p * v));
    assert 4 * (2 * p) * (u + 2 * p * u * u) * s == 8 * (q * s) + 16 * (q * (q * s));
    assert 2 * p * (v * (1 + 2 * (p * u))) == 2 * (p * v) + 4 * (q * (p * v));
  }

  lemma {:induction false} DrawsJump(k: nat, s: int)
    requires 0 <= s < WORD
    ensures SeedAfter(s, Pow2(k)) == Jump(k, s) % WORD
    decreases k
  {
    if k == 0 {
      assert Pow2(0) == 1 && SeedAfter(s, 1) == NextSeed(SeedAfter(s, 0));
      assert Jump(0, s) == s * 69069 + 25173;
    } else {
      var p := Pow2(k - 1);
      var t := SeedAfter(s, p);
      SeedSum(s, p, p);
      SeedRange(s, p);
      DrawsJump(k - 1, s);
      DrawsJump(k - 1, t);
      JumpTwice(k - 1, s);
      JumpMod(k - 1, Jump(k - 1, s));
    }
  }

  /** A jump from a seed and from its remainder end in the same word. */
  lemma JumpMod(k: nat, s: int)
    ensures Jump(k, s % WORD) % WORD == Jump(k, s) % WORD
  {
    var q, m := s / WORD, 4 * Pow2(k) * Slope(k);
    assert s == q * WORD + s % WORD;
    assert m * s == m * (s % WORD) + m * q * WORD;
    AddMultiple(Jump(k, s % WORD), q + m * q);
  }

  lemma AddMultiple(x: int, q: int)
    ensures (x + q * WORD) % WORD == x % WORD
  {
    var n := x / WORD + q;
    assert x + q * WORD == n * WORD + x % WORD;
  }

  // ---- Every word is drawn -----------------------------------------------------------------------------------------

  /** `s` and `t` agree in their last `k` bits. */
  ghost predicate Agree(k: nat, s: int, t: int) { exists d :: s - t == d * Pow2(k) }

  /** When the next bit differs, a jump sets it right. */
  lemma JumpFlips(k: nat, s: int, t: int)
    requires k < 32 && Agree(k, s, t) && !Agree(k + 1, s, t)
    ensures Agree(k + 1, Jump(k, s) % WORD, t)
  {
    hide Pow2, Slope, Shift;
    var d :| s - t == d * Pow2(k);
    EvenAgrees(k, s, t, d);
    ShiftOdd(k);
    var w := HighPart(k);
    var n := Jump(k, s) / WORD;
    FlipAlgebra(Pow2(k), Slope(k), Shift(k), s, t, d, w, n);
  }

  lemma HighPart(k: nat) returns (w: nat)
    requires k < 32
    ensures WORD == 2 * Pow2(k) * w && Pow2(k + 1) == 2 * Pow2(k)
  {
    Pow2Sum(k + 1, 31 - k);
    Pow2Word();
    w := Pow2(31 - k);
  }

  lemma FlipAlgebra(p: int, u: int, v: int, s: int, t: int, d: int, w: int, n: int)
    requires s - t == d * p && d % 2 == 1 && v % 2 == 1
    ensures var j := s + 4 * p * u * s + p * v;
            j - n * (2 * p * w) - t == (d / 2 + v / 2 + 1 + 2 * (u * s) - n * w) * (2 * p)
  {
    var e, h := d / 2, v / 2;
    assert d * p == e * (2 * p) + p && p * v == h * (2 * p) + p;
    assert 4 * p * u * s == 2 * (u * s) * (2 * p);
    assert n * (2 * p * w) == n * w * (2 * p);
  }

  lemma EvenAgrees(k: nat, s: int, t: int, d: int)
    requires s - t == d * Pow2(k)
    ensures d % 2 == 0 ==> Agree(k + 1, s, t)
  {
    if d % 2 == 0 { assert s - t == (d / 2) * Pow2(k + 1); }
  }

  /** How many draws make `s` agree with `t` in the last `k` bits. */
  lemma {:induction false} DrawsToward(k: nat, s: int, t: int) returns (n: nat)
    requires k <= 32 && 0 <= s < WORD
    ensures Agree(k, SeedAfter(s, n), t)
    decreases k
  {
    if k == 0 {
      n := 0;
      assert SeedAfter(s, 0) - t == (SeedAfter(s, 0) - t) * Pow2(0);
    } else {
      n := DrawsToward(k - 1, s, t);
      var x := SeedAfter(s, n);
      if !Agree(k, x, t) {
        SeedRange(s, n);
        JumpFlips(k - 1, x, t);
        DrawsJump(k - 1, x);
        SeedSum(s, n, Pow2(k - 1));
        n := n + Pow2(k - 1);
      }
    }
  }

  /** From any seed, every word is drawn. */
  lemma EveryWordDrawn(s: int, t: int) returns (n: nat)
    requires 0 <= s < WORD && 0 <= t < WORD
    ensures SeedAfter(s, n) == t
  {
    n := DrawsToward(32, s, t);
    SeedRange(s, n);
    Pow2Word();
    var d :| SeedAfter(s, n) - t == d * Pow2(32);
  }
}
