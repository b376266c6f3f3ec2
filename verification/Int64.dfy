/** 64-bit arithmetic on pairs of 32-bit words. */
module Int64 {
  import opened Powers

  const W: int := 0x1_0000_0000
  const W2: int := 0x1_0000_0000_0000_0000
  const HALF: int := 0x8000_0000

  /** Two unsigned words, high and low. */
  datatype I64 = I64(h: int, l: int)

  predicate Ok(x: I64) { 0 <= x.h < W && 0 <= x.l < W }

  /** The unsigned value. */
  function U(x: I64): int { x.h * W + x.l }

  /** The signed value. */
  function S(x: I64): int { if x.h >= HALF then U(x) - W2 else U(x) }

  function Wrap(n: int): int { n % W }

  lemma Range(x: I64)
    requires Ok(x)
    ensures 0 <= U(x) < W2 && -W2 / 2 <= S(x) < W2 / 2 && S(x) % W2 == U(x)
    ensures x.h >= HALF <==> U(x) >= W2 / 2
  {
  }

  lemma Injective(x: I64, y: I64)
    requires Ok(x) && Ok(y) && U(x) == U(y)
    ensures x == y
  {
  }

  // ---- Comparison, negation, addition, subtraction --------------------------------------------------------------

  function UCompare(x: I64, y: I64): int {
    if x.h > y.h then 1 else if x.h < y.h then -1 else if x.l > y.l then 1 else if x.l < y.l then -1 else 0
  }

  lemma UCompareMeans(x: I64, y: I64)
    requires Ok(x) && Ok(y)
    ensures UCompare(x, y) >= 0 <==> U(x) >= U(y)
    ensures UCompare(x, y) <= 0 <==> U(x) <= U(y)
  {
  }

  function Neg(x: I64): I64 {
    var l := Wrap(-x.l);
    I64(if l == 0 then Wrap(W - 1 - x.h + 1) else W - 1 - x.h, l)
  }

  function Add(x: I64, y: I64): I64 {
    var l := Wrap(x.l + y.l);
    I64(if l < x.l then Wrap(x.h + y.h + 1) else Wrap(x.h + y.h), l)
  }

  function Sub(x: I64, y: I64): I64 {
    var l := Wrap(x.l - y.l);
    I64(if x.l < y.l then Wrap(x.h - y.h - 1) else Wrap(x.h - y.h), l)
  }

  /** What the value of a pair is modulo 2^64, from its high word modulo 2^32. */
  lemma ModPair(h: int, l: int)
    requires 0 <= l < W
    ensures (Wrap(h) * W + l) == (h * W + l) % W2
  {
    var q := h / W;
    assert h == q * W + Wrap(h);
    assert h * W + l == q * W2 + (Wrap(h) * W + l);
    ModUnique(h * W + l, q, Wrap(h) * W + l);
  }

  lemma ModUnique(n: int, q: int, r: int)
    requires n == q * W2 + r && 0 <= r < W2
    ensures n % W2 == r
  {
  }

  lemma AddMeans(x: I64, y: I64)
    requires Ok(x) && Ok(y)
    ensures Ok(Add(x, y)) && U(Add(x, y)) == (U(x) + U(y)) % W2
  {
    var l := Wrap(x.l + y.l);
    var c := if x.l + y.l >= W then 1 else 0;
    assert l == x.l + y.l - c * W;
    ModPair(x.h + y.h + c, l);
    assert (x.h + y.h + c) * W + l == U(x) + U(y);
  }

  lemma SubMeans(x: I64, y: I64)
    requires Ok(x) && Ok(y)
    ensures Ok(Sub(x, y)) && U(Sub(x, y)) == (U(x) - U(y)) % W2
  {
    var l := Wrap(x.l - y.l);
    var c := if x.l < y.l then 1 else 0;
    assert l == x.l - y.l + c * W;
    ModPair(x.h - y.h - c, l);
    assert (x.h - y.h - c) * W + l == U(x) - U(y);
  }

  lemma NegMeans(x: I64)
    requires Ok(x)
    ensures Ok(Neg(x)) && U(Neg(x)) == (-U(x)) % W2
  {
    var l := Wrap(-x.l);
    var c := if x.l == 0 then 0 else 1;
    assert l == c * W - x.l;
    ModPair(-x.h - c, l);
    assert (-x.h - c) * W + l == -U(x);
    assert Wrap(-x.h - 1) == W - 1 - x.h;
  }

  // ---- Multiplication ----------------------------------------------------------------------------------------------

  /** The sum of four products of half words, shifted by 0, 16, 16 and 32 bits. */
  function MulParts(p00: int, p10: int, p01: int, p11: int): I64 {
    var h0 := Wrap(p11 + p01 / 0x1_0000 + p10 / 0x1_0000);
    var q01, q10 := Wrap(p01 * 0x1_0000), Wrap(p10 * 0x1_0000);
    var l1 := Wrap(p00 + q01);
    var h1 := if l1 < q01 then Wrap(h0 + 1) else h0;
    var l2 := Wrap(l1 + q10);
    var h2 := if l2 < q10 then Wrap(h1 + 1) else h1;
    I64(h2, l2)
  }

  function MulLow(x: int, y: int): I64 {
    var x0, x1, y0, y1 := x % 0x1_0000, x / 0x1_0000, y % 0x1_0000, y / 0x1_0000;
    MulParts(Wrap(x0 * y0), Wrap(x1 * y0), Wrap(x0 * y1), Wrap(x1 * y1))
  }

  function Mul(x: I64, y: I64): I64 {
    var r := MulLow(x.l, y.l);
    r.(h := Wrap(r.h + Wrap(x.l * y.h) + Wrap(x.h * y.l)))
  }

  lemma MulLe(a: int, b: int, c: int)
    requires 0 <= a <= b && 0 <= c
    ensures 0 <= a * c <= b * c
  {
  }

  lemma Product16(a: int, b: int)
    requires 0 <= a < 0x1_0000 && 0 <= b < 0x1_0000
    ensures 0 <= a * b <= 0xFFFE_0001 && Wrap(a * b) == a * b
  {
    MulLe(a, 0xFFFF, b);
  }

  /** Adding a product shifted by 16 bits: its low half goes in the low word, with a carry. */
  lemma AddShifted(h: int, l: int, p: int)
    requires 0 <= l < W && 0 <= p < W
    ensures var q := Wrap(p * 0x1_0000);
            var l' := Wrap(l + q);
            && (h + p / 0x1_0000 + if l' < q then 1 else 0) * W + l' == h * W + l + p * 0x1_0000
            && 0 <= l' < W
  {
    var hi, lo := p / 0x1_0000, p % 0x1_0000;
    assert p * 0x1_0000 == hi * W + lo * 0x1_0000;
    assert Wrap(p * 0x1_0000) == lo * 0x1_0000;
    var q := lo * 0x1_0000;
    var c := if l + q >= W then 1 else 0;
    assert Wrap(l + q) == l + q - c * W;
  }

  lemma Expand(x0: int, x1: int, y0: int, y1: int)
    ensures (x1 * 0x1_0000 + x0) * (y1 * 0x1_0000 + y0) == x1 * y1 * W + (x0 * y1 + x1 * y0) * 0x1_0000 + x0 * y0
  {
  }

  lemma MulPartsMeans(p00: int, p10: int, p01: int, p11: int)
    requires 0 <= p00 <= 0xFFFE_0001 && 0 <= p10 <= 0xFFFE_0001 && 0 <= p01 <= 0xFFFE_0001 && 0 <= p11 <= 0xFFFE_0001
    ensures Ok(MulParts(p00, p10, p01, p11)) && U(MulParts(p00, p10, p01, p11)) ==
            p11 * W + (p01 + p10) * 0x1_0000 + p00
  {
    hide Wrap;
    var q01, q10 := Wrap(p01 * 0x1_0000), Wrap(p10 * 0x1_0000);
    var l1 := Wrap(p00 + q01);
    var l2 := Wrap(l1 + q10);
    var c1, c2 := if l1 < q01 then 1 else 0, if l2 < q10 then 1 else 0;
    var m01, m10 := p01 / 0x1_0000, p10 / 0x1_0000;
    AddShifted(p11 + m10, p00, p01);
    AddShifted(p11 + m01 + c1, l1, p10);
    HighWord(p11, m01, m10, c1, c2);
  }

  lemma HighWord(p11: int, m01: int, m10: int, c1: int, c2: int)
    requires 0 <= p11 <= 0xFFFE_0001 && 0 <= m01 <= 0xFFFE && 0 <= m10 <= 0xFFFE && 0 <= c1 <= 1 && 0 <= c2 <= 1
    ensures Wrap(p11 + m01 + m10) == p11 + m01 + m10
    ensures Wrap(p11 + m01 + m10 + 1) == p11 + m01 + m10 + 1
    ensures Wrap(p11 + m01 + m10 + 2) == p11 + m01 + m10 + 2
  {
  }

  lemma MulLowMeans(x: int, y: int)
    requires 0 <= x < W && 0 <= y < W
    ensures Ok(MulLow(x, y)) && U(MulLow(x, y)) == x * y
  {
    hide MulParts, Ok, U;
    var x0, x1, y0, y1 := x % 0x1_0000, x / 0x1_0000, y % 0x1_0000, y / 0x1_0000;
    Product16(x0, y0);
    Product16(x1, y0);
    Product16(x0, y1);
    Product16(x1, y1);
    Expand(x0, x1, y0, y1);
    MulPartsMeans(x0 * y0, x1 * y0, x0 * y1, x1 * y1);
  }

  lemma MulExpand(x: I64, y: I64)
    ensures U(x) * U(y) == x.h * y.h * W2 + (x.l * y.h + x.h * y.l) * W + x.l * y.l
  {
  }

  /** Words that agree modulo 2^32 make high words that agree. */
  lemma WrapSum(a: int, b: int, c: int)
    ensures Wrap(a + Wrap(b) + Wrap(c)) == Wrap(a + b + c)
  {
  }

  /** The high word is that of the low product plus the cross products; what is above it vanishes modulo 2^64. */
  lemma MulHigh(r: I64, a: int, b: int, c: int, product: int)
    requires Ok(r) && product == c * W2 + (a + b) * W + U(r)
    ensures Wrap(r.h + Wrap(a) + Wrap(b)) * W + r.l == product % W2
  {
    hide Wrap;
    WrapSum(r.h, a, b);
    ModPair(r.h + a + b, r.l);
    SameMod(product, (r.h + a + b) * W + r.l, c);
  }

  lemma MulMeans(x: I64, y: I64)
    requires Ok(x) && Ok(y)
    ensures Ok(Mul(x, y)) && U(Mul(x, y)) == (U(x) * U(y)) % W2
  {
    hide MulLow, Wrap;
    MulLowMeans(x.l, y.l);
    MulExpand(x, y);
    var r := MulLow(x.l, y.l);
    var a, b := x.l * y.h, x.h * y.l;
    MulHigh(r, a, b, x.h * y.h, U(x) * U(y));
    WrapRange(r.h + Wrap(a) + Wrap(b));
  }

  lemma WrapRange(n: int)
    ensures 0 <= Wrap(n) < W
  {
  }

  lemma SameMod(n: int, m: int, k: int)
    requires n == m + k * W2
    ensures n % W2 == m % W2
  {
    ModUnique(n, m / W2 + k, m % W2);
  }

  // ---- Shifts and masks ---------------------------------------------------------------------------------------------

  /** Bitwise or. */
  function Or(a: nat, b: nat): nat
    decreases a + b
  {
    if a == 0 && b == 0 then 0 else (if a % 2 == 1 || b % 2 == 1 then 1 else 0) + 2 * Or(a / 2, b / 2)
  }

  lemma {:induction false} OrZero(a: nat)
    ensures Or(a, 0) == a && Or(0, a) == a
  {
    if a > 0 { OrZero(a / 2); }
  }

  /** Setting a bit that is clear, with all those below it. */
  lemma {:induction false} OrBit(a: nat, k: nat)
    requires a % Pow2(k + 1) == 0
    ensures Or(a, Pow2(k)) == a + Pow2(k)
    decreases k
  {
    ModDown(a, Pow2(k));
    if k == 0 {
      OrZero(a / 2);
    } else {
      HalfMod(a, Pow2(k));
      OrBit(a / 2, k - 1);
    }
  }

  lemma ModDown(a: nat, p: nat)
    requires p >= 1 && a % (2 * p) == 0
    ensures a % 2 == 0 && a % p == 0
  {
    var q := a / (2 * p);
    assert a == 2 * p * q;
    assert a == 2 * (p * q) && a == p * (2 * q);
    MultipleMod(p * q, 2);
    MultipleMod(2 * q, p);
  }

  lemma MultipleMod(q: nat, p: nat)
    requires p >= 1
    ensures (p * q) % p == 0 && (p * q) / p == q
  {
    DivUnique(p * q, p, q, 0);
  }

  lemma DivUnique(n: int, d: int, q: int, r: int)
    requires d > 0 && n == d * q + r && 0 <= r < d
    ensures n / d == q && n % d == r
  {
    var e := n / d - q;
    assert d * e == r - n % d;
    if e >= 1 { MulLe(1, e, d); } else if e <= -1 { MulLe(1, -e, d); }
  }

  lemma HalfMod(a: nat, p: nat)
    requires p >= 1 && a % (2 * p) == 0
    ensures (a / 2) % p == 0
  {
    var q := a / (2 * p);
    assert a == 2 * (p * q);
    MultipleMod(p * q, 2);
    MultipleMod(q, p);
  }

  function Shl1(x: I64): I64 { I64(Or(NatOf(Wrap(x.h * 2)), NatOf(x.l / HALF)), Wrap(x.l * 2)) }

  function Shr1(x: I64): I64 { I64(x.h / 2, Or(NatOf(x.l / 2), NatOf(Wrap(x.h * HALF)))) }

  function NatOf(n: int): nat { if n < 0 then 0 else n }

  lemma OrUnit(a: nat, b: nat)
    requires a % 2 == 0 && b <= 1
    ensures Or(a, b) == a + b
  {
    OrZero(a);
    OrZero(a / 2);
  }

  lemma WrapDouble(l: int)
    requires 0 <= l < W
    ensures Wrap(l * 2) == l * 2 - (l / HALF) * W && 0 <= l / HALF <= 1 && (l < HALF ==> Wrap(l * 2) == l * 2)
  {
  }

  lemma Shl1Means(x: I64)
    requires Ok(x) && x.h < HALF
    ensures Ok(Shl1(x)) && U(Shl1(x)) == 2 * U(x)
  {
    hide Or, Wrap;
    WrapDouble(x.l);
    WrapDouble(x.h);
    OrUnit(x.h * 2, x.l / HALF);
  }

  lemma {:induction false} OrHigh(a: nat, k: nat)
    requires a < Pow2(k)
    ensures Or(a, Pow2(k)) == a + Pow2(k)
    decreases k
  {
    if k > 0 {
      assert Pow2(k) / 2 == Pow2(k - 1);
      OrHigh(a / 2, k - 1);
    }
  }

  lemma Shr1Means(x: I64)
    requires Ok(x)
    ensures Ok(Shr1(x)) && U(Shr1(x)) == U(x) / 2
  {
    var b := x.h % 2;
    Pow2Word();
    assert Wrap(x.h * HALF) == b * HALF by {
      assert x.h * HALF == (x.h / 2) * W + b * HALF;
      DivUnique(x.h * HALF, W, x.h / 2, b * HALF);
    }
    if b == 1 { OrHigh(x.l / 2, 31); } else { OrZero(x.l / 2); }
    assert U(x) == 2 * ((x.h / 2) * W) + b * W + x.l;
  }

  // ---- Division ----------------------------------------------------------------------------------------------------

  lemma Pow32()
    ensures Pow2(32) == W && Pow2(64) == W2
  {
    Pow2Word();
    Pow2Sum(32, 32);
  }

  /** The mask `2^k` as a pair. */
  lemma MaskWords(m: I64, k: nat)
    requires Ok(m) && U(m) == Pow2(k) && k < 64
    ensures k < 32 ==> m == I64(0, Pow2(k))
    ensures k >= 32 ==> m == I64(Pow2(k - 32), 0)
  {
    Pow32();
    if k < 32 {
      Pow2Mono(k, 31);
      Pow2Word();
      Injective(m, I64(0, Pow2(k)));
    } else {
      Pow2Sum(k - 32, 32);
      Pow2Mono(k - 32, 31);
      Pow2Word();
      Injective(m, I64(Pow2(k - 32), 0));
    }
  }

  function OrPair(x: I64, y: I64): I64 { I64(Or(NatOf(x.h), NatOf(y.h)), Or(NatOf(x.l), NatOf(y.l))) }

  lemma SplitMod(q: I64, p: nat, c: nat)
    requires Ok(q) && p >= 1 && W == p * c && U(q) % p == 0
    ensures q.l % p == 0
  {
    var n := U(q) / p;
    assert U(q) == p * n;
    assert q.l == p * n - q.h * (p * c);
    assert q.l == p * (n - q.h * c);
    DivUnique(q.l, p, n - q.h * c, 0);
  }

  lemma OrMask(q: I64, m: I64, k: nat)
    requires Ok(q) && Ok(m) && U(m) == Pow2(k) && k < 64 && U(q) % Pow2(k + 1) == 0 && U(q) + Pow2(k) < W2
    ensures Ok(OrPair(q, m)) && U(OrPair(q, m)) == U(q) + Pow2(k)
  {
    hide Or, Pow2;
    MaskWords(m, k);
    if k < 32 { OrMaskLow(q, k); } else { OrMaskHigh(q, k); }
  }

  lemma OrMaskLow(q: I64, k: nat)
    requires Ok(q) && k < 32 && U(q) % Pow2(k + 1) == 0
    ensures Or(q.h, 0) == q.h && Or(q.l, Pow2(k)) == q.l + Pow2(k) < W
  {
    hide Or, U;
    Pow32();
    Pow2Sum(k + 1, 31 - k);
    SplitMod(q, Pow2(k + 1), Pow2(31 - k));
    OrBit(q.l, k);
    OrZero(q.h);
    RoomAbove(q.l, Pow2(k + 1), Pow2(31 - k));
  }

  lemma OrMaskHigh(q: I64, k: nat)
    requires Ok(q) && 32 <= k < 64 && U(q) % Pow2(k + 1) == 0
    ensures Or(q.l, 0) == q.l && Or(q.h, Pow2(k - 32)) == q.h + Pow2(k - 32) && Pow2(k) == Pow2(k - 32) * W
  {
    hide Or, U;
    Pow32();
    Pow2Sum(32, k - 31);
    Pow2Sum(k - 32, 32);
    HighMultiple(q, Pow2(k - 31));
    OrBit(q.h, k - 32);
    OrZero(q.l);
  }

  /** A multiple of `p` below a multiple of `p` leaves room for `p`. */
  lemma RoomAbove(a: nat, p: nat, c: nat)
    requires p >= 1 && W == p * c && a % p == 0 && a < W
    ensures a + p <= W
  {
    var n := a / p;
    assert a == p * n && p * n < p * c;
    assert p * (c - n) > 0;
    assert c - n >= 1;
    MulLe(1, c - n, p);
  }

  lemma HighMultiple(q: I64, p: nat)
    requires Ok(q) && p >= 1 && U(q) % (W * p) == 0
    ensures q.l == 0 && q.h % p == 0
  {
    var n := U(q) / (W * p);
    assert U(q) == W * p * n;
    assert U(q) == W * (p * n);
    DivUnique(U(q), W, q.h, q.l);
    DivUnique(U(q), W, p * n, 0);
    DivUnique(q.h, p, n, 0);
  }

  /** The divisor is `y` shifted by `k`, and the remainder is less than twice that; `k` is -1 at the end. */
  ghost predicate Dividing(x: I64, y: I64, quo: I64, mod: I64, divisor: I64, mask: I64, k: int) {
    && Ok(quo) && Ok(mod) && Ok(divisor) && Ok(mask) && -1 <= k < 64 && U(x) == U(quo) * U(y) + U(mod)
    && if k >= 0 then U(mask) == Pow2(k) && U(divisor) == U(y) * Pow2(k) && U(mod) < 2 * U(divisor) &&
       U(quo) % Pow2(k + 1) == 0
       else U(mask) == 0 && U(mod) < U(y)
  }

  /** The same, once the bit for `k` is settled. */
  ghost predicate Settled(x: I64, y: I64, quo: I64, mod: I64, divisor: I64, mask: I64, k: int) {
    && Ok(quo) && Ok(mod) && Ok(divisor) && Ok(mask) && 0 <= k < 64 && U(x) == U(quo) * U(y) + U(mod)
    && U(mask) == Pow2(k) && U(divisor) == U(y) * Pow2(k) && U(mod) < U(divisor) && U(quo) % Pow2(k) == 0
  }

  lemma MaskLeft(x: I64, y: I64, quo: I64, mod: I64, divisor: I64, mask: I64, k: int)
    requires Dividing(x, y, quo, mod, divisor, mask, k)
    ensures k >= 0 <==> mask.l != 0 || mask.h != 0
  {
  }

  lemma QuotientRoom(x: int, y: int, q: int, m: int, d: int, p: int)
    requires x == q * y + m && d == y * p && m >= d && y >= 1 && p >= 0 && q >= 0
    ensures q + p <= x && x == (q + p) * y + (m - d)
  {
    assert (q + p) * y == q * y + p * y;
    MulLe(1, y, q + p);
  }

  lemma AddMultiple(q: nat, p: nat)
    requires p >= 1 && q % (2 * p) == 0
    ensures (q + p) % p == 0
  {
    ModDown(q, p);
    var n := q / p;
    assert q + p == p * (n + 1);
    MultipleMod(n + 1, p);
  }

  lemma TakeDivisor(x: I64, y: I64, quo: I64, mod: I64, divisor: I64, mask: I64, k: int)
    requires Dividing(x, y, quo, mod, divisor, mask, k) && k >= 0 && Ok(x) && Ok(y) && U(y) > 0 &&
             UCompare(mod, divisor) >= 0
    ensures Settled(x, y, OrPair(quo, mask), Sub(mod, divisor), divisor, mask, k)
  {
    hide U, Or, UCompare, Sub;
    UCompareMeans(mod, divisor);
    Range(quo);
    Range(x);
    Range(mod);
    Range(divisor);
    QuotientRoom(U(x), U(y), U(quo), U(mod), U(divisor), Pow2(k));
    OrMask(quo, mask, k);
    SubMeans(mod, divisor);
    AddMultiple(U(quo), Pow2(k));
    assert (U(mod) - U(divisor)) % W2 == U(mod) - U(divisor);
  }

  lemma LeaveDivisor(x: I64, y: I64, quo: I64, mod: I64, divisor: I64, mask: I64, k: int)
    requires Dividing(x, y, quo, mod, divisor, mask, k) && k >= 0 && UCompare(mod, divisor) < 0
    ensures Settled(x, y, quo, mod, divisor, mask, k)
  {
    UCompareMeans(mod, divisor);
    ModDown(U(quo), Pow2(k));
  }

  lemma HalveBoth(x: I64, y: I64, quo: I64, mod: I64, divisor: I64, mask: I64, k: int)
    requires Settled(x, y, quo, mod, divisor, mask, k)
    ensures Dividing(x, y, quo, mod, Shr1(divisor), Shr1(mask), k - 1)
  {
    hide U, Shr1;
    Shr1Means(mask);
    Shr1Means(divisor);
    if k > 0 {
      assert U(divisor) == 2 * (U(y) * Pow2(k - 1));
    }
  }

  lemma DividingStarts(x: I64, y: I64, divisor: I64, mask: I64, k: int)
    requires Ok(x) && Ok(divisor) && Ok(mask) && 0 <= k < 64 && U(mask) == Pow2(k) && U(divisor) == U(y) * Pow2(k) &&
             U(x) < 2 * U(divisor)
    ensures Dividing(x, y, I64(0, 0), x, divisor, mask, k)
  {
    hide U, Pow2;
    ZeroPair(U(y), Pow2(k + 1));
  }

  lemma ZeroPair(y: int, p: int)
    requires p >= 1
    ensures Ok(I64(0, 0)) && U(I64(0, 0)) == 0 && 0 * y == 0 && 0 % p == 0
  {
  }

  /** The first loop of `I64_udivmod`: shifts the divisor until it is large enough. */
  method Normalize(x: I64, y: I64) returns (divisor: I64, mask: I64, ghost k: int)
    requires Ok(x) && Ok(y) && U(y) > 0
    ensures Dividing(x, y, I64(0, 0), x, divisor, mask, k) && k >= 0
  {
    hide U, Pow2, Shl1, UCompare, Dividing;
    divisor, mask, k := y, I64(0, 1), 0;
    FirstMask(y);
    while divisor.h < HALF
      invariant 0 <= k < 64 && Ok(divisor) && Ok(mask) && U(mask) == Pow2(k) && U(divisor) == U(y) * Pow2(k)
      decreases W2 - U(divisor)
    {
      var cmp := UCompare(divisor, x);
      UCompareMeans(divisor, x);
      ShiftBoth(y, divisor, mask, k);
      divisor := Shl1(divisor);
      mask := Shl1(mask);
      k := k + 1;
      if cmp >= 0 {
        DividingStarts(x, y, divisor, mask, k);
        return;
      }
    }
    Range(divisor);
    Range(x);
    DividingStarts(x, y, divisor, mask, k);
  }

  lemma FirstMask(y: I64)
    ensures U(I64(0, 1)) == Pow2(0) && U(y) * Pow2(0) == U(y)
  {
  }

  lemma ShiftBoth(y: I64, divisor: I64, mask: I64, k: int)
    requires 0 <= k < 64 && Ok(divisor) && Ok(mask) && divisor.h < HALF && U(mask) == Pow2(k) &&
             U(divisor) == U(y) * Pow2(k) && U(y) > 0
    ensures k + 1 < 64 && Ok(Shl1(divisor)) && Ok(Shl1(mask)) && U(Shl1(mask)) == Pow2(k + 1) &&
            U(Shl1(divisor)) == U(y) * Pow2(k + 1)
    ensures 0 < U(divisor) < U(Shl1(divisor)) < W2 && U(Shl1(divisor)) == 2 * U(divisor)
  {
    hide Shl1, U;
    Range(divisor);
    MulLe(1, U(y), Pow2(k));
    MaskBelow(mask, divisor, k);
    Shl1Means(divisor);
    Shl1Means(mask);
    Range(Shl1(divisor));
    assert U(y) * Pow2(k + 1) == 2 * (U(y) * Pow2(k));
  }

  lemma MaskBelow(mask: I64, divisor: I64, k: nat)
    requires Ok(mask) && Ok(divisor) && U(mask) == Pow2(k) <= U(divisor) && divisor.h < HALF
    ensures mask.h < HALF && k < 63
  {
    Pow32();
    Pow2Sum(31, 32);
    Pow2Word();
    if k >= 63 { Pow2Mono(63, k); }
  }

  /** `I64_udivmod`: the exact quotient and remainder. */
  method UDivMod(x: I64, y: I64) returns (quo: I64, mod: I64)
    requires Ok(x) && Ok(y) && U(y) > 0
    ensures Ok(quo) && Ok(mod) && U(x) == U(quo) * U(y) + U(mod) && U(mod) < U(y)
  {
    hide U, Dividing, Settled, Shr1, UCompare, Sub, OrPair;
    var divisor, mask;
    ghost var k;
    divisor, mask, k := Normalize(x, y);
    quo, mod := I64(0, 0), x;
    MaskLeft(x, y, quo, mod, divisor, mask, k);
    while mask.l != 0 || mask.h != 0
      invariant Dividing(x, y, quo, mod, divisor, mask, k) && (k >= 0 <==> mask.l != 0 || mask.h != 0) && k >= -1
      decreases k
    {
      if UCompare(mod, divisor) >= 0 {
        TakeDivisor(x, y, quo, mod, divisor, mask, k);
        quo := OrPair(quo, mask);
        mod := Sub(mod, divisor);
      } else {
        LeaveDivisor(x, y, quo, mod, divisor, mask, k);
      }
      HalveBoth(x, y, quo, mod, divisor, mask, k);
      mask := Shr1(mask);
      divisor := Shr1(divisor);
      k := k - 1;
      MaskLeft(x, y, quo, mod, divisor, mask, k);
    }
    DividingEnds(x, y, quo, mod, divisor, mask, k);
  }

  lemma DividingEnds(x: I64, y: I64, quo: I64, mod: I64, divisor: I64, mask: I64, k: int)
    requires Dividing(x, y, quo, mod, divisor, mask, k) && k < 0
    ensures Ok(quo) && Ok(mod) && U(x) == U(quo) * U(y) + U(mod) && U(mod) < U(y)
  {
  }

  // ---- Signed division ---------------------------------------------------------------------------------------------

  function Magnitude(a: int): nat { if a < 0 then -a else a }

  /** Division truncating toward zero, and its remainder. */
  function TruncDiv(a: int, b: int): int
    requires b != 0
  {
    if (a < 0) == (b < 0) then Magnitude(a) / Magnitude(b) else -(Magnitude(a) / Magnitude(b))
  }

  function TruncMod(a: int, b: int): int
    requires b != 0
  {
    if a < 0 then -(Magnitude(a) % Magnitude(b)) else Magnitude(a) % Magnitude(b)
  }

  function Absolute(x: I64): I64 { if x.h >= HALF then Neg(x) else x }

  lemma AbsoluteMeans(x: I64)
    requires Ok(x)
    ensures Ok(Absolute(x)) && U(Absolute(x)) == Magnitude(S(x))
  {
    hide Neg;
    Range(x);
    NegMeans(x);
    if x.h >= HALF { ModUnique(-U(x), -1, W2 - U(x)); }
  }

  /** `I64_div`: truncating division modulo 2^64; only the least integer divided by -1 wraps. */
  method Div(x: I64, y: I64) returns (q: I64)
    requires Ok(x) && Ok(y) && U(y) > 0
    ensures Ok(q) && U(q) == TruncDiv(S(x), S(y)) % W2
    ensures !(S(x) == -W2 / 2 && S(y) == -1) <==> S(q) == TruncDiv(S(x), S(y))
  {
    hide U, S, Neg, TruncDiv;
    AbsoluteMeans(x);
    AbsoluteMeans(y);
    NonZero(y);
    var r;
    q, r := UDivMod(Absolute(x), Absolute(y));
    ghost var n := q;
    Range(r);
    DivUnique(U(Absolute(x)), U(Absolute(y)), U(q), U(r));
    NegMeans(q);
    Range(q);
    if (x.h >= HALF) != (y.h >= HALF) {
      q := Neg(q);
    }
    DivSign(x, y, n);
    DivFits(x, y, q);
  }

  lemma NonZero(y: I64)
    requires Ok(y) && U(y) > 0
    ensures S(y) != 0
  {
  }

  lemma DivSign(x: I64, y: I64, n: I64)
    requires Ok(x) && Ok(y) && Ok(n) && S(y) != 0 && U(n) == Magnitude(S(x)) / Magnitude(S(y))
    ensures U(if (x.h >= HALF) != (y.h >= HALF) then Neg(n) else n) == TruncDiv(S(x), S(y)) % W2
  {
    hide Neg;
    NegMeans(n);
    Range(n);
    ModUnique(U(n), 0, U(n));
  }

  lemma DivFits(x: I64, y: I64, q: I64)
    requires Ok(x) && Ok(y) && Ok(q) && S(y) != 0 && U(q) == TruncDiv(S(x), S(y)) % W2
    ensures !(S(x) == -W2 / 2 && S(y) == -1) <==> S(q) == TruncDiv(S(x), S(y))
  {
    hide U, S, TruncDiv;
    Range(x);
    Range(q);
    QuotientRange(S(x), S(y));
    SignedUnique(S(q), TruncDiv(S(x), S(y)));
  }

  lemma QuotientRange(a: int, b: int)
    requires b != 0 && -W2 / 2 <= a < W2 / 2
    ensures -W2 / 2 <= TruncDiv(a, b) <= W2 / 2
    ensures TruncDiv(a, b) == W2 / 2 <==> a == -W2 / 2 && b == -1
  {
    var m, n := Magnitude(a), Magnitude(b);
    assert m == n * (m / n) + m % n;
    MulLe(1, n, m / n);
    if n >= 2 { MulLe(2, n, m / n); }
  }

  lemma SignedUnique(s: int, t: int)
    requires -W2 / 2 <= s < W2 / 2 && -W2 / 2 <= t <= W2 / 2 && s % W2 == t % W2
    ensures s == t <==> t < W2 / 2
  {
    assert s - t == (s / W2 - t / W2) * W2;
  }

  /** `I64_mod`: the truncating remainder, with the sign of the dividend. */
  method Mod(x: I64, y: I64) returns (r: I64)
    requires Ok(x) && Ok(y) && U(y) > 0
    ensures Ok(r) && S(r) == TruncMod(S(x), S(y))
  {
    hide U, S, Neg, TruncMod;
    AbsoluteMeans(x);
    AbsoluteMeans(y);
    NonZero(y);
    var q;
    q, r := UDivMod(Absolute(x), Absolute(y));
    Range(r);
    DivUnique(U(Absolute(x)), U(Absolute(y)), U(q), U(r));
    ModSign(x, y, r);
    if x.h >= HALF {
      r := Neg(r);
    }
  }

  lemma ModSign(x: I64, y: I64, n: I64)
    requires Ok(x) && Ok(y) && Ok(n) && S(y) != 0 && U(n) == Magnitude(S(x)) % Magnitude(S(y))
    ensures Ok(Neg(n)) && S(if x.h >= HALF then Neg(n) else n) == TruncMod(S(x), S(y))
  {
    hide Neg;
    NegMeans(n);
    Range(y);
    Range(n);
    Range(Neg(n));
    ModUnique(-U(n), if U(n) == 0 then 0 else -1, if U(n) == 0 then 0 else W2 - U(n));
  }
}
