/** Reading 64-bit integers. */
module Int64Parse {
  import opened Int64
  import opened Int64Format

  /** `parse_digit`: the value of a digit in any base, or -1. */
  function Digit(c: char): int {
    if '0' <= c <= '9' then c as int - '0' as int
    else if 'A' <= c <= 'F' then c as int - 'A' as int + 10
    else if 'a' <= c <= 'f' then c as int - 'a' as int + 10
    else -1
  }

  /** The base that the characters at `p` announce. */
  function BaseAt(s: seq<char>, p: nat): (base: nat)
    ensures base in {2, 8, 10, 16}
  {
    if At(s, p) != '0' then 10
    else
      var c := At(s, p + 1);
      if c == 'x' || c == 'X' then 16 else if c == 'o' || c == 'O' then 8 else if c == 'b' || c == 'B' then 2 else 10
  }

  /** `parse_sign_and_base` */
  method SignAndBase(s: seq<char>) returns (p: nat, base: nat, negative: bool)
    ensures negative == (At(s, 0) == '-')
    ensures var q := if negative then 1 else 0; base == BaseAt(s, q) && p == (if base == 10 then q else q + 2)
    ensures p <= |s|
  {
    p, negative := 0, false;
    if At(s, p) == '-' {
      negative := true;
      p := p + 1;
    }
    base := 10;
    if At(s, p) == '0' {
      match At(s, p + 1)
      case 'x' => base := 16; p := p + 2;
      case 'X' => base := 16; p := p + 2;
      case 'o' => base := 8; p := p + 2;
      case 'O' => base := 8; p := p + 2;
      case 'b' => base := 2; p := p + 2;
      case 'B' => base := 2; p := p + 2;
      case _ =>
    }
  }

  predicate InBase(c: char, base: nat) { 0 <= Digit(c) < base }

  /** Reads digits and underscores from `p`: the number so far, and where the reading stops. */
  function Run(s: seq<char>, p: nat, base: nat, acc: nat): (nat, nat)
    decreases |s| - p
  {
    if p >= |s| then (acc, p)
    else if s[p] == '_' then Run(s, p + 1, base, acc)
    else if InBase(s[p], base) then Run(s, p + 1, base, acc * base + Digit(s[p]))
    else (acc, p)
  }

  /** The number that a text denotes, unbounded; none if it is not a numeral. */
  function Numeral(s: seq<char>): Option<int> {
    var negative := At(s, 0) == '-';
    var q := if negative then 1 else 0;
    var base := BaseAt(s, q);
    var p := if base == 10 then q else q + 2;
    if !InBase(At(s, p), base) then None
    else
      var (n, end) := Run(s, p + 1, base, Digit(At(s, p)));
      if At(s, end) != '\0' then None else Some(if negative then 0 - n else n)
  }

  /** One more digit, on pairs of words and on numbers modulo 2^64. */
  lemma MoreDigit(res: I64, n: nat, base: nat, d: nat)
    requires Ok(res) && U(res) == n % W2 && base <= 16 && d < 16
    ensures Ok(Add(Mul(OfInt32(base), res), OfInt32(d)))
    ensures U(Add(Mul(OfInt32(base), res), OfInt32(d))) == (n * base + d) % W2
  {
    hide U, Ok, Add, Mul;
    OfInt32Means(base);
    OfInt32Means(d);
    MulMeans(OfInt32(base), res);
    AddMeans(Mul(OfInt32(base), res), OfInt32(d));
    ModProduct(n, base, d);
  }

  lemma ModProduct(n: nat, base: nat, d: nat)
    ensures ((base * (n % W2)) % W2 + d) % W2 == (n * base + d) % W2
  {
    var m := n % W2;
    var k := (base * m) / W2;
    assert n == (n / W2) * W2 + m;
    assert n * base == (n / W2) * base * W2 + base * m;
    assert (base * m) % W2 == base * m - k * W2;
    SameMod(n * base + d, (base * m) % W2 + d, (n / W2) * base + k);
  }

  /** `int64_of_string`: what the text denotes, modulo 2^64, or the failure. */
  method OfString(s: seq<char>) returns (r: Option<I64>)
    ensures r.None? <==> Numeral(s).None?
    ensures r.Some? ==> Ok(r.value) && U(r.value) == Numeral(s).value % W2
  {
    hide U, Ok, Add, Mul, OfInt32, Run, Neg;
    var p, base, negative := SignAndBase(s);
    var d := Digit(At(s, p));
    if d < 0 || d >= base { return None; }
    OfInt32Means(d);
    var res := OfInt32(d);
    ghost var n := d;
    p := p + 1;
    ghost var all := Run(s, p, base, d);
    while true
      invariant p <= |s| + 1 && Ok(res) && n >= 0 && U(res) == n % W2 && Run(s, p, base, n) == all
      decreases |s| + 1 - p
    {
      RunStep(s, p, base, n);
      var c := At(s, p);
      if c != '_' {
        d := Digit(c);
        if d < 0 || d >= base { break; }
        MoreDigit(res, n, base, d);
        res := Add(Mul(OfInt32(base), res), OfInt32(d));
        n := n * base + d;
      }
      p := p + 1;
    }
    if At(s, p) != '\0' { return None; }
    NegMeans(res);
    ModNegate(n);
    if negative { res := Neg(res); }
    return Some(res);
  }

  lemma {:induction false} RunStep(s: seq<char>, p: nat, base: nat, n: nat)
    requires base <= 16
    ensures At(s, p) == '_' ==> p < |s| && Run(s, p, base, n) == Run(s, p + 1, base, n)
    ensures InBase(At(s, p), base) ==>
            p < |s| && At(s, p) != '_' && Run(s, p, base, n) == Run(s, p + 1, base, n * base + Digit(At(s, p)))
    ensures At(s, p) != '_' && !InBase(At(s, p), base) ==> Run(s, p, base, n) == (n, p)
  {
  }

  lemma ModNegate(n: int)
    ensures (-(n % W2)) % W2 == (-n) % W2
  {
    SameMod(-n, -(n % W2), -(n / W2));
  }
}
