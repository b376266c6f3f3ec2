/** Printing a 64-bit integer and reading the text back. */
module Int64Round {
  import opened Int64
  import opened Int64Format
  import opened Int64Parse

  lemma DigitOfChar(d: int, upper: bool)
    requires 0 <= d < 16
    ensures Digit(DigitChar(d, upper)) == d && DigitChar(d, upper) !in {'_', '-', '\0', 'x', 'X', 'o', 'O'}
    ensures d < 10 ==> DigitChar(d, upper) !in {'b', 'B'}
  {
  }

  ghost predicate IsDigit(c: char, base: nat, upper: bool) { exists d: nat :: d < base && c == DigitChar(d, upper) }

  /** What stands in a text of digits. */
  ghost predicate AllDigits(s: seq<char>, base: nat, upper: bool) {
    forall i {:trigger s[i]} :: 0 <= i < |s| ==> IsDigit(s[i], base, upper)
  }

  lemma {:induction false} DigitsAre(n: nat, base: nat, upper: bool)
    requires 2 <= base
    ensures |Digits(n, base, upper)| >= 1 && AllDigits(Digits(n, base, upper), base, upper)
    decreases n
  {
    if n >= base {
      DivSmaller(n, base);
      DigitsAre(n / base, base, upper);
    }
  }

  /** The last digit and those before it. */
  lemma DigitsSplit(n: nat, base: nat, upper: bool) returns (q: nat, r: nat)
    requires 2 <= base <= n
    ensures q < n && r < base && q * base + r == n
    ensures Digits(n, base, upper) == Digits(q, base, upper) + [DigitChar(r, upper)]
  {
    DivSmaller(n, base);
    q, r := n / base, n % base;
  }

  lemma OneDigit(n: nat, base: nat, upper: bool)
    requires n < base && base >= 2
    ensures Digits(n, base, upper) == [DigitChar(n, upper)]
  {
  }

  /** Reading the digits of `n` from position `p` gives `n` and stops after them. */
  lemma {:induction false} RunDigits(s: seq<char>, p: nat, n: nat, base: nat, upper: bool)
    requires 2 <= base <= 16 && p + |Digits(n, base, upper)| <= |s|
    requires s[p..p + |Digits(n, base, upper)|] == Digits(n, base, upper)
    ensures Run(s, p, base, 0) == Run(s, p + |Digits(n, base, upper)|, base, n)
    decreases n
  {
    hide Run, Digit, DigitChar, Digits;
    var ds := Digits(n, base, upper);
    if n < base {
      OneDigit(n, base, upper);
      assert s[p] == ds[0];
      DigitOfChar(n, upper);
      RunStep(s, p, base, 0);
    } else {
      var q, r := DigitsSplit(n, base, upper);
      var front := Digits(q, base, upper);
      var last := p + |front|;
      SliceParts(s, p, front, DigitChar(r, upper));
      RunDigits(s, p, q, base, upper);
      DigitOfChar(r, upper);
      RunStep(s, last, base, q);
    }
  }

  lemma SliceParts(s: seq<char>, p: nat, front: seq<char>, c: char)
    requires p + |front| < |s| && s[p..p + |front| + 1] == front + [c]
    ensures s[p..p + |front|] == front && s[p + |front|] == c
  {
    assert s[p..p + |front| + 1][..|front|] == s[p..p + |front|];
    assert s[p + |front|] == s[p..p + |front| + 1][|front|];
  }

  lemma RunEnd(s: seq<char>, n: nat, base: nat)
    ensures Run(s, |s|, base, n) == (n, |s|)
  {
  }

  /** A text starting with digits is not taken for one with a sign, nor, in base ten, for one with a prefix. */
  lemma FirstDigits(s: seq<char>, p: nat, ds: seq<char>, base: nat, upper: bool)
    requires AllDigits(ds, base, upper) && |ds| >= 1 && p + |ds| == |s| && s[p..] == ds && base <= 16
    ensures At(s, p) != '-' && InBase(At(s, p), base)
    ensures base == 10 ==> BaseAt(s, p) == 10
  {
    assert s[p] == ds[0] && IsDigit(ds[0], base, upper);
    var d: nat :| d < base && ds[0] == DigitChar(d, upper);
    DigitOfChar(d, upper);
    if |ds| > 1 {
      assert s[p + 1] == ds[1] && IsDigit(ds[1], base, upper);
      var e: nat :| e < base && ds[1] == DigitChar(e, upper);
      DigitOfChar(e, upper);
    }
  }

  lemma {:induction false} ZerosAre(k: int, base: nat, upper: bool)
    requires base >= 2
    ensures |Repeat('0', k)| == (if k <= 0 then 0 else k) && AllDigits(Repeat('0', k), base, upper)
    ensures forall i {:trigger Repeat('0', k)[i]} :: 0 <= i < |Repeat('0', k)| ==> Repeat('0', k)[i] == '0'
    decreases k
  {
    if k > 0 {
      ZerosAre(k - 1, base, upper);
      assert DigitChar(0, upper) == '0';
    }
  }

  lemma DigitsJoin(s: seq<char>, t: seq<char>, base: nat, upper: bool)
    requires AllDigits(s, base, upper) && AllDigits(t, base, upper)
    ensures AllDigits(s + t, base, upper)
  {
    hide IsDigit;
  }

  lemma {:induction false} RunZeros(s: seq<char>, p: nat, q: nat, base: nat)
    requires 2 <= base <= 16 && p <= q <= |s| && forall i {:trigger s[i]} :: p <= i < q ==> s[i] == '0'
    ensures Run(s, p, base, 0) == Run(s, q, base, 0)
    decreases q - p
  {
    hide Run;
    if p < q {
      RunStep(s, p, base, 0);
      RunZeros(s, p + 1, q, base);
    }
  }

  /** A text: a sign or none, a prefix or none, zeros, digits. */
  function Body(negative: bool, base: nat, k: int, n: nat, upper: bool): seq<char>
    requires base >= 2
  {
    (if negative then ['-'] else []) + (if base == 16 then ['0', 'x'] else []) + Repeat('0', k) + Digits(n, base, upper)
  }

  /** Such a text in base ten or sixteen denotes its number. */
  lemma ReadBody(negative: bool, base: nat, k: int, n: nat, upper: bool)
    requires base == 10 || base == 16
    ensures Numeral(Body(negative, base, k, n, upper)) == Some(if negative then 0 - n else n)
  {
    hide Run, Digits, Digit, DigitChar, AllDigits, Repeat, BaseAt, InBase;
    var zs, ds := Repeat('0', k), Digits(n, base, upper);
    var s := Body(negative, base, k, n, upper);
    var q := if negative then 1 else 0;
    var p := if base == 16 then q + 2 else q;
    ZerosAre(k, base, upper);
    DigitsAre(n, base, upper);
    DigitsJoin(zs, ds, base, upper);
    BodyParts(negative, base, zs, ds, s);
    FirstDigits(s, p, zs + ds, base, upper);
    if base == 16 { HexPrefix(s, q); }
    RunZeros(s, p, p + |zs|, base);
    RunDigits(s, p + |zs|, n, base, upper);
    RunStep(s, p, base, 0);
    RunEnd(s, n, base);
  }

  lemma BodyParts(negative: bool, base: nat, zs: seq<char>, ds: seq<char>, s: seq<char>)
    requires s == (if negative then ['-'] else []) + (if base == 16 then ['0', 'x'] else []) + zs + ds
    ensures var q := if negative then 1 else 0;
            var p := if base == 16 then q + 2 else q;
            && |s| == p + |zs| + |ds| && s[p..] == zs + ds && s[p + |zs|..p + |zs| + |ds|] == ds
            && (forall i {:trigger s[i]} :: p <= i < p + |zs| ==> s[i] == zs[i - p])
            && (negative ==> s[0] == '-') && (base == 16 ==> s[q] == '0' && s[q + 1] == 'x')
  {
    var q := if negative then 1 else 0;
    var p := if base == 16 then q + 2 else q;
    var head := (if negative then ['-'] else []) + (if base == 16 then ['0', 'x'] else []);
    assert |head| == p && s == head + (zs + ds) && s == (head + zs) + ds;
  }

  lemma HexPrefix(s: seq<char>, q: nat)
    requires q + 1 < |s| && s[q] == '0' && s[q + 1] == 'x'
    ensures BaseAt(s, q) == 16
  {
  }

  // ---- Which formats are read back ----------------------------------------------------------------------------------

  /** Decimal, or hexadecimal with its prefix; no plus sign, and no padding but with zeros. */
  predicate Legible(f: Flags) {
    && (f.base == 10 || (f.base == 16 && f.alternate))
    && (f.signed ==> f.signStyle == '-')
    && ((f.justify == '+' && f.filler == '0') || f.width <= if f.base == 10 then 1 else 3)
  }

  /** The number printed. */
  function Printed(f: Flags, x: I64): int { if f.signed then S(x) else U(x) }

  lemma PadNone()
    ensures forall c: char, n: int {:trigger Repeat(c, n)} :: n <= 0 ==> Repeat(c, n) == []
  {
  }

  /** The digits that are printed, and whether a minus sign is. */
  lemma TextLayout(f: Flags, x: I64)
    requires Shaped(f) && f.base != 0 && Ok(x)
    ensures Text(f, x) == Layout(f, Printed(f, x) < 0, Digits(Magnitude(Printed(f, x)), f.base, f.upper))
  {
    hide Digits, Layout;
    Range(x);
  }

  lemma LegibleParts(f: Flags, negative: bool)
    requires Legible(f) && (negative ==> f.signed)
    ensures Sign(f, negative) == (if negative then ['-'] else [])
    ensures Prefix(f) == (if f.base == 16 then ['0', 'x'] else [])
  {
  }

  /** How many zeros stand before the digits. */
  function Zeros(f: Flags, negative: bool, n: nat): int
    requires f.base >= 2
  {
    if f.justify == '+' && f.filler == '0' then
      f.width - (|Sign(f, negative)| + |Prefix(f)| + |Digits(n, f.base, f.upper)|)
    else 0
  }

  lemma LayoutBody(f: Flags, negative: bool, n: nat)
    requires Shaped(f) && Legible(f) && (negative ==> f.signed)
    ensures Layout(f, negative, Digits(n, f.base, f.upper)) == Body(negative, f.base, Zeros(f, negative, n), n, f.upper)
  {
    hide Digits, Repeat, Sign, Prefix;
    LegibleParts(f, negative);
    DigitsAre(n, f.base, f.upper);
    PadNone();
  }

  /** The text of `x` in a legible format denotes the number printed, so that reading it gives `x`. */
  lemma TextDenotes(f: Flags, x: I64)
    requires Shaped(f) && Legible(f) && Ok(x)
    ensures Numeral(Text(f, x)) == Some(Printed(f, x)) && Printed(f, x) % W2 == U(x)
  {
    hide Numeral, Text, Digits, Layout, Body, Zeros;
    TextLayout(f, x);
    Range(x);
    var n := Magnitude(Printed(f, x));
    LayoutBody(f, Printed(f, x) < 0, n);
    ReadBody(Printed(f, x) < 0, f.base, Zeros(f, Printed(f, x) < 0, n), n, f.upper);
  }

  /** Printing `x` and reading the text gives `x` back. */
  ghost predicate ReadsBack(f: Flags, x: I64)
    requires Shaped(f) && Ok(x)
  {
    Numeral(Text(f, x)).Some? && Numeral(Text(f, x)).value % W2 == U(x)
  }

  lemma BadStart(s: seq<char>)
    requires |s| > 0 && (s[0] == ' ' || s[0] == '+')
    ensures Numeral(s).None?
  {
  }

  /** The reading of digits does not get past a character that is no digit. */
  lemma {:induction false} RunStops(s: seq<char>, p: nat, j: nat, base: nat, n: nat)
    requires base <= 16 && p <= j < |s| && s[j] != '_' && !InBase(s[j], base)
    ensures p <= Run(s, p, base, n).1 <= j
    decreases j - p
  {
    hide Run, Digit;
    RunStep(s, p, base, n);
    if p < j {
      if s[p] == '_' {
        RunStops(s, p + 1, j, base, n);
      } else if InBase(s[p], base) {
        RunStops(s, p + 1, j, base, n * base + Digit(s[p]));
      }
    }
  }

  lemma BadEnd(s: seq<char>)
    requires |s| > 0 && s[|s| - 1] == ' ' && forall i {:trigger s[i]} :: 0 <= i < |s| ==> s[i] != '\0'
    ensures Numeral(s).None?
  {
    hide Run, BaseAt;
    var q := if At(s, 0) == '-' then 1 else 0;
    var base := BaseAt(s, q);
    var p := if base == 10 then q else q + 2;
    if InBase(At(s, p), base) { RunStops(s, p + 1, |s| - 1, base, Digit(At(s, p))); }
  }

  /** A number that a format which is not legible does not bring back. */
  function Witness(f: Flags): I64 {
    I64(0, if f.base == 8 then 8 else if f.base == 16 && !f.alternate then 16 else 0)
  }

  /** The digits of 8 in base eight, and of 16 in base sixteen, are those of ten. */
  lemma TenDigits(upper: bool)
    ensures Digits(8, 8, upper) == Digits(10, 10, upper) == Digits(16, 16, upper) == ['1', '0']
    ensures Digits(0, 8, upper) == Digits(0, 10, upper) == Digits(0, 16, upper) == ['0']
  {
    assert Digits(1, 8, upper) == ['1'] && Digits(1, 10, upper) == ['1'] && Digits(1, 16, upper) == ['1'];
  }

  lemma {:induction false} Spaces(n: int)
    requires n > 0
    ensures |Repeat(' ', n)| == n && forall i {:trigger Repeat(' ', n)[i]} :: 0 <= i < n ==> Repeat(' ', n)[i] == ' '
    decreases n
  {
    if n > 1 { Spaces(n - 1); } else { assert Repeat(' ', 0) == []; }
  }

  /** A text laid out with a sign other than minus, or with spaces, cannot be read. */
  lemma BadLayout(f: Flags, raw: seq<char>)
    requires Shaped(f) && |raw| > 0 && forall i {:trigger raw[i]} :: 0 <= i < |raw| ==> raw[i] != '\0'
    requires var pad := f.width - (|Sign(f, false)| + |Prefix(f)| + |raw|);
             Sign(f, false) != [] || (pad > 0 && !(f.justify == '+' && f.filler == '0'))
    ensures Numeral(Layout(f, false, raw)).None?
  {
    hide Numeral, Repeat;
    var s := Layout(f, false, raw);
    var pad := f.width - (|Sign(f, false)| + |Prefix(f)| + |raw|);
    PadNone();
    if pad > 0 { Spaces(pad); }
    if Sign(f, false) != [] || f.justify == '+' {
      BadStart(s);
    } else {
      BadEnd(s);
    }
  }

  /** Without sign and spaces, the digits of ten are read as ten. */
  lemma ReadTen(f: Flags)
    requires Shaped(f) && Sign(f, false) == [] && (f.base == 8 || (f.base == 16 && !f.alternate))
    requires var pad := f.width - (|Prefix(f)| + 2); pad <= 0 || (f.justify == '+' && f.filler == '0')
    ensures Numeral(Layout(f, false, ['1', '0'])) == Some(10)
  {
    hide Numeral, Repeat, Digits;
    var pad := f.width - (|Prefix(f)| + 2);
    PadNone();
    TenDigits(false);
    var zs := if pad > 0 then Repeat('0', pad) else [];
    var k := (if pad > 0 then pad else 0) + |Prefix(f)|;
    assert Layout(f, false, ['1', '0']) == Prefix(f) + zs + ['1', '0'];
    OneMoreZero(pad);
    assert Prefix(f) + zs == Repeat('0', k);
    assert Body(false, 10, k, 10, false) == Repeat('0', k) + ['1', '0'];
    ReadBody(false, 10, k, 10, false);
  }

  lemma OneMoreZero(pad: int)
    ensures Repeat('0', if pad > 0 then pad else 0) == if pad > 0 then Repeat('0', pad) else []
    ensures Repeat('0', (if pad > 0 then pad else 0) + 1) == ['0'] + Repeat('0', if pad > 0 then pad else 0)
  {
  }

  lemma Illegible(f: Flags)
    requires Shaped(f) && !Legible(f)
    ensures Ok(Witness(f)) && !ReadsBack(f, Witness(f))
  {
    hide Numeral, Layout, Digits, Repeat;
    var x := Witness(f);
    TenDigits(f.upper);
    if f.base == 0 {
      EmptyText();
    } else {
      TextLayout(f, x);
      var raw := if f.base == 8 || (f.base == 16 && !f.alternate) then ['1', '0'] else ['0'];
      var pad := f.width - (|Sign(f, false)| + |Prefix(f)| + |raw|);
      if Sign(f, false) != [] || (pad > 0 && !(f.justify == '+' && f.filler == '0')) {
        BadLayout(f, raw);
      } else {
        ReadTen(f);
      }
    }
  }

  /** For instance 16 in hexadecimal, which is read as 10. */
  lemma IllegibleExample()
    ensures var f, x := ScanFrom("%x", 0, PLAIN), I64(0, 16);
            Shaped(f) && Text(f, x) == "10" && Numeral(Text(f, x)) == Some(10) && !ReadsBack(f, x)
  {
    hide ScanFrom, Numeral, Digits, Text, Layout;
    PlainFormats();
    var f, x := ScanFrom("%x", 0, PLAIN), I64(0, 16);
    TextLayout(f, x);
    TenDigits(false);
    TenLayout(f);
    ReadTen(f);
  }

  lemma TenLayout(f: Flags)
    requires f == PLAIN.(base := 16)
    ensures Layout(f, false, ['1', '0']) == ['1', '0']
  {
    PadNone();
  }

  lemma EmptyText()
    ensures Numeral([]).None?
  {
  }

  /** Printing and reading back is the identity on all 64-bit numbers if and only if the format is legible. */
  lemma LegibleIff(f: Flags)
    requires Shaped(f)
    ensures (forall x {:trigger ReadsBack(f, x)} :: Ok(x) ==> ReadsBack(f, x)) <==> Legible(f)
  {
    hide Legible, Numeral, Text;
    if Legible(f) {
      forall x | Ok(x)
        ensures ReadsBack(f, x)
      {
        TextDenotes(f, x);
      }
    } else {
      Illegible(f);
    }
  }

  /** The plain formats are legible, and their scan does not stray. */
  lemma PlainLegible(fmt: seq<char>)
    requires fmt == "%d" || fmt == "%u" || fmt == "%#x" || fmt == "%#X"
    ensures !Strays(fmt, 0) && Shaped(ScanFrom(fmt, 0, PLAIN)) && Legible(ScanFrom(fmt, 0, PLAIN))
  {
    hide ScanFrom, Strays;
    PlainFormats();
    StraysIff(fmt, 0);
  }

  /** `I64_format` and then `int64_of_string`: the identity, in any legible format. */
  method FormatAndRead(fmt: seq<char>, x: I64) returns (stray: bool, r: Option<I64>)
    requires Ok(x)
    ensures stray <==> Strays(fmt, 0)
    ensures !stray && Legible(ScanFrom(fmt, 0, PLAIN)) ==> r == Some(x)
  {
    hide ScanFrom, Text, Numeral, U, Strays, Legible;
    var text;
    r := None;
    text, stray := Format(fmt, x);
    if !stray {
      r := OfString(text);
      if Legible(ScanFrom(fmt, 0, PLAIN)) {
        TextDenotes(ScanFrom(fmt, 0, PLAIN), x);
        Injective(r.value, x);
      }
    }
  }

  // ---- Widths -------------------------------------------------------------------------------------------------------

  /** A format: flags, a width or none, a conversion letter. */
  ghost predicate Conventional(flags: seq<char>, width: seq<char>, c: char) {
    && (forall i {:trigger flags[i]} :: 0 <= i < |flags| ==> IsFlag(flags[i]))
    && (forall i {:trigger width[i]} :: 0 <= i < |width| ==> IsDecimal(width[i])) && (|width| > 0 ==> width[0] != '0')
    && IsConversion(c)
  }

  lemma {:induction false} ScanFlags(fmt: seq<char>, i: nat, j: nat, f: Flags) returns (g: Flags)
    requires i <= j <= |fmt| && Shaped(f) && forall k {:trigger fmt[k]} :: i <= k < j ==> IsFlag(fmt[k])
    ensures ScanFrom(fmt, i, f) == ScanFrom(fmt, j, g) && Shaped(g) && g.base == f.base
    decreases j - i
  {
    hide ScanFrom, Letter, Shaped;
    g := f;
    if i < j {
      ScanStep(fmt, i, f);
      LetterShaped(f, fmt[i]);
      g := ScanFlags(fmt, i + 1, j, Letter(f, fmt[i]));
    }
  }

  lemma {:induction false} SkipAll(s: seq<char>, i: nat, j: nat)
    requires i <= j < |s| && (forall k {:trigger s[k]} :: i <= k < j ==> IsDecimal(s[k])) && !IsDecimal(s[j])
    ensures SkipDecimals(s, i) == j
    decreases j - i
  {
    if i < j { SkipAll(s, i + 1, j); }
  }

  /** A conventional format loses its conversion letter if and only if it has a width; then it prints nothing. */
  lemma WidthHidesConversion(flags: seq<char>, width: seq<char>, c: char, x: I64)
    requires Conventional(flags, width, c) && Ok(x)
    ensures var f := ScanFrom(['%'] + flags + width + [c], 0, PLAIN);
            && Shaped(f) && (f.base == 0 <==> |width| > 0) && (Text(f, x) == [] <==> |width| > 0)
  {
    hide ScanFrom, Text, SkipDecimals, Atoi, Letter;
    var fmt := ['%'] + flags + width + [c];
    var i, j := 1 + |flags|, 1 + |flags| + |width|;
    FormatParts(flags, width, c, fmt);
    ScanStep(fmt, 0, PLAIN);
    LetterShaped(PLAIN, '%');
    var g := ScanFlags(fmt, 1, i, Letter(PLAIN, '%'));
    ScanStep(fmt, i, g);
    var f;
    if |width| > 0 {
      SkipAll(fmt, i, j);
      f := g.(width := Atoi(fmt, i, 0));
    } else {
      LetterShaped(g, c);
      f := Letter(g, c);
    }
    ScanEnd(fmt, j + 1, f);
    TextEmpty(f, x);
  }

  lemma FormatParts(flags: seq<char>, width: seq<char>, c: char, fmt: seq<char>)
    requires Conventional(flags, width, c) && fmt == ['%'] + flags + width + [c]
    ensures var i, j := 1 + |flags|, 1 + |flags| + |width|;
            && |fmt| == j + 1 && fmt[0] == '%' && fmt[j] == c && !IsDecimal(c) && c != '\0'
            && (forall k {:trigger fmt[k]} :: 1 <= k < i ==> IsFlag(fmt[k]))
            && (forall k {:trigger fmt[k]} :: i <= k < j ==> IsDecimal(fmt[k]))
            && (|width| > 0 ==> '1' <= fmt[i] <= '9')
  {
    assert forall k {:trigger fmt[k]} :: 1 <= k < 1 + |flags| ==> fmt[k] == flags[k - 1];
    assert forall k {:trigger fmt[k]} :: 1 + |flags| <= k < 1 + |flags| + |width| ==> fmt[k] == width[k - 1 - |flags|];
  }

  lemma TextEmpty(f: Flags, x: I64)
    requires Shaped(f) && Ok(x)
    ensures Text(f, x) == [] <==> f.base == 0
  {
    hide Digits, Repeat;
    if f.base != 0 {
      TextLayout(f, x);
      DigitsAre(Magnitude(Printed(f, x)), f.base, f.upper);
    }
  }

  /** For instance a number in a field of five characters. */
  lemma WidthExample(x: I64)
    requires Ok(x)
    ensures Shaped(ScanFrom("%5d", 0, PLAIN)) && Text(ScanFrom("%5d", 0, PLAIN), x) == []
  {
    hide ScanFrom, Text;
    assert ['%'] + [] + ['5'] + ['d'] == "%5d";
    WidthHidesConversion([], ['5'], 'd', x);
  }
}
