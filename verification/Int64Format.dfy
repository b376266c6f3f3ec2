/** Printing 64-bit integers. */
module Int64Format {
  import opened Int64

  datatype Option<T> = None | Some(value: T)

  /** A C string: reading at its end gives the null character. */
  function At(s: seq<char>, i: nat): char { if i < |s| then s[i] else '\0' }

  predicate IsDecimal(c: char) { '0' <= c <= '9' }

  // ---- The format ---------------------------------------------------------------------------------------------------

  datatype Flags = Flags(justify: char, signStyle: char, filler: char, alternate: bool, base: nat, signed: bool,
                         width: nat, upper: bool)

  const PLAIN := Flags('+', '-', ' ', false, 0, false, 0, false)

  function SkipDecimals(s: seq<char>, i: nat): (j: nat)
    ensures i <= j && (i <= |s| ==> j <= |s|)
    decreases |s| - i
  {
    if i < |s| && IsDecimal(s[i]) then SkipDecimals(s, i + 1) else i
  }

  /** `atoi` on a run of decimal digits. */
  function Atoi(s: seq<char>, i: nat, acc: nat): nat
    decreases |s| - i
  {
    if i < |s| && IsDecimal(s[i]) then Atoi(s, i + 1, 10 * acc + (s[i] as int - '0' as int)) else acc
  }

  predicate IsFlag(c: char) { c == '-' || c == '+' || c == ' ' || c == '0' || c == '#' }

  predicate IsConversion(c: char) { c == 'd' || c == 'i' || c == 'u' || c == 'x' || c == 'X' || c == 'o' }

  function SetFlag(f: Flags, c: char): Flags {
    if c == '-' then f.(justify := '-')
    else if c == '+' || c == ' ' then f.(signStyle := c)
    else if c == '0' then f.(filler := '0')
    else f.(alternate := true)
  }

  function SetConversion(f: Flags, c: char): Flags {
    if c == 'd' || c == 'i' then f.(signed := true, base := 10)
    else if c == 'u' then f.(base := 10)
    else if c == 'x' then f.(base := 16)
    else if c == 'X' then f.(base := 16, upper := true)
    else f.(base := 8)
  }

  function Letter(f: Flags, c: char): Flags {
    if IsFlag(c) then SetFlag(f, c) else if IsConversion(c) then SetConversion(f, c) else f
  }

  /** The flags that `fmt` sets from position `i` on. After a width the scan also steps over the next character. */
  function ScanFrom(fmt: seq<char>, i: nat, f: Flags): Flags
    decreases |fmt| - i
  {
    if i >= |fmt| || fmt[i] == '\0' then f
    else if '1' <= fmt[i] <= '9' then ScanFrom(fmt, SkipDecimals(fmt, i) + 1, f.(width := Atoi(fmt, i, 0)))
    else ScanFrom(fmt, i + 1, Letter(f, fmt[i]))
  }

  lemma {:induction false} ScanStep(fmt: seq<char>, i: nat, f: Flags)
    requires i < |fmt| && fmt[i] != '\0'
    ensures '1' <= fmt[i] <= '9' ==>
            ScanFrom(fmt, i, f) == ScanFrom(fmt, SkipDecimals(fmt, i) + 1, f.(width := Atoi(fmt, i, 0)))
    ensures !('1' <= fmt[i] <= '9') ==> ScanFrom(fmt, i, f) == ScanFrom(fmt, i + 1, Letter(f, fmt[i]))
  {
    hide Letter, Atoi, SkipDecimals;
  }

  lemma FlagShaped(f: Flags, c: char)
    requires Shaped(f)
    ensures Shaped(SetFlag(f, c)) && SetFlag(f, c).base == f.base
  {
    hide IsBase;
  }

  lemma ConversionShaped(f: Flags, c: char)
    requires Shaped(f)
    ensures Shaped(SetConversion(f, c)) && SetConversion(f, c).base != 0
  {
  }

  lemma LetterShaped(f: Flags, c: char)
    requires Shaped(f)
    ensures Shaped(Letter(f, c))
    ensures if IsConversion(c) then Letter(f, c).base != 0 else Letter(f, c).base == f.base
  {
    hide SetFlag, SetConversion, Shaped;
    FlagShaped(f, c);
    ConversionShaped(f, c);
  }

  lemma ScanEnd(fmt: seq<char>, i: nat, f: Flags)
    requires i < |fmt| ==> fmt[i] == '\0'
    ensures ScanFrom(fmt, i, f) == f && !Strays(fmt, i)
  {
  }

  /** From position `i`, a width runs to the end of the format; the scan then steps past the null character there. */
  predicate Strays(fmt: seq<char>, i: nat)
    decreases |fmt| - i
  {
    if i >= |fmt| || fmt[i] == '\0' then false
    else if '1' <= fmt[i] <= '9' then SkipDecimals(fmt, i) >= |fmt| || Strays(fmt, SkipDecimals(fmt, i) + 1)
    else Strays(fmt, i + 1)
  }

  lemma {:induction false} StraysStep(fmt: seq<char>, i: nat)
    requires i < |fmt| && fmt[i] != '\0'
    ensures '1' <= fmt[i] <= '9' ==>
              (Strays(fmt, i) <==> SkipDecimals(fmt, i) >= |fmt| || Strays(fmt, SkipDecimals(fmt, i) + 1))
    ensures !('1' <= fmt[i] <= '9') ==> (Strays(fmt, i) <==> Strays(fmt, i + 1))
  {
    hide SkipDecimals;
  }

  /** A width at the end: digits from `i` or after it to the end, the first of them not zero. */
  ghost predicate WidthAtEnd(fmt: seq<char>, i: nat) {
    exists j {:trigger fmt[j]} :: i <= j < |fmt| && '1' <= fmt[j] <= '9' && AllDecimal(fmt, j, |fmt|)
  }

  ghost predicate AllDecimal(fmt: seq<char>, i: nat, j: nat) {
    forall k {:trigger fmt[k]} :: i <= k < j && k < |fmt| ==> IsDecimal(fmt[k])
  }

  lemma {:induction false} SkipsAll(s: seq<char>, i: nat)
    requires i <= |s|
    ensures AllDecimal(s, i, SkipDecimals(s, i)) && !IsDecimal(At(s, SkipDecimals(s, i)))
    decreases |s| - i
  {
    if i < |s| && IsDecimal(s[i]) { SkipsAll(s, i + 1); }
  }

  /** The scan of a C string strays if and only if the string ends in a width. */
  lemma {:induction false} StraysIff(fmt: seq<char>, i: nat)
    requires forall k {:trigger fmt[k]} :: 0 <= k < |fmt| ==> fmt[k] != '\0'
    ensures Strays(fmt, i) <==> WidthAtEnd(fmt, i)
    decreases |fmt| - i
  {
    if i < |fmt| {
      if '1' <= fmt[i] <= '9' {
        SkipsAll(fmt, i);
        var j := SkipDecimals(fmt, i);
        if j < |fmt| { StraysIff(fmt, j + 1); }
      } else {
        StraysIff(fmt, i + 1);
      }
    }
  }

  /** For instance a format that is cut short after its width. */
  lemma StrayExample()
    ensures Strays("%5", 0)
  {
    hide Strays;
    assert "%5"[1] == '5';
    StraysIff("%5", 0);
  }

  method SkipWidth(fmt: seq<char>, start: nat) returns (p: nat)
    requires start < |fmt|
    ensures start <= p <= |fmt| && p == SkipDecimals(fmt, start)
  {
    p := start;
    while IsDecimal(At(fmt, p))
      invariant start <= p <= |fmt| && SkipDecimals(fmt, p) == SkipDecimals(fmt, start)
      decreases |fmt| - p
    {
      p := p + 1;
    }
  }

  /** The scan of the format in `I64_format`; what it finds past the end of the format is not known. */
  method ScanFormat(fmt: seq<char>) returns (f: Flags, stray: bool)
    ensures stray <==> Strays(fmt, 0)
    ensures !stray ==> f == ScanFrom(fmt, 0, PLAIN) && Shaped(f)
  {
    hide ScanFrom, Letter, Atoi, SkipDecimals, Strays;
    f, stray := PLAIN, false;
    var p := 0;
    while p < |fmt| && fmt[p] != '\0'
      invariant p <= |fmt| && ScanFrom(fmt, p, f) == ScanFrom(fmt, 0, PLAIN) && Shaped(f)
      invariant Strays(fmt, p) <==> Strays(fmt, 0)
    {
      ScanStep(fmt, p, f);
      StraysStep(fmt, p);
      LetterShaped(f, fmt[p]);
      if '1' <= fmt[p] <= '9' {
        f := f.(width := Atoi(fmt, p, 0));
        p := SkipWidth(fmt, p);
        if p == |fmt| { return f, true; }
      } else {
        f := Letter(f, fmt[p]);
      }
      p := p + 1;
    }
    ScanEnd(fmt, p, f);
  }

  /** What the plain formats ask for. */
  lemma PlainFormats()
    ensures ScanFrom("%d", 0, PLAIN) == PLAIN.(signed := true, base := 10)
    ensures ScanFrom("%u", 0, PLAIN) == PLAIN.(base := 10)
    ensures ScanFrom("%x", 0, PLAIN) == PLAIN.(base := 16)
    ensures ScanFrom("%#x", 0, PLAIN) == PLAIN.(alternate := true, base := 16)
    ensures ScanFrom("%#X", 0, PLAIN) == PLAIN.(alternate := true, base := 16, upper := true)
  {
    assert ScanFrom("%d", 2, PLAIN.(signed := true, base := 10)) == PLAIN.(signed := true, base := 10);
    assert ScanFrom("%u", 2, PLAIN.(base := 10)) == PLAIN.(base := 10);
    assert ScanFrom("%x", 2, PLAIN.(base := 16)) == PLAIN.(base := 16);
    var alt := PLAIN.(alternate := true);
    assert ScanFrom("%#x", 3, alt.(base := 16)) == alt.(base := 16);
    assert ScanFrom("%#x", 2, alt) == alt.(base := 16);
    assert ScanFrom("%#X", 3, alt.(base := 16, upper := true)) == alt.(base := 16, upper := true);
    assert ScanFrom("%#X", 2, alt) == alt.(base := 16, upper := true);
  }

  // ---- Digits -------------------------------------------------------------------------------------------------------

  predicate IsBase(base: int) { base == 8 || base == 10 || base == 16 }

  function DigitChar(d: int, upper: bool): char {
    if 0 <= d < 10 then ('0' as int + d) as char
    else if 10 <= d < 16 then ((if upper then 'A' else 'a') as int + (d - 10)) as char
    else '?'
  }

  lemma DivSmaller(n: nat, base: nat)
    requires base >= 2
    ensures n >= base ==> 0 <= n / base < n
  {
    assert n == base * (n / base) + n % base;
    if n >= base { MulLe(2, base, n / base); }
  }

  /** The digits of `n`, without leading zeros. */
  function Digits(n: nat, base: nat, upper: bool): seq<char>
    requires base >= 2
  {
    DivSmaller(n, base);
    if n < base then [DigitChar(n, upper)] else Digits(n / base, base, upper) + [DigitChar(n % base, upper)]
  }

  function Pow8(k: nat): nat { if k == 0 then 1 else 8 * Pow8(k - 1) }

  lemma {:induction false} DigitsFit(n: nat, base: nat, upper: bool, k: nat)
    requires base >= 8 && k >= 1 && n < Pow8(k)
    ensures 1 <= |Digits(n, base, upper)| <= k
    decreases k
  {
    if n >= base {
      assert k > 1 by { assert Pow8(1) == 8 * Pow8(0); }
      var q := n / base;
      assert n == base * q + n % base;
      MulLe(8, base, q);
      DigitsFit(q, base, upper, k - 1);
    }
  }

  lemma Pow8At22()
    ensures Pow8(22) >= W2
  {
    assert Pow8(4) == 4096;
    assert Pow8(8) == 4096 * 4096;
    assert Pow8(12) == 4096 * 4096 * 4096;
    assert Pow8(16) == 4096 * 4096 * 4096 * 4096;
    assert Pow8(20) == 4096 * 4096 * 4096 * 4096 * 4096;
  }

  /** `I64_of_int32` on a number that is not negative. */
  function OfInt32(n: int): I64 { I64(if n < 0 then W - 1 else 0, Wrap(n)) }

  lemma OfInt32Means(n: int)
    requires 0 <= n < HALF
    ensures Ok(OfInt32(n)) && U(OfInt32(n)) == n && OfInt32(n).l == n
  {
  }

  /** The digit loop of `I64_format`: fills the 24-byte buffer from its end. */
  method FillDigits(value: I64, base: nat, upper: bool, raw: array<char>) returns (r: nat)
    requires Ok(value) && IsBase(base) && raw.Length == 24
    modifies raw
    ensures 2 <= r < 24 && raw[r..] == Digits(U(value), base, upper)
  {
    hide U, Digits, Ok;
    Room(value, base, upper);
    OfInt32Means(base);
    var wbase := OfInt32(base);
    var x := value;
    var more := true;
    r := raw.Length;
    ghost var all := Digits(U(value), base, upper);
    assert raw[r..] == [];
    while more
      invariant Ok(x) && 2 <= r <= 24 && U(x) >= 0 && (r < 24 || more)
      invariant (if more then Digits(U(x), base, upper) else []) + raw[r..] == all
      decreases if more then U(x) + 1 else 0
    {
      var quo, digit := UDivMod(x, wbase);
      DigitStep(x, quo, digit, base, upper);
      ghost var before := raw[r..];
      r := r - 1;
      raw[r] := DigitChar(digit.l, upper);
      assert raw[r..] == [DigitChar(digit.l, upper)] + before;
      x := quo;
      more := x.l != 0 || x.h != 0;
    }
  }

  lemma Room(value: I64, base: nat, upper: bool)
    requires Ok(value) && base >= 8
    ensures U(value) >= 0 && 1 <= |Digits(U(value), base, upper)| <= 22
  {
    hide Digits;
    Pow8At22();
    DigitsFit(U(value), base, upper, 22);
  }

  lemma DigitStep(x: I64, quo: I64, digit: I64, base: nat, upper: bool)
    requires Ok(x) && Ok(quo) && Ok(digit) && IsBase(base) && U(x) == U(quo) * base + U(digit) && U(digit) < base
    ensures U(quo) >= 0 && U(x) >= 0
    ensures var more := quo.l != 0 || quo.h != 0;
            && (more ==> U(quo) < U(x))
            && Digits(U(x), base, upper) == (if more then Digits(U(quo), base, upper) else []) +
               [DigitChar(digit.l, upper)]
  {
    DivUnique(U(x), base, U(quo), U(digit));
    MulLe(8, base, U(quo));
  }

  // ---- The whole conversion -----------------------------------------------------------------------------------------

  function Repeat(c: char, n: int): seq<char> { if n <= 0 then [] else [c] + Repeat(c, n - 1) }

  function Sign(f: Flags, negative: bool): seq<char> {
    if !f.signed then [] else if negative then ['-'] else if f.signStyle != '-' then [f.signStyle] else []
  }

  function Prefix(f: Flags): seq<char> {
    if f.alternate && f.base == 8 then ['0'] else if f.alternate && f.base == 16 then ['0', 'x'] else []
  }

  /** The text for digits `raw`: padding goes before the sign, after the prefix, or at the end. */
  function Layout(f: Flags, negative: bool, raw: seq<char>): seq<char> {
    var sign, prefix := Sign(f, negative), Prefix(f);
    var pad := f.width - (|sign| + |prefix| + |raw|);
    if f.justify == '-' then sign + prefix + raw + Repeat(' ', pad)
    else if f.filler == '0' then sign + prefix + Repeat('0', pad) + raw
    else Repeat(' ', pad) + sign + prefix + raw
  }

  /** The text of `x`: none if the format has no conversion letter. */
  function Text(f: Flags, x: I64): seq<char>
    requires Ok(x) && (f.base == 0 || IsBase(f.base))
  {
    if f.base == 0 then []
    else
      var negative := f.signed && x.h >= HALF;
      Layout(f, negative, Digits(if negative then Magnitude(S(x)) else NatOf(U(x)), f.base, f.upper))
  }

  ghost predicate Shaped(f: Flags) {
    && (f.justify == '+' || f.justify == '-') && (f.filler == ' ' || f.filler == '0')
    && (f.base == 0 || IsBase(f.base)) && (f.signStyle == '-' || f.signStyle == '+' || f.signStyle == ' ')
  }

  lemma {:induction false} RepeatMore(c: char, n: int)
    requires n > 0
    ensures Repeat(c, n) == Repeat(c, n - 1) + [c]
  {
    if n > 1 {
      RepeatMore(c, n - 1);
      assert [c] + (Repeat(c, n - 2) + [c]) == ([c] + Repeat(c, n - 2)) + [c];
    }
  }

  /** A padding loop. */
  method Pad(out0: seq<char>, c: char, rawlen: int, width: int) returns (out: seq<char>)
    ensures out == out0 + Repeat(c, width - rawlen)
  {
    out := out0;
    var i := rawlen;
    while i < width
      invariant rawlen <= i && (i <= width || i == rawlen)
      invariant out == out0 + Repeat(c, i - rawlen)
    {
      RepeatMore(c, i + 1 - rawlen);
      out := out + [c];
      i := i + 1;
    }
  }

  lemma Longer(f: Flags, negative: bool)
    ensures |Sign(f, negative)| == (if f.signed && (negative || f.signStyle != '-') then 1 else 0)
    ensures |Prefix(f)| == (if f.alternate then if f.base == 8 then 1 else if f.base == 16 then 2 else 0 else 0)
  {
  }

  lemma LayoutParts(f: Flags, negative: bool, raw: seq<char>)
    requires Shaped(f)
    ensures var sign, prefix := Sign(f, negative), Prefix(f);
            var pad := f.width - (|raw| + |sign| + |prefix|);
            && (f.justify == '-' ==> Layout(f, negative, raw) == [] + sign + prefix + raw + Repeat(' ', pad))
            && (f.justify == '+' && f.filler == '0' ==>
                Layout(f, negative, raw) == [] + sign + prefix + Repeat('0', pad) + raw)
            && (f.justify == '+' && f.filler == ' ' ==>
                Layout(f, negative, raw) == [] + Repeat(' ', pad) + sign + prefix + raw)
  {
    hide Sign, Prefix, Repeat;
  }

  /** The formatting part of `I64_format`, from the digits to the text. */
  method Write(f: Flags, negative: bool, raw: seq<char>) returns (out: seq<char>)
    requires Shaped(f)
    ensures out == Layout(f, negative, raw)
  {
    hide Sign, Prefix, Repeat, Layout;
    Longer(f, negative);
    LayoutParts(f, negative, raw);
    var rawlen := |raw|;
    if f.signed && (negative || f.signStyle != '-') { rawlen := rawlen + 1; }
    if f.alternate {
      if f.base == 8 { rawlen := rawlen + 1; }
      if f.base == 16 { rawlen := rawlen + 2; }
    }
    out := [];
    if f.justify == '+' && f.filler == ' ' { out := Pad(out, ' ', rawlen, f.width); }
    out := out + Sign(f, negative) + Prefix(f);
    if f.justify == '+' && f.filler == '0' { out := Pad(out, '0', rawlen, f.width); }
    out := out + raw;
    if f.justify == '-' { out := Pad(out, ' ', rawlen, f.width); }
  }

  /** `I64_format` once the format is scanned. */
  method FormatFlags(f: Flags, value: I64) returns (out: seq<char>)
    requires Ok(value) && Shaped(f)
    ensures out == Text(f, value)
  {
    hide Digits, U, S, Layout, Neg;
    out := [];
    if f.base == 0 { return; }
    var x := value;
    var negative := f.signed && x.h >= HALF;
    AbsoluteMeans(x);
    Range(x);
    if negative { x := Neg(x); }
    var raw := new char[24];
    var r := FillDigits(x, f.base, f.upper, raw);
    out := Write(f, negative, raw[r..]);
  }

  /** `I64_format`: prints `x` as `fmt` says, with the digits always fitting their buffer, unless the scan strays. */
  method Format(fmt: seq<char>, x: I64) returns (out: seq<char>, stray: bool)
    requires Ok(x)
    ensures stray <==> Strays(fmt, 0)
    ensures !stray ==> Shaped(ScanFrom(fmt, 0, PLAIN)) && out == Text(ScanFrom(fmt, 0, PLAIN), x)
  {
    hide Text, ScanFrom, Strays;
    var f;
    out := [];
    f, stray := ScanFormat(fmt);
    if !stray { out := FormatFlags(f, x); }
  }
}
