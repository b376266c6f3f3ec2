/** What the letters of a format ask for, and where the parts of the text go, character by character. */
module Int64Layout {
  import opened Int64
  import opened Int64Format
  import Int64Round

  // ---- Letters ------------------------------------------------------------------------------------------------------

  /** The last sign style among the first `n` letters, or a dash. */
  function LastStyle(letters: seq<char>, n: nat): char
    requires n <= |letters|
  {
    if n == 0 then '-' else if letters[n - 1] in {'+', ' '} then letters[n - 1] else LastStyle(letters, n - 1)
  }

  /** The flags set by the first `n` letters. */
  ghost predicate SetBy(f: Flags, letters: seq<char>, n: nat)
    requires n <= |letters|
  {
    && f.justify == (if '-' in letters[..n] then '-' else '+') && f.signStyle == LastStyle(letters, n)
    && f.filler == (if '0' in letters[..n] then '0' else ' ') && (f.alternate <==> '#' in letters[..n])
    && f.base == 0 && f.width == 0 && !f.signed && !f.upper
  }

  lemma FlagSet(f: Flags, letters: seq<char>, n: nat)
    requires n < |letters| && IsFlag(letters[n]) && SetBy(f, letters, n)
    ensures SetBy(Letter(f, letters[n]), letters, n + 1)
  {
    assert letters[..n + 1] == letters[..n] + [letters[n]];
  }

  lemma {:induction false} FlagsSet(fmt: seq<char>, letters: seq<char>, n: nat, f: Flags) returns (g: Flags)
    requires n <= |letters| < |fmt| && fmt[1..1 + |letters|] == letters && SetBy(f, letters, n)
    requires forall k {:trigger letters[k]} :: 0 <= k < |letters| ==> IsFlag(letters[k])
    ensures ScanFrom(fmt, 1 + n, f) == ScanFrom(fmt, 1 + |letters|, g) && SetBy(g, letters, |letters|)
    decreases |letters| - n
  {
    hide ScanFrom, Letter, SetBy;
    g := f;
    if n < |letters| {
      assert fmt[1 + n] == fmt[1..1 + |letters|][n] == letters[n] && IsFlag(letters[n]);
      ScanStep(fmt, 1 + n, f);
      FlagSet(f, letters, n);
      g := FlagsSet(fmt, letters, n + 1, Letter(f, letters[n]));
    }
  }

  /** What the letters of a format without a width mean. */
  ghost predicate Asks(f: Flags, letters: seq<char>, c: char) {
    && f.base == (match c case 'o' => 8 case 'x' => 16 case 'X' => 16 case _ => 10)
    && (f.signed <==> c == 'd' || c == 'i') && (f.upper <==> c == 'X') && f.width == 0
    && f.justify == (if '-' in letters then '-' else '+') && f.filler == (if '0' in letters then '0' else ' ')
    && (f.alternate <==> '#' in letters) && f.signStyle == LastStyle(letters, |letters|)
  }

  /** Each letter of a format without a width counts, in any order; of the sign styles, the last does. */
  lemma LettersMean(letters: seq<char>, c: char)
    requires Int64Round.Conventional(letters, [], c)
    ensures Asks(ScanFrom(['%'] + letters + [c], 0, PLAIN), letters, c)
  {
    hide ScanFrom, SetBy, Letter;
    var fmt := ['%'] + letters + [c];
    assert fmt[1..1 + |letters|] == letters && fmt[1 + |letters|] == c && fmt[0] == '%';
    ScanStep(fmt, 0, PLAIN);
    NothingSet(letters);
    var g := FlagsSet(fmt, letters, 0, PLAIN);
    ScanStep(fmt, 1 + |letters|, g);
    ConversionSet(g, letters, c);
    ScanEnd(fmt, 2 + |letters|, Letter(g, c));
  }

  lemma NothingSet(letters: seq<char>)
    ensures SetBy(PLAIN, letters, 0) && Letter(PLAIN, '%') == PLAIN
  {
  }

  lemma ConversionSet(g: Flags, letters: seq<char>, c: char)
    requires SetBy(g, letters, |letters|) && IsConversion(c)
    ensures Asks(Letter(g, c), letters, c)
  {
    assert letters[..|letters|] == letters;
  }

  /** The number that decimal digits stand for. */
  function Decimal(ds: seq<char>): nat {
    if ds == [] || ds[|ds| - 1] < '0' then 0
    else 10 * Decimal(ds[..|ds| - 1]) + (ds[|ds| - 1] as int - '0' as int)
  }

  lemma {:induction false} AtoiIs(fmt: seq<char>, i: nat, ds: seq<char>, n: nat)
    requires n <= |ds| && i + |ds| < |fmt| && fmt[i..i + |ds|] == ds && !IsDecimal(fmt[i + |ds|])
    requires forall k {:trigger ds[k]} :: 0 <= k < |ds| ==> IsDecimal(ds[k])
    ensures Atoi(fmt, i + n, Decimal(ds[..n])) == Decimal(ds)
    decreases |ds| - n
  {
    if n == |ds| {
      assert ds[..n] == ds;
    } else {
      assert fmt[i + n] == fmt[i..i + |ds|][n] == ds[n];
      assert ds[..n + 1][..n] == ds[..n];
      AtoiIs(fmt, i, ds, n + 1);
    }
  }

  /** Flags, a width, a character that the scan steps over, and a conversion letter. */
  function Wide(letters: seq<char>, width: seq<char>, x: char, c: char): seq<char> {
    ['%'] + letters + width + [x, c]
  }

  lemma WideParts(letters: seq<char>, width: seq<char>, x: char, c: char)
    requires Int64Round.Conventional(letters, width, c) && |width| > 0 && !IsDecimal(x)
    ensures var fmt, i := Wide(letters, width, x, c), 1 + |letters|;
            && |fmt| == i + |width| + 2 && fmt[0] == '%' && fmt[1..i] == letters && fmt[i..i + |width|] == width
            && '1' <= fmt[i] <= '9' && fmt[i + |width|] == x && fmt[i + |width| + 1] == c
            && forall k {:trigger fmt[k]} :: i <= k < i + |width| ==> IsDecimal(fmt[k])
  {
    var fmt, i := Wide(letters, width, x, c), 1 + |letters|;
    assert fmt[i] == width[0];
    forall k | i <= k < i + |width| ensures IsDecimal(fmt[k]) { assert fmt[k] == width[k - i]; }
  }

  /** A width counts, and takes the place of the character after it. */
  lemma WidthMeans(letters: seq<char>, width: seq<char>, x: char, c: char)
    requires Int64Round.Conventional(letters, width, c) && |width| > 0 && !IsDecimal(x)
    ensures var f := ScanFrom(Wide(letters, width, x, c), 0, PLAIN);
            f.width == Decimal(width) && Asks(f.(width := 0), letters, c)
  {
    hide ScanFrom, SetBy, Letter, Atoi, SkipDecimals, Wide, Asks, Decimal;
    WideParts(letters, width, x, c);
    var fmt, i := Wide(letters, width, x, c), 1 + |letters|;
    ScanStep(fmt, 0, PLAIN);
    NothingSet(letters);
    var g := FlagsSet(fmt, letters, 0, PLAIN);
    ScanStep(fmt, i, g);
    AtoiIs(fmt, i, width, 0);
    DecimalNone(width);
    Int64Round.SkipAll(fmt, i, i + |width|);
    var w := g.(width := Decimal(width));
    ScanStep(fmt, i + |width| + 1, w);
    ScanEnd(fmt, i + |width| + 2, Letter(w, c));
    ConversionSet(g, letters, c);
    LetterWidth(g, c, Decimal(width));
  }

  lemma DecimalNone(ds: seq<char>)
    ensures ds[..0] == [] && Decimal(ds[..0]) == 0
  {
  }

  lemma LetterWidth(g: Flags, c: char, n: nat)
    requires IsConversion(c)
    ensures Letter(g.(width := n), c) == Letter(g, c).(width := n) && Letter(g, c).width == g.width
  {
  }

  // ---- The text -----------------------------------------------------------------------------------------------------

  /** What comes before the digits: the sign of a signed conversion, and the mark of the base. */
  function Head(f: Flags, negative: bool): seq<char> {
    (if !f.signed then "" else if negative then "-" else if f.signStyle == '+' then "+"
     else if f.signStyle == ' ' then " " else "") +
    (if !f.alternate then "" else if f.base == 8 then "0" else if f.base == 16 then "0x" else "")
  }

  ghost predicate AllAre(t: seq<char>, c: char, i: int, j: int) {
    0 <= i && j <= |t| && forall k {:trigger t[k]} :: i <= k < j ==> t[k] == c
  }

  /** The head, the digits and the padding that brings the text to the width. */
  ghost predicate Laid(t: seq<char>, f: Flags, negative: bool, raw: seq<char>) {
    var head, n := Head(f, negative), |t|;
    && n == (if f.width > |head| + |raw| then f.width else |head| + |raw|)
    && if f.justify == '-' then t[..|head| + |raw|] == head + raw && AllAre(t, ' ', |head| + |raw|, n)
       else if f.filler == '0' then
         t[..|head|] == head && t[n - |raw|..] == raw && AllAre(t, '0', |head|, n - |raw|)
       else t[n - |head| - |raw|..] == head + raw && AllAre(t, ' ', 0, n - |head| - |raw|)
  }

  lemma {:induction false} RepeatIs(c: char, n: int)
    ensures |Repeat(c, n)| == (if n <= 0 then 0 else n) && AllAre(Repeat(c, n), c, 0, |Repeat(c, n)|)
  {
    if n > 0 { RepeatIs(c, n - 1); }
  }

  lemma HeadIs(f: Flags, negative: bool)
    requires Shaped(f)
    ensures Head(f, negative) == Sign(f, negative) + Prefix(f)
  {
  }

  lemma Before(pad: seq<char>, c: char, text: seq<char>)
    requires AllAre(pad, c, 0, |pad|)
    ensures var t := pad + text; t[|t| - |text|..] == text && AllAre(t, c, 0, |t| - |text|)
  {
  }

  lemma After(text: seq<char>, pad: seq<char>, c: char)
    requires AllAre(pad, c, 0, |pad|)
    ensures var t := text + pad; t[..|text|] == text && AllAre(t, c, |text|, |t|)
  {
  }

  lemma LayoutForms(f: Flags, negative: bool, raw: seq<char>)
    requires Shaped(f)
    ensures var head := Head(f, negative);
            var pad := f.width - (|head| + |raw|);
            Layout(f, negative, raw) ==
            if f.justify == '-' then (head + raw) + Repeat(' ', pad)
            else if f.filler == '0' then head + (Repeat('0', pad) + raw)
            else Repeat(' ', pad) + (head + raw)
  {
    hide Sign, Prefix, Repeat, Layout, Head;
    HeadIs(f, negative);
    LayoutParts(f, negative, raw);
    var sign, prefix := Sign(f, negative), Prefix(f);
    var head := sign + prefix;
    var pad := f.width - (|head| + |raw|);
    assert [] + sign + prefix + raw + Repeat(' ', pad) == (head + raw) + Repeat(' ', pad);
    assert [] + sign + prefix + Repeat('0', pad) + raw == head + (Repeat('0', pad) + raw);
    assert [] + Repeat(' ', pad) + sign + prefix + raw == Repeat(' ', pad) + (head + raw);
  }

  lemma LayoutIs(f: Flags, negative: bool, raw: seq<char>)
    requires Shaped(f)
    ensures Laid(Layout(f, negative, raw), f, negative, raw)
  {
    hide Repeat, Sign, Prefix, Layout, Head, AllAre;
    LayoutForms(f, negative, raw);
    var head := Head(f, negative);
    var pad := f.width - (|head| + |raw|);
    RepeatIs(' ', pad);
    RepeatIs('0', pad);
    if f.justify == '-' {
      After(head + raw, Repeat(' ', pad), ' ');
    } else if f.filler == '0' {
      ZeroesLaid(head, Repeat('0', pad), raw);
    } else {
      Before(Repeat(' ', pad), ' ', head + raw);
    }
  }

  lemma ZeroesLaid(head: seq<char>, pad: seq<char>, raw: seq<char>)
    requires AllAre(pad, '0', 0, |pad|)
    ensures var t := head + (pad + raw);
            t[..|head|] == head && t[|t| - |raw|..] == raw && AllAre(t, '0', |head|, |t| - |raw|)
  {
  }

  /** The text of a number: its digits, laid out; nothing without a conversion letter. */
  lemma TextIs(f: Flags, x: I64)
    requires Shaped(f) && Ok(x)
    ensures f.base == 0 ==> Text(f, x) == []
    ensures f.base != 0 ==>
              var n := if f.signed && S(x) < 0 then -S(x) else U(x);
              n >= 0 && Laid(Text(f, x), f, f.signed && S(x) < 0, Digits(n, f.base, f.upper))
  {
    hide Layout, Laid, Digits;
    Range(x);
    if f.base != 0 {
      var negative := f.signed && x.h >= HALF;
      LayoutIs(f, negative, Digits(if negative then Magnitude(S(x)) else NatOf(U(x)), f.base, f.upper));
    }
  }
}
