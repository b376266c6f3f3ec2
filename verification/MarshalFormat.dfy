/**
 * The format of marshalled data, byte by byte: codes as numbers, and the numbers after them with the most significant
 * byte first; and the space that blocks take, as what holds their contents.
 */
module MarshalFormat {
  import opened MarshalCodes
  import opened MarshalSpec
  import MarshalRound

  /** The number that bytes stand for, the most significant one first. */
  function BigEndian(bs: seq<byte>): nat {
    if bs == [] then 0 else BigEndian(bs[..|bs| - 1]) * 256 + bs[|bs| - 1]
  }

  /** A code followed by a number in `k` bytes, modulo what they can hold. */
  predicate Spelt(bs: seq<byte>, code: int, k: nat, n: int, bound: int)
    requires bound > 0
  {
    |bs| == k + 1 && bs[0] == code && BigEndian(bs[1..]) == n % bound
  }

  predicate IntSpelt(n: int, bs: seq<byte>) {
    if 0 <= n < 64 then bs == [0x40 + n]
    else if -128 <= n < 128 then Spelt(bs, 0x00, 1, n, 0x100)
    else if -32768 <= n < 32768 then Spelt(bs, 0x01, 2, n, 0x1_0000)
    else Spelt(bs, 0x02, 4, n, 0x1_0000_0000)
  }

  predicate SharedSpelt(d: int, bs: seq<byte>) {
    if d < 256 then Spelt(bs, 0x04, 1, d, 0x100)
    else if d < 65536 then Spelt(bs, 0x05, 2, d, 0x1_0000)
    else Spelt(bs, 0x06, 4, d, 0x1_0000_0000)
  }

  /** The header of a block of values: its size above ten bits of colour and tag, in white. */
  predicate HeadSpelt(tag: nat, size: nat, bs: seq<byte>) {
    if tag < 16 && size < 8 then bs == [0x80 + tag + 16 * size]
    else Spelt(bs, 0x08, 4, size * 1024 + tag, 0x1_0000_0000)
  }

  predicate StringSpelt(text: seq<byte>, bs: seq<byte>) {
    var k := |bs| - |text|;
    && k >= 0 && bs[k..] == text
    && if |text| < 32 then bs[..k] == [0x20 + |text|]
       else if |text| < 256 then Spelt(bs[..k], 0x09, 1, |text|, 0x100)
       else Spelt(bs[..k], 0x0A, 4, |text|, 0x1_0000_0000)
  }

  predicate DoublesSpelt(n: nat, data: seq<byte>, bs: seq<byte>) {
    var k := |bs| - |data|;
    && k >= 0 && bs[k..] == data
    && if n < 256 then Spelt(bs[..k], 0x0E, 1, n, 0x100) else Spelt(bs[..k], 0x07, 4, n, 0x1_0000_0000)
  }

  /**
   * The identifiers are `_i`, `_j` and `_n`, each with a null byte; a 1 before a native integer says that it is short.
   */
  predicate NumberSpelt(x: Number, bs: seq<byte>) {
    match x
    case Int32(n) => |bs| == 8 && bs[..4] == [0x12, 0x5F, 0x69, 0] && BigEndian(bs[4..]) == n % 0x1_0000_0000
    case Int64(hi, lo) =>
      && |bs| == 12 && bs[..4] == [0x12, 0x5F, 0x6A, 0]
      && BigEndian(bs[4..8]) == hi % 0x1_0000_0000 && BigEndian(bs[8..]) == lo % 0x1_0000_0000
    case NativeInt(n) => |bs| == 9 && bs[..5] == [0x12, 0x5F, 0x6E, 0, 1] && BigEndian(bs[5..]) == n % 0x1_0000_0000
  }

  predicate RawSpelt(b: Block, bs: seq<byte>) {
    match b
    case Str(text) => StringSpelt(text, bs)
    case Dbl(data) => bs == [0x0C] + data
    case DblArray(n, data) => DoublesSpelt(n, data, bs)
    case Custom(x) => NumberSpelt(x, bs)
    case _ => bs == []
  }

  // ---- The functions of the writer ----------------------------------------------------------------------------------

  lemma BigOne(a: byte)
    ensures BigEndian([a]) == a
  {
    assert [a][..0] == [];
  }

  lemma BigTwo(a: byte, b: byte)
    ensures BigEndian([a, b]) == a * 0x100 + b
  {
    assert [a, b][..1] == [a];
    BigOne(a);
  }

  lemma BigFour(a: byte, b: byte, c: byte, d: byte)
    ensures BigEndian([a, b, c, d]) == a * 0x100_0000 + b * 0x1_0000 + c * 0x100 + d
  {
    assert [a, b, c, d][..3] == [a, b, c] && [a, b, c][..2] == [a, b];
    BigTwo(a, b);
  }

  lemma Big16(n: int)
    ensures |BE16(n)| == 2 && BigEndian(BE16(n)) == n % 0x1_0000
  {
    BigTwo(Low(n / 0x100), Low(n));
  }

  lemma Big32(n: int)
    ensures |BE32(n)| == 4 && BigEndian(BE32(n)) == n % 0x1_0000_0000
  {
    BigFour(Low(n / 0x100_0000), Low(n / 0x1_0000), Low(n / 0x100), Low(n));
    Split32(n);
    Mod32(n, n / 0x100_0000);
  }

  lemma Mod32(n: int, q: int)
    requires q == n / 0x100_0000
    ensures n - q * 0x100_0000 + (q % 256) * 0x100_0000 == n % 0x1_0000_0000
  {
    assert n / 0x100_0000 / 256 == n / 0x1_0000_0000;
    assert q == (q / 256) * 256 + q % 256;
  }

  lemma IntWritten(n: int)
    ensures IntSpelt(n, IntBytes(n))
  {
    hide BE16, BE32;
    Big16(n);
    Big32(n);
    BigOne(Low(n));
    var bs := IntBytes(n);
    assert -128 <= n < 128 && !(0 <= n < 64) ==> bs[1..] == [Low(n)];
    assert -32768 <= n < 32768 && !(-128 <= n < 128) ==> bs[1..] == BE16(n);
    assert !(-32768 <= n < 32768) ==> bs[1..] == BE32(n);
  }

  lemma SharedWritten(d: int)
    requires d >= 0
    ensures SharedSpelt(d, SharedBytes(d))
  {
    hide BE16, BE32;
    Big16(d);
    Big32(d);
    BigOne(Low(d));
    var bs := SharedBytes(d);
    assert d < 256 ==> bs[1..] == [Low(d)];
    assert 256 <= d < 65536 ==> bs[1..] == BE16(d);
    assert 65536 <= d ==> bs[1..] == BE32(d);
  }

  lemma HeadWritten(tag: nat, size: nat)
    requires tag < 256
    ensures HeadSpelt(tag, size, BlockBytes(tag, size))
  {
    hide BE32;
    Big32(size * 1024 + tag);
    if !(tag < 16 && size < 8) { assert BlockBytes(tag, size)[1..] == BE32(size * 1024 + tag); }
  }

  lemma LengthWritten(c8: byte, c32: byte, n: nat)
    ensures var bs := LengthBytes(c8, c32, n);
            if n < 256 then Spelt(bs, c8, 1, n, 0x100) else Spelt(bs, c32, 4, n, 0x1_0000_0000)
  {
    hide BE32;
    Big32(n);
    BigOne(Low(n));
    var bs := LengthBytes(c8, c32, n);
    assert n < 256 ==> bs[1..] == [Low(n)];
    assert n >= 256 ==> bs[1..] == BE32(n);
  }

  lemma RawWritten(b: Block)
    requires b.Str? || b.Dbl? || b.DblArray? || b.Custom?
    ensures RawSpelt(b, RawBytes(b))
  {
    hide BigEndian, LengthBytes, BE32, NumberBytes;
    var bs := RawBytes(b);
    match b
    case Str(text) =>
      var head := StringLengthBytes(|text|);
      LengthWritten(0x09, 0x0A, |text|);
      assert bs == head + text && bs[..|head|] == head && bs[|head|..] == text;
    case Dbl(_) =>
    case DblArray(n, data) =>
      var head := LengthBytes(CODE_DOUBLE_ARRAY8, CODE_DOUBLE_ARRAY32, n);
      LengthWritten(0x0E, 0x07, n);
      assert bs == head + data && bs[..|head|] == head && bs[|head|..] == data;
    case Custom(x) => NumberWritten(x);
  }

  lemma NumberWritten(x: Number)
    ensures NumberSpelt(x, [CODE_CUSTOM] + NumberBytes(x))
  {
    hide BigEndian, BE32;
    var bs := [CODE_CUSTOM] + NumberBytes(x);
    match x
    case Int32(n) =>
      Big32(n);
      assert bs[4..] == BE32(n) && bs[..4] == [0x12, 0x5F, 0x69, 0];
    case Int64(hi, lo) =>
      Big32(hi);
      Big32(lo);
      assert bs[4..8] == BE32(hi) && bs[8..] == BE32(lo) && bs[..4] == [0x12, 0x5F, 0x6A, 0];
    case NativeInt(n) =>
      Big32(n);
      assert bs[5..] == BE32(n) && bs[..5] == [0x12, 0x5F, 0x6E, 0, 1];
  }

  // ---- What is written for a value ----------------------------------------------------------------------------------

  /** The bytes for `v`, when `st` has been written. */
  ghost predicate Format(env: Env, v: Val, st: EState, bs: seq<byte>) {
    match v
    case Int(n) => IntSpelt(n, bs)
    case Atom(tag) => HeadSpelt(tag, 0, bs)
    case Code(ofs) =>
      && |bs| == 5 + |env.checksum| && Spelt(bs[..5], 0x10, 4, ofs, 0x1_0000_0000) && bs[5..] == env.checksum
    case Infix(a, ofs) =>
      && |bs| >= 5 && Spelt(bs[..5], 0x11, 4, ofs, 0x1_0000_0000)
      && Extern(env, Ptr(a), st).Wrote? && bs[5..] == Extern(env, Ptr(a), st).bytes
    case Ptr(a) => a in env.h && BlockFormat(env, a, st, bs)
  }

  ghost predicate BlockFormat(env: Env, a: int, st: EState, bs: seq<byte>)
    requires a in env.h
  {
    if env.h[a].Forward? then Extern(env, env.h[a].v, st).Wrote? && bs == Extern(env, env.h[a].v, st).bytes
    else if a !in st.left then SharedSpelt(|st.seen| - IndexOf(st.seen, a), bs)
    else if env.h[a].Fields? then exists k :: FieldsFormat(env, a, st, bs, k)
    else RawSpelt(env.h[a], bs)
  }

  /** A header in the first `k` bytes, and then the fields, in order. */
  ghost predicate FieldsFormat(env: Env, a: int, st: EState, bs: seq<byte>, k: int)
    requires a in env.h && env.h[a].Fields?
  {
    && 0 <= k <= |bs| && HeadSpelt(env.h[a].tag, |env.h[a].vals|, bs[..k])
    && exists n: nat :: Row(env, env.h[a].vals, EState(st.seen + [a], st.left - {a}, n), bs[k..])
  }

  /** Values one after the other, each written when those before have been. */
  ghost predicate Row(env: Env, vals: seq<Val>, st: EState, bs: seq<byte>)
    decreases |vals|
  {
    if vals == [] then bs == []
    else
      var r := Extern(env, vals[0], st);
      r.Wrote? && r.bytes <= bs && Row(env, vals[1..], r.st, bs[|r.bytes|..])
  }

  lemma {:induction false} RowWritten(env: Env, vals: seq<Val>, st: EState)
    requires ExternFields(env, vals, st).Wrote?
    ensures Row(env, vals, st, ExternFields(env, vals, st).bytes)
    decreases |vals|
  {
    if vals != [] {
      var r := Extern(env, vals[0], st);
      RowWritten(env, vals[1..], r.st);
      var q := ExternFields(env, vals[1..], r.st);
      assert (r.bytes + q.bytes)[|r.bytes|..] == q.bytes;
    }
  }

  /** What `extern_rec` writes is in the format. */
  lemma Formatted(env: Env, v: Val, st: EState)
    requires Extern(env, v, st).Wrote?
    ensures Format(env, v, st, Extern(env, v, st).bytes)
  {
    hide IntSpelt, HeadSpelt, SharedSpelt, RawSpelt, BE32, Row, BigEndian;
    var bs := Extern(env, v, st).bytes;
    match v
    case Int(n) => IntWritten(n);
    case Atom(tag) => HeadWritten(tag, 0);
    case Code(ofs) =>
      Big32(ofs);
      assert bs[..5] == [0x10] + BE32(ofs) && bs[..5][1..] == BE32(ofs) && bs[5..] == env.checksum;
    case Infix(a, ofs) =>
      Big32(ofs);
      assert bs[..5] == [0x11] + BE32(ofs) && bs[..5][1..] == BE32(ofs);
      assert bs[5..] == Extern(env, Ptr(a), st).bytes;
    case Ptr(a) =>
      if !env.h[a].Forward? {
        if a !in st.left { SharedWritten(|st.seen| - IndexOf(st.seen, a)); } else { BlockFormatted(env, a, st); }
      }
  }

  lemma BlockFormatted(env: Env, a: int, st: EState)
    requires a in env.h && !env.h[a].Forward? && a in st.left && Extern(env, Ptr(a), st).Wrote?
    ensures BlockFormat(env, a, st, Extern(env, Ptr(a), st).bytes)
  {
    hide HeadSpelt, RawSpelt, SharedSpelt, Row;
    var b, bs := env.h[a], Extern(env, Ptr(a), st).bytes;
    if b.Fields? {
      var st1 := EState(st.seen + [a], st.left - {a}, st.size + Words(b));
      var head, row := BlockBytes(b.tag, |b.vals|), ExternFields(env, b.vals, st1).bytes;
      HeadWritten(b.tag, |b.vals|);
      RowWritten(env, b.vals, st1);
      assert bs == head + row && bs[..|head|] == head && bs[|head|..] == row;
      assert FieldsFormat(env, a, st, bs, |head|);
    } else {
      RawWritten(b);
    }
  }

  // ---- What is read for a code --------------------------------------------------------------------------------------

  function Signed(n: nat, bound: nat): int { if 2 * n >= bound then n - bound else n }

  /** The bytes `src` start with the code of `item` and its `k` bytes, whatever the writer would have chosen. */
  predicate Decodes(checksum: seq<byte>, src: seq<byte>, item: Item, k: int) {
    && 0 < k <= |src|
    && var c := src[0];
       match item
       case IntItem(n) =>
         || (0x40 <= c < 0x80 && k == 1 && n == c - 0x40)
         || (c == 0x00 && k == 2 && n == Signed(BigEndian(src[1..2]), 0x100))
         || (c == 0x01 && k == 3 && n == Signed(BigEndian(src[1..3]), 0x1_0000))
         || (c == 0x02 && k == 5 && n == Signed(BigEndian(src[1..5]), 0x1_0000_0000))
       case SharedItem(d) =>
         || (c == 0x04 && k == 2 && d == BigEndian(src[1..2]))
         || (c == 0x05 && k == 3 && d == BigEndian(src[1..3]))
         || (c == 0x06 && k == 5 && d == BigEndian(src[1..5]))
       case BlockItem(tag, size) =>
         || (0x80 <= c && k == 1 && tag == c % 16 && size == (c - 0x80) / 16)
         || (c == 0x08 && k == 5 && tag == BigEndian(src[1..5]) % 256 && size == BigEndian(src[1..5]) / 1024)
       case RawItem(b) => RawDecodes(src, b, k)
       case CodeItem(ofs) =>
         c == 0x10 && k == 5 + |checksum| && ofs == BigEndian(src[1..5]) && src[5..k] == checksum
       case InfixItem(ofs) => c == 0x11 && k == 5 && ofs == BigEndian(src[1..5])
  }

  predicate NumberDecodes(src: seq<byte>, x: Number, k: int)
    requires 0 < k <= |src|
  {
    match x
    case Int32(n) => k == 8 && src[1..4] == [0x5F, 0x69, 0] && n == Signed(BigEndian(src[4..8]), 0x1_0000_0000)
    case Int64(hi, lo) =>
      && k == 12 && src[1..4] == [0x5F, 0x6A, 0]
      && hi == Signed(BigEndian(src[4..8]), 0x1_0000_0000) && lo == BigEndian(src[8..12])
    case NativeInt(n) =>
      k == 9 && src[1..5] == [0x5F, 0x6E, 0, 1] && n == Signed(BigEndian(src[5..9]), 0x1_0000_0000)
  }

  predicate RawDecodes(src: seq<byte>, b: Block, k: int)
    requires 0 < k <= |src|
  {
    var c := src[0];
    match b
    case Str(text) =>
      || (0x20 <= c < 0x40 && k == 1 + |text| && |text| == c - 0x20 && src[1..k] == text)
      || (c == 0x09 && k == 2 + |text| && |text| == BigEndian(src[1..2]) && src[2..k] == text)
      || (c == 0x0A && k == 5 + |text| && |text| == BigEndian(src[1..5]) && src[5..k] == text)
    case Dbl(data) => c == 0x0C && k == 9 && src[1..9] == data
    case DblArray(n, data) =>
      || (c == 0x0E && k == 2 + 8 * n && n == BigEndian(src[1..2]) && src[2..k] == data)
      || (c == 0x07 && k == 5 + 8 * n && n == BigEndian(src[1..5]) && src[5..k] == data)
    case Custom(x) => c == 0x12 && NumberDecodes(src, x, k)
    case _ => false
  }

  lemma ReadBig(s: seq<byte>)
    ensures |s| >= 1 ==> BigEndian(s[0..1]) == s[0]
    ensures |s| >= 1 ==> SignExtend(s[0]) == Signed(BigEndian(s[0..1]), 0x100)
    ensures |s| >= 2 ==> Read16U(s) == BigEndian(s[0..2]) && Read16S(s) == Signed(BigEndian(s[0..2]), 0x1_0000)
    ensures |s| >= 4 ==> Read32U(s) == BigEndian(s[0..4]) && Read32S(s) == Signed(BigEndian(s[0..4]), 0x1_0000_0000)
  {
    if |s| >= 1 {
      BigOne(s[0]);
      assert s[0..1] == [s[0]];
    }
    if |s| >= 2 {
      BigTwo(s[0], s[1]);
      assert s[0..2] == [s[0], s[1]];
    }
    if |s| >= 4 {
      BigFour(s[0], s[1], s[2], s[3]);
      assert s[0..4] == [s[0], s[1], s[2], s[3]];
    }
  }

  /** The slices of a stream after its first `i` bytes. */
  lemma Slices(src: seq<byte>, i: nat)
    requires i <= |src|
    ensures |src| >= i + 1 ==> src[i..][0..1] == src[i..i + 1]
    ensures |src| >= i + 2 ==> src[i..][0..2] == src[i..i + 2]
    ensures |src| >= i + 4 ==> src[i..][0..4] == src[i..i + 4]
  {
  }

  lemma NumbersRead(src: seq<byte>, i: nat)
    requires i <= |src|
    ensures |src| >= i + 1 ==> BigEndian(src[i..i + 1]) == src[i]
    ensures |src| >= i + 1 ==> SignExtend(src[i]) == Signed(BigEndian(src[i..i + 1]), 0x100)
    ensures |src| >= i + 2 ==> Read16U(src[i..]) == BigEndian(src[i..i + 2])
    ensures |src| >= i + 2 ==> Read16S(src[i..]) == Signed(BigEndian(src[i..i + 2]), 0x1_0000)
    ensures |src| >= i + 4 ==> Read32U(src[i..]) == BigEndian(src[i..i + 4])
    ensures |src| >= i + 4 ==> Read32S(src[i..]) == Signed(BigEndian(src[i..i + 4]), 0x1_0000_0000)
  {
    hide BigEndian, Read16U, Read16S, Read32U, Read32S, Signed, SignExtend;
    ReadBig(src[i..]);
    Slices(src, i);
  }

  lemma IntDecoded(checksum: seq<byte>, src: seq<byte>)
    ensures var p := ParseInt(src); p.Parsed? ==>
              var k := |src| - |p.rest|; Decodes(checksum, src, IntItem(p.value), k) && p.rest == src[k..]
  {
    hide BigEndian, Read16S, Read32S, Signed, SignExtend;
    if |src| > 0 { NumbersRead(src, 1); }
  }

  lemma SharedDecoded(checksum: seq<byte>, src: seq<byte>)
    ensures var p := ParseShared(src); p.Parsed? ==>
              var k := |src| - |p.rest|; Decodes(checksum, src, SharedItem(p.value), k) && p.rest == src[k..]
  {
    hide BigEndian, Read16U, Read32U;
    if |src| > 0 { NumbersRead(src, 1); }
  }

  lemma BlockDecoded(checksum: seq<byte>, src: seq<byte>)
    ensures var p := ParseBlock(src); p.Parsed? ==>
              var k := |src| - |p.rest|;
              Decodes(checksum, src, BlockItem(p.value.0, p.value.1), k) && p.rest == src[k..]
  {
    hide BigEndian, Read32U;
    if |src| > 0 { NumbersRead(src, 1); }
  }

  lemma LengthDecoded(c8: byte, c32: byte, src: seq<byte>)
    ensures var p := ParseLength(c8, c32, src); p.Parsed? ==>
              || (|src| > 1 && src[0] == c8 && p.value == BigEndian(src[1..2]) && p.rest == src[2..])
              || (|src| > 4 && src[0] == c32 && p.value == BigEndian(src[1..5]) && p.rest == src[5..])
  {
    hide BigEndian, Read32U;
    if |src| > 0 { NumbersRead(src, 1); }
  }

  lemma NumberDecoded(src: seq<byte>)
    ensures |src| > 0 && src[0] == CODE_CUSTOM ==>
              var p := ParseNumber(src[1..]); p.Parsed? ==>
                var k := |src| - |p.rest|; 0 < k <= |src| && RawDecodes(src, Custom(p.value), k) && p.rest == src[k..]
  {
    hide BigEndian, Read32S, Read32U, Signed;
    if |src| > 0 && src[0] == CODE_CUSTOM {
      var s := src[1..];
      if |src| >= 4 {
        NumbersRead(src, 4);
        assert s[3..] == src[4..] && (|src| >= 4 ==> src[1..4] == [src[1], src[2], src[3]]);
      }
      if |src| >= 5 {
        NumbersRead(src, 5);
        assert s[4..] == src[5..] && src[1..5] == [src[1], src[2], src[3], src[4]];
      }
      if |src| >= 8 {
        NumbersRead(src, 8);
        assert s[7..] == src[8..];
      }
    }
  }

  lemma RawDecoded(src: seq<byte>)
    ensures var p := ParseRaw(src); p.Parsed? ==>
              var k := |src| - |p.rest|; 0 < k <= |src| && RawDecodes(src, p.value, k) && p.rest == src[k..]
  {
    hide BigEndian, ParseLength, ParseNumber;
    LengthDecoded(CODE_STRING8, CODE_STRING32, src);
    LengthDecoded(CODE_DOUBLE_ARRAY8, CODE_DOUBLE_ARRAY32, src);
    NumberDecoded(src);
  }

  /** What the reader takes for an item, on any bytes, is what its code and the bytes after it stand for. */
  lemma Decoded(checksum: seq<byte>, src: seq<byte>)
    ensures var p := ParseItem(checksum, src); p.Parsed? ==>
              var k := |src| - |p.rest|; Decodes(checksum, src, p.value, k) && p.rest == src[k..]
  {
    hide BigEndian, ParseInt, ParseShared, ParseBlock, ParseRaw, RawDecodes, Read32U, Signed;
    IntDecoded(checksum, src);
    SharedDecoded(checksum, src);
    BlockDecoded(checksum, src);
    RawDecoded(src);
    if |src| > 0 { NumbersRead(src, 1); }
  }

  // ---- Space --------------------------------------------------------------------------------------------------------

  /**
   * `w` words of four bytes hold a block: a header; and its fields, its bytes with a last byte of padding and no word
   * more, its numbers of eight bytes, or a pointer to its operations and its number.
   */
  predicate Fits(b: Block, w: int) {
    match b
    case Fields(_, vals) => w == 1 + |vals|
    case Str(text) => 4 * (w - 1) - 4 <= |text| < 4 * (w - 1)
    case Dbl(_) => 4 * (w - 1) == 8
    case DblArray(n, _) => 4 * (w - 1) == 8 * n
    case Custom(x) => 4 * (w - 2) == if x.Int64? then 8 else 4
    case _ => false
  }

  lemma WordsFit(b: Block)
    requires b.Fields? || b.Str? || b.Dbl? || b.DblArray? || b.Custom?
    ensures Fits(b, Words(b))
  {
  }

  /** Block number `k` has a place of `w` words that holds it, in the space from `base` on. */
  ghost predicate Placed(mem: Memory, objs: seq<int>, base: int, size: nat, k: int, w: int) {
    && 0 <= k < |objs| && objs[k] in mem && Fits(mem[objs[k]], w)
    && base <= objs[k] - 1 && objs[k] - 1 + w <= base + size
  }

  lemma PackedAt(mem: Memory, objs: seq<int>, base: int, size: nat, k: nat)
    requires MarshalRound.Packed(mem, objs, base, size) && k < |objs|
    ensures objs[k] in mem && (k == 0 ==> objs[0] == base + 1)
    ensures objs[k] + Words(mem[objs[k]]) == if k + 1 < |objs| then objs[k + 1] else base + size + 1
  {
  }

  lemma {:induction false} PackedUp(mem: Memory, objs: seq<int>, base: int, size: nat, j: nat, k: nat)
    requires MarshalRound.Packed(mem, objs, base, size) && j < k < |objs|
    ensures objs[j] in mem && objs[j] + Words(mem[objs[j]]) <= objs[k]
    decreases k - j
  {
    hide Words, MarshalRound.Packed;
    PackedAt(mem, objs, base, size, j);
    if j + 1 < k { PackedUp(mem, objs, base, size, j + 1, k); }
  }

  lemma PackedFrom(mem: Memory, objs: seq<int>, base: int, size: nat, k: nat)
    requires MarshalRound.Packed(mem, objs, base, size) && k < |objs|
    ensures objs[k] in mem && base + 1 <= objs[k] && objs[k] + Words(mem[objs[k]]) <= base + size + 1
  {
    hide Words, MarshalRound.Packed;
    PackedAt(mem, objs, base, size, 0);
    PackedAt(mem, objs, base, size, k);
    if k > 0 { PackedUp(mem, objs, base, size, 0, k); }
    var last := |objs| - 1;
    if k < last {
      PackedUp(mem, objs, base, size, k, last);
      PackedAt(mem, objs, base, size, last);
    }
  }

  /** Every copy has a place that holds it, and no two places overlap. */
  lemma Apart(mem: Memory, objs: seq<int>, base: int, size: nat, j: nat, k: nat) returns (v: int, w: int)
    requires MarshalRound.Packed(mem, objs, base, size) && j < k < |objs|
    requires forall i {:trigger objs[i]} :: 0 <= i < |objs| && objs[i] in mem ==>
               !mem[objs[i]].Forward? && !Refused(mem[objs[i]])
    ensures Placed(mem, objs, base, size, j, v) && Placed(mem, objs, base, size, k, w)
    ensures objs[j] - 1 + v <= objs[k] - 1
  {
    PackedFrom(mem, objs, base, size, j);
    PackedFrom(mem, objs, base, size, k);
    PackedUp(mem, objs, base, size, j, k);
    v, w := Words(mem[objs[j]]), Words(mem[objs[k]]);
    WordsFit(mem[objs[j]]);
    WordsFit(mem[objs[k]]);
  }

  /** The places of all the copies fill the space, without gaps. */
  lemma Filled(mem: Memory, objs: seq<int>, base: int, size: nat, k: nat) returns (w: int)
    requires MarshalRound.Packed(mem, objs, base, size) && k < |objs|
    requires forall i {:trigger objs[i]} :: 0 <= i < |objs| && objs[i] in mem ==>
               !mem[objs[i]].Forward? && !Refused(mem[objs[i]])
    ensures Placed(mem, objs, base, size, k, w) && (k == 0 ==> objs[0] - 1 == base)
    ensures objs[k] - 1 + w == if k + 1 < |objs| then objs[k + 1] - 1 else base + size
  {
    PackedFrom(mem, objs, base, size, k);
    PackedAt(mem, objs, base, size, k);
    w := Words(mem[objs[k]]);
    WordsFit(mem[objs[k]]);
  }
}
