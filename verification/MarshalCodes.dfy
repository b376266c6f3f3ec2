/** The byte codes of the marshalling format, on a machine with 32-bit words. */
module MarshalCodes {
  type byte = x: int | 0 <= x < 256

  const PREFIX_SMALL_BLOCK: int := 0x80
  const PREFIX_SMALL_INT: int := 0x40
  const PREFIX_SMALL_STRING: int := 0x20
  const CODE_INT8: byte := 0x0
  const CODE_INT16: byte := 0x1
  const CODE_INT32: byte := 0x2
  const CODE_SHARED8: byte := 0x4
  const CODE_SHARED16: byte := 0x5
  const CODE_SHARED32: byte := 0x6
  const CODE_DOUBLE_ARRAY32: byte := 0x7
  const CODE_BLOCK32: byte := 0x8
  const CODE_STRING8: byte := 0x9
  const CODE_STRING32: byte := 0xA
  const CODE_DOUBLE: byte := 0xC
  const CODE_DOUBLE_ARRAY8: byte := 0xE
  const CODE_CODEPOINTER: byte := 0x10
  const CODE_INFIXPOINTER: byte := 0x11
  const CODE_CUSTOM: byte := 0x12

  const MAX_WOSIZE: int := 0x3F_FFFF
  const TWO32: int := 0x1_0000_0000

  /** The low byte of a number. */
  function Low(n: int): byte { n % 256 }

  function BE16(n: int): seq<byte> { [Low(n / 0x100), Low(n)] }

  function BE32(n: int): seq<byte> {
    [Low(n / 0x100_0000), Low(n / 0x1_0000), Low(n / 0x100), Low(n)]
  }

  function SignExtend(b: byte): int { if b >= 128 then b - 256 else b }

  function Read16U(s: seq<byte>): int
    requires |s| >= 2
  {
    (s[0] as int) * 0x100 + s[1]
  }

  function Read16S(s: seq<byte>): int
    requires |s| >= 2
  {
    SignExtend(s[0]) * 0x100 + s[1]
  }

  function Read32U(s: seq<byte>): int
    requires |s| >= 4
  {
    (s[0] as int) * 0x100_0000 + (s[1] as int) * 0x1_0000 + (s[2] as int) * 0x100 + s[3]
  }

  function Read32S(s: seq<byte>): int
    requires |s| >= 4
  {
    SignExtend(s[0]) * 0x100_0000 + (s[1] as int) * 0x1_0000 + (s[2] as int) * 0x100 + s[3]
  }

  lemma Split32(n: int)
    ensures n == (n / 0x100_0000) * 0x100_0000 + Low(n / 0x1_0000) * 0x1_0000 + Low(n / 0x100) * 0x100 + Low(n)
  {
    assert n / 0x100 / 0x100 == n / 0x1_0000;
    assert n / 0x1_0000 / 0x100 == n / 0x100_0000;
  }

  lemma Round16(n: int)
    ensures 0 <= n < 0x1_0000 ==> Read16U(BE16(n)) == n
    ensures -0x8000 <= n < 0x8000 ==> Read16S(BE16(n)) == n
  {
  }

  lemma Round32(n: int)
    ensures 0 <= n < TWO32 ==> Read32U(BE32(n)) == n
    ensures -0x8000_0000 <= n < 0x8000_0000 ==> Read32S(BE32(n)) == n
  {
    Split32(n);
  }

  /** A code followed by bytes, at the start of a stream. */
  lemma After(c: byte, bytes: seq<byte>, rest: seq<byte>)
    ensures ([c] + bytes + rest)[0] == c && ([c] + bytes + rest)[1..] == bytes + rest
  {
  }

  lemma Drop(bytes: seq<byte>, rest: seq<byte>, k: nat)
    requires |bytes| == k
    ensures (bytes + rest)[..k] == bytes && (bytes + rest)[k..] == rest
  {
  }

  lemma Take16(n: int, rest: seq<byte>)
    ensures |BE16(n) + rest| >= 2 && (BE16(n) + rest)[2..] == rest
    ensures Read16U(BE16(n) + rest) == Read16U(BE16(n)) && Read16S(BE16(n) + rest) == Read16S(BE16(n))
  {
  }

  lemma Take32(n: int, rest: seq<byte>)
    ensures |BE32(n) + rest| >= 4 && (BE32(n) + rest)[4..] == rest
    ensures Read32U(BE32(n) + rest) == Read32U(BE32(n)) && Read32S(BE32(n) + rest) == Read32S(BE32(n))
  {
  }

  // ---- Immediate integers -----------------------------------------------------------------------------

  function IntBytes(n: int): seq<byte> {
    if 0 <= n < 0x40 then [PREFIX_SMALL_INT + n]
    else if -0x80 <= n < 0x80 then [CODE_INT8, Low(n)]
    else if -0x8000 <= n < 0x8000 then [CODE_INT16] + BE16(n)
    else [CODE_INT32] + BE32(n)
  }

  datatype Parsed<T> = Bad | Parsed(value: T, rest: seq<byte>)

  /** The integers among the codes that `intern_rec` reads. */
  function ParseInt(src: seq<byte>): Parsed<int> {
    if |src| > 0 && PREFIX_SMALL_INT <= src[0] < PREFIX_SMALL_BLOCK then Parsed(src[0] % 0x40, src[1..])
    else if |src| > 1 && src[0] == CODE_INT8 then Parsed(SignExtend(src[1]), src[2..])
    else if |src| > 2 && src[0] == CODE_INT16 then Parsed(Read16S(src[1..]), src[3..])
    else if |src| > 4 && src[0] == CODE_INT32 then Parsed(Read32S(src[1..]), src[5..])
    else Bad
  }

  lemma IntRound(n: int, rest: seq<byte>)
    requires -0x8000_0000 <= n < 0x8000_0000
    ensures ParseInt(IntBytes(n) + rest) == Parsed(n, rest)
  {
    var src := IntBytes(n) + rest;
    if -0x80 <= n < 0x80 {
    } else if -0x8000 <= n < 0x8000 {
      After(CODE_INT16, BE16(n), rest);
      Take16(n, rest);
      Round16(n);
    } else {
      After(CODE_INT32, BE32(n), rest);
      Take32(n, rest);
      Round32(n);
    }
  }

  // ---- Shared blocks --------------------------------------------------------------------------------------

  function SharedBytes(d: int): seq<byte> {
    if d < 0x100 then [CODE_SHARED8, Low(d)]
    else if d < 0x1_0000 then [CODE_SHARED16] + BE16(d)
    else [CODE_SHARED32] + BE32(d)
  }

  function ParseShared(src: seq<byte>): Parsed<int> {
    if |src| > 1 && src[0] == CODE_SHARED8 then Parsed(src[1], src[2..])
    else if |src| > 2 && src[0] == CODE_SHARED16 then Parsed(Read16U(src[1..]), src[3..])
    else if |src| > 4 && src[0] == CODE_SHARED32 then Parsed(Read32U(src[1..]), src[5..])
    else Bad
  }

  lemma SharedRound(d: int, rest: seq<byte>)
    requires 0 <= d < TWO32
    ensures ParseShared(SharedBytes(d) + rest) == Parsed(d, rest)
  {
    if d < 0x100 {
    } else if d < 0x1_0000 {
      After(CODE_SHARED16, BE16(d), rest);
      Take16(d, rest);
      Round16(d);
    } else {
      After(CODE_SHARED32, BE32(d), rest);
      Take32(d, rest);
      Round32(d);
    }
  }

  // ---- Headers of blocks of values ------------------------------------------------------------------------

  /** A white header. */
  function Header(tag: int, size: int): int { size * 0x400 + tag }

  /** The header code of a block; atoms have size zero. */
  function BlockBytes(tag: nat, size: nat): seq<byte>
    requires tag < 256
  {
    if tag < 16 && size < 8 then [PREFIX_SMALL_BLOCK + tag + size * 0x10]
    else [CODE_BLOCK32] + BE32(Header(tag, size))
  }

  /** A tag and a size. The format can also carry a colour, which the reader drops. */
  function ParseBlock(src: seq<byte>): Parsed<(int, int)> {
    if |src| > 0 && src[0] >= PREFIX_SMALL_BLOCK then Parsed((src[0] % 0x10, (src[0] / 0x10) % 8), src[1..])
    else if |src| > 4 && src[0] == CODE_BLOCK32 then Parsed((Read32U(src[1..]) % 0x100, Read32U(src[1..]) / 0x400),
                                                            src[5..])
    else Bad
  }

  lemma SmallHeader(tag: nat, size: nat)
    requires tag < 16 && size < 8
    ensures var c := PREFIX_SMALL_BLOCK + tag + size * 0x10;
            PREFIX_SMALL_BLOCK <= c < 256 && c % 0x10 == tag && (c / 0x10) % 8 == size
  {
  }

  lemma LargeHeader(tag: nat, size: nat)
    requires tag < 256 && size <= MAX_WOSIZE
    ensures var h := Header(tag, size); 0 <= h < TWO32 && h % 0x100 == tag && h / 0x400 == size
  {
    LargeTag(tag, size * 4);
    LargeSize(tag, size);
  }

  lemma LargeTag(tag: nat, k: nat)
    requires tag < 256
    ensures (k * 0x100 + tag) % 0x100 == tag
  {
  }

  lemma LargeSize(tag: nat, size: nat)
    requires tag < 256
    ensures (size * 0x400 + tag) / 0x400 == size
  {
  }

  lemma BlockRound(tag: nat, size: nat, rest: seq<byte>)
    requires tag < 256 && size <= MAX_WOSIZE
    ensures ParseBlock(BlockBytes(tag, size) + rest) == Parsed((tag, size), rest)
  {
    if tag < 16 && size < 8 {
      SmallHeader(tag, size);
    } else {
      var h := Header(tag, size);
      LargeHeader(tag, size);
      After(CODE_BLOCK32, BE32(h), rest);
      Take32(h, rest);
      Round32(h);
      Length32(h);
      hide BE32, Read32U, Header;
    }
  }

  /** A block header is not read as an integer or a shared block. */
  lemma BlockFirst(tag: nat, size: nat, rest: seq<byte>)
    requires tag < 256
    ensures ParseInt(BlockBytes(tag, size) + rest).Bad? && ParseShared(BlockBytes(tag, size) + rest).Bad?
  {
    assert BlockBytes(tag, size)[0] >= PREFIX_SMALL_BLOCK || BlockBytes(tag, size)[0] == CODE_BLOCK32;
    assert (BlockBytes(tag, size) + rest)[0] == BlockBytes(tag, size)[0];
    hide BlockBytes;
  }

  // ---- Strings, floats ------------------------------------------------------------------------------------

  /** Codes with a length: the 8-bit or 32-bit form. */
  function LengthBytes(c8: byte, c32: byte, len: nat): seq<byte> {
    if len < 0x100 then [c8, Low(len)] else [c32] + BE32(len)
  }

  function ParseLength(c8: byte, c32: byte, src: seq<byte>): Parsed<int> {
    if |src| > 1 && src[0] == c8 then Parsed(src[1], src[2..])
    else if |src| > 4 && src[0] == c32 then Parsed(Read32U(src[1..]), src[5..])
    else Bad
  }

  lemma LengthRound(c8: byte, c32: byte, len: nat, rest: seq<byte>)
    requires c8 != c32 && len < TWO32
    ensures ParseLength(c8, c32, LengthBytes(c8, c32, len) + rest) == Parsed(len, rest)
  {
    if len >= 0x100 {
      After(c32, BE32(len), rest);
      Take32(len, rest);
      Round32(len);
    }
  }

  function StringLengthBytes(len: nat): seq<byte> {
    if len < 0x20 then [PREFIX_SMALL_STRING + len] else LengthBytes(CODE_STRING8, CODE_STRING32, len)
  }

  function ParseStringLength(src: seq<byte>): Parsed<int> {
    if |src| > 0 && PREFIX_SMALL_STRING <= src[0] < PREFIX_SMALL_INT then Parsed(src[0] % 0x20, src[1..])
    else ParseLength(CODE_STRING8, CODE_STRING32, src)
  }

  lemma StringLengthRound(len: nat, rest: seq<byte>)
    requires len < TWO32
    ensures ParseStringLength(StringLengthBytes(len) + rest) == Parsed(len, rest)
  {
    if len >= 0x20 { LengthRound(CODE_STRING8, CODE_STRING32, len, rest); }
  }

  // ---- Custom blocks --------------------------------------------------------------------------------------

  /** The contents of `int32`, `int64` and `nativeint` blocks. */
  datatype Number = Int32(n: int) | Int64(hi: int, lo: int) | NativeInt(n: int)

  predicate NumberOk(x: Number) {
    match x
    case Int32(n) => -0x8000_0000 <= n < 0x8000_0000
    case Int64(hi, lo) => -0x8000_0000 <= hi < 0x8000_0000 && 0 <= lo < TWO32
    case NativeInt(n) => -0x8000_0000 <= n < 0x8000_0000
  }

  /** The identifier, its final zero, and what `serialize` writes. */
  function NumberBytes(x: Number): seq<byte> {
    match x
    case Int32(n) => [0x5F, 0x69, 0] + BE32(n)
    case Int64(hi, lo) => [0x5F, 0x6A, 0] + BE32(hi) + BE32(lo)
    case NativeInt(n) => [0x5F, 0x6E, 0, 1] + BE32(n)
  }

  function ParseNumber(src: seq<byte>): Parsed<Number> {
    if |src| < 3 || src[0] != 0x5F || src[2] != 0 then Bad
    else if src[1] == 0x69 && |src| >= 7 then Parsed(Int32(Read32S(src[3..])), src[7..])
    else if src[1] == 0x6A && |src| >= 11 then Parsed(Int64(Read32S(src[3..]), Read32U(src[7..])), src[11..])
    else if src[1] == 0x6E && |src| >= 8 && src[3] == 1 then Parsed(NativeInt(Read32S(src[4..])), src[8..])
    else Bad
  }

  /** The words of the data part: the size that `serialize` announces, rounded up. */
  function NumberWords(x: Number): nat { if x.Int64? then 2 else 1 }

  lemma NumberRound(x: Number, rest: seq<byte>)
    requires NumberOk(x)
    ensures ParseNumber(NumberBytes(x) + rest) == Parsed(x, rest)
  {
    var src := NumberBytes(x) + rest;
    hide Read32S, Read32U, BE32;
    match x
    case Int32(n) =>
      assert |BE32(n)| == 4 by { Length32(n); }
      assert src[3..] == BE32(n) + rest;
      Take32(n, rest);
      Round32(n);
    case Int64(hi, lo) =>
      Length32(hi);
      Length32(lo);
      assert src[3..] == BE32(hi) + (BE32(lo) + rest);
      assert src[7..] == BE32(lo) + rest;
      Take32(hi, BE32(lo) + rest);
      Take32(lo, rest);
      Round32(hi);
      Round32(lo);
    case NativeInt(n) =>
      Length32(n);
      assert src[4..] == BE32(n) + rest;
      Take32(n, rest);
      Round32(n);
  }

  lemma Length32(n: int)
    ensures |BE32(n)| == 4
  {
  }
}
