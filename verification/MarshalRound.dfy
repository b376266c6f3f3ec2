/** The reader follows the writer: reading back what was written rebuilds the graph. */
module MarshalRound {
  import opened MarshalCodes
  import opened MarshalSpec

  // ---- What can be marshalled -----------------------------------------------------------------------------

  predicate ValOk(env: Env, v: Val) {
    match v
    case Int(n) => -0x4000_0000 <= n < 0x4000_0000
    case Atom(tag) => tag < 256
    case Ptr(_) => true
    case Infix(a, ofs) => ofs < TWO32 && a in env.h && env.h[a].Fields?
    case Code(ofs) => ofs < TWO32
  }

  predicate BlockOk(env: Env, b: Block) {
    match b
    case Fields(tag, vals) => tag < 256 && 0 < |vals| <= MAX_WOSIZE && forall v :: v in vals ==> ValOk(env, v)
    case Str(bytes) => |bytes| < TWO32
    case Dbl(bytes) => |bytes| == 8
    case DblArray(n, bytes) => 0 < n < TWO32 && |bytes| == 8 * n
    case Custom(x) => NumberOk(x)
    case Forward(v) => ValOk(env, v)
    case _ => true
  }

  /** A heap of a 32-bit machine. */
  ghost predicate EnvOk(env: Env) {
    |env.h| < TWO32 && forall a {:trigger env.h[a]} :: a in env.h ==> BlockOk(env, env.h[a])
  }

  // ---- Corresponding values ---------------------------------------------------------------------------------

  /** A value, with forwarding blocks skipped. */
  function Skip(env: Env, v: Val): Val
    decreases RankOf(env, v)
  {
    if v.Ptr? && v.a in env.h && env.h[v.a].Forward? && RankOf(env, env.h[v.a].v) < RankOf(env, v)
      then Skip(env, env.h[v.a].v) else v
  }

  /** The copy of block `a`. */
  predicate CopyOf(seen: seq<int>, objs: seq<int>, a: int, b: int) {
    var i := IndexOf(seen, a);
    i < |seen| && i < |objs| && b == objs[i]
  }

  predicate Rel(env: Env, seen: seq<int>, objs: seq<int>, v: Val, w: Val) {
    match Skip(env, v)
    case Ptr(a) => w.Ptr? && CopyOf(seen, objs, a, w.a)
    case Infix(a, ofs) => w.Infix? && w.ofs == ofs && CopyOf(seen, objs, a, w.a)
    case x => w == x
  }

  ghost predicate RelVals(env: Env, seen: seq<int>, objs: seq<int>, vs: seq<Val>, ws: seq<Val>) {
    |vs| == |ws| && forall i {:trigger vs[i]} {:trigger ws[i]} :: 0 <= i < |vs| ==> Rel(env, seen, objs, vs[i], ws[i])
  }

  ghost predicate RelBlock(env: Env, seen: seq<int>, objs: seq<int>, b: Block, c: Block) {
    if b.Fields? then c.Fields? && c.tag == b.tag && RelVals(env, seen, objs, b.vals, c.vals) else c == b
  }

  // ---- The two states in step ---------------------------------------------------------------------------------

  /** The words taken by the first `n` blocks. */
  function Total(env: Env, seen: seq<int>, n: nat): nat
    requires n <= |seen|
  {
    if n == 0 then 0 else Total(env, seen, n - 1) + if seen[n - 1] in env.h then Words(env.h[seen[n - 1]]) else 0
  }

  lemma {:induction false} TotalPrefix(env: Env, seen: seq<int>, more: seq<int>, n: nat)
    requires n <= |seen| && seen <= more
    ensures Total(env, seen, n) == Total(env, more, n)
  {
    if n > 0 { TotalPrefix(env, seen, more, n - 1); }
  }

  ghost predicate NoDup(seen: seq<int>) {
    forall i, j {:trigger seen[i], seen[j]} :: 0 <= i < j < |seen| ==> seen[i] != seen[j]
  }

  /** The blocks built so far are laid out one after the other from word `base`, in the order of writing. */
  ghost predicate InStep(env: Env, base: int, e: EState, i: IState) {
    && Tracked(env, e)
    && |i.objs| == |e.seen| && i.dest == base + e.size
    && (forall k {:trigger i.objs[k]} :: 0 <= k < |i.objs| ==> i.objs[k] == base + 1 + Total(env, e.seen, k))
    && (forall x {:trigger x in i.mem} :: x in i.mem ==> x <= i.dest && x in i.objs)
  }

  ghost predicate Tracked(env: Env, e: EState) {
    && NoDup(e.seen) && e.size == Total(env, e.seen, |e.seen|)
    && (forall a {:trigger a in e.left} :: a in e.left <==> a in env.h && a !in e.seen)
    && (forall a {:trigger a in e.seen} :: a in e.seen ==> a in env.h && !env.h[a].Forward? && !Refused(env.h[a]))
  }

  /** Block number `k` is complete. */
  ghost predicate Complete(env: Env, e: EState, i: IState, k: nat) {
    && k < |e.seen| && k < |i.objs| && e.seen[k] in env.h && i.objs[k] in i.mem
    && RelBlock(env, e.seen, i.objs, env.h[e.seen[k]], i.mem[i.objs[k]])
  }

  /** From `(e, i)` to `(e', i')`: nothing that was there changed, and the blocks added are complete. */
  ghost predicate Progress(env: Env, base: int, e: EState, i: IState, e': EState, i': IState) {
    && InStep(env, base, e', i') && e.seen <= e'.seen && i.objs <= i'.objs
    && (forall x {:trigger x in i.mem} :: x in i.mem ==> x in i'.mem && i'.mem[x] == i.mem[x])
    && (forall k: nat {:trigger Complete(env, e', i', k)} :: |e.seen| <= k < |e'.seen| ==> Complete(env, e', i', k))
    && (forall x {:trigger x in i'.mem} :: x in i'.mem && x !in i.mem ==> x > i.dest)
  }

  lemma {:induction false} IndexPrefix(seen: seq<int>, more: seq<int>, a: int)
    requires seen <= more && IndexOf(seen, a) < |seen|
    ensures IndexOf(more, a) == IndexOf(seen, a)
  {
    if seen[0] != a {
      assert seen[1..] <= more[1..];
      IndexPrefix(seen[1..], more[1..], a);
    }
  }

  lemma {:induction false} IndexLast(seen: seq<int>, a: int)
    requires a !in seen
    ensures IndexOf(seen + [a], a) == |seen|
  {
    if seen != [] {
      assert (seen + [a])[1..] == seen[1..] + [a];
      IndexLast(seen[1..], a);
    }
  }

  lemma RelMore(env: Env, seen: seq<int>, objs: seq<int>, seen': seq<int>, objs': seq<int>, v: Val, w: Val)
    requires Rel(env, seen, objs, v, w) && seen <= seen' && objs <= objs'
    ensures Rel(env, seen', objs', v, w)
  {
    match Skip(env, v)
    case Ptr(a) => IndexPrefix(seen, seen', a);
    case Infix(a, _) => IndexPrefix(seen, seen', a);
    case _ =>
  }

  lemma RelBlockMore(env: Env, seen: seq<int>, objs: seq<int>, seen': seq<int>, objs': seq<int>, b: Block, c: Block)
    requires RelBlock(env, seen, objs, b, c) && seen <= seen' && objs <= objs'
    ensures RelBlock(env, seen', objs', b, c)
  {
    hide Rel;
    if b.Fields? {
      forall i | 0 <= i < |b.vals| ensures Rel(env, seen', objs', b.vals[i], c.vals[i]) {
        RelMore(env, seen, objs, seen', objs', b.vals[i], c.vals[i]);
      }
    }
  }

  lemma ProgressNone(env: Env, base: int, e: EState, i: IState)
    requires InStep(env, base, e, i)
    ensures Progress(env, base, e, i, e, i)
  {
  }

  lemma ProgressTrans(env: Env, base: int, e: EState, i: IState, e1: EState, i1: IState, e2: EState, i2: IState)
    requires Progress(env, base, e, i, e1, i1) && Progress(env, base, e1, i1, e2, i2) && i.dest <= i1.dest
    ensures Progress(env, base, e, i, e2, i2)
  {
    hide RelBlock, InStep;
    forall k: nat | |e.seen| <= k < |e2.seen| ensures Complete(env, e2, i2, k) {
      if k < |e1.seen| {
        assert Complete(env, e1, i1, k);
        assert e2.seen[k] == e1.seen[k] && i2.objs[k] == i1.objs[k] && i1.objs[k] in i1.mem;
        RelBlockMore(env, e1.seen, i1.objs, e2.seen, i2.objs, env.h[e1.seen[k]], i1.mem[i1.objs[k]]);
      } else {
        assert Complete(env, e2, i2, k);
      }
    }
  }

  // ---- One value at a time ------------------------------------------------------------------------------------

  /** Reading back the bytes of `v`, whatever follows them, gives a value that corresponds to it. */
  ghost predicate Follows(env: Env, base: int, v: Val, e: EState, i: IState, rest: seq<byte>) {
    var r := Extern(env, v, e);
    r.Wrote? ==>
      var q := Intern(env.checksum, r.bytes + rest, i);
      q.Built? && q.rest == rest && Progress(env, base, e, i, r.st, q.st) && Rel(env, r.st.seen, q.st.objs, v, q.v)
  }

  lemma IntItemRead(checksum: seq<byte>, n: int, rest: seq<byte>)
    requires -0x8000_0000 <= n < 0x8000_0000
    ensures ParseItem(checksum, IntBytes(n) + rest) == Parsed(IntItem(n), rest)
  {
    IntRound(n, rest);
    hide ParseInt, IntBytes;
  }

  lemma SharedItemRead(checksum: seq<byte>, d: int, rest: seq<byte>)
    requires 0 <= d < TWO32
    ensures ParseItem(checksum, SharedBytes(d) + rest) == Parsed(SharedItem(d), rest)
  {
    SharedRound(d, rest);
    assert ParseInt(SharedBytes(d) + rest).Bad?;
    hide ParseInt, ParseShared, SharedBytes;
  }

  lemma BlockItemRead(checksum: seq<byte>, tag: nat, size: nat, rest: seq<byte>)
    requires tag < 256 && size <= MAX_WOSIZE
    ensures ParseItem(checksum, BlockBytes(tag, size) + rest) == Parsed(BlockItem(tag, size), rest)
  {
    BlockRound(tag, size, rest);
    BlockFirst(tag, size, rest);
    hide ParseInt, ParseShared, ParseBlock, BlockBytes;
  }

  lemma RawItemRead(checksum: seq<byte>, b: Block, rest: seq<byte>)
    requires IsRaw(b) && BlockOk(Env(map[], map[], false, []), b)
    ensures ParseItem(checksum, RawBytes(b) + rest) == Parsed(RawItem(b), rest)
  {
    RawRound(b, rest);
    hide ParseInt, ParseShared, ParseBlock, ParseRaw, RawBytes;
  }

  lemma CodeItemRead(checksum: seq<byte>, ofs: nat, rest: seq<byte>)
    requires ofs < TWO32
    ensures ParseItem(checksum, [CODE_CODEPOINTER] + BE32(ofs) + checksum + rest) == Parsed(CodeItem(ofs), rest)
  {
    var src := [CODE_CODEPOINTER] + BE32(ofs) + checksum + rest;
    assert src[1..] == BE32(ofs) + (checksum + rest);
    assert src[5..] == checksum + rest;
    assert src[5..5 + |checksum|] == checksum && src[5 + |checksum|..] == rest;
    Take32(ofs, checksum + rest);
    Round32(ofs);
    assert ParseInt(src).Bad? && ParseShared(src).Bad? && ParseBlock(src).Bad? && ParseRaw(src).Bad?;
    hide ParseInt, ParseShared, ParseBlock, ParseRaw, BE32, Read32U;
  }

  lemma InfixItemRead(checksum: seq<byte>, ofs: nat, rest: seq<byte>)
    requires ofs < TWO32
    ensures ParseItem(checksum, [CODE_INFIXPOINTER] + BE32(ofs) + rest) == Parsed(InfixItem(ofs), rest)
  {
    var src := [CODE_INFIXPOINTER] + BE32(ofs) + rest;
    assert src[1..] == BE32(ofs) + rest && src[5..] == rest;
    Take32(ofs, rest);
    Round32(ofs);
    assert ParseInt(src).Bad? && ParseShared(src).Bad? && ParseBlock(src).Bad? && ParseRaw(src).Bad?;
    hide ParseInt, ParseShared, ParseBlock, ParseRaw, BE32, Read32U;
  }

  lemma FollowsInt(env: Env, base: int, n: int, e: EState, i: IState, rest: seq<byte>)
    requires InStep(env, base, e, i) && ValOk(env, Int(n))
    ensures Follows(env, base, Int(n), e, i, rest)
  {
    IntItemRead(env.checksum, n, rest);
    ProgressNone(env, base, e, i);
    hide Progress, InStep, ParseItem, IntBytes;
  }

  lemma FollowsAtom(env: Env, base: int, tag: nat, e: EState, i: IState, rest: seq<byte>)
    requires InStep(env, base, e, i) && tag < 256
    ensures Follows(env, base, Atom(tag), e, i, rest)
  {
    BlockItemRead(env.checksum, tag, 0, rest);
    ProgressNone(env, base, e, i);
    hide Progress, InStep, BlockBytes, ParseItem;
  }

  lemma FollowsCode(env: Env, base: int, ofs: nat, e: EState, i: IState, rest: seq<byte>)
    requires InStep(env, base, e, i) && ofs < TWO32
    ensures Follows(env, base, Code(ofs), e, i, rest)
  {
    if env.closures {
      CodeItemRead(env.checksum, ofs, rest);
      ProgressNone(env, base, e, i);
      hide Progress, InStep, ParseItem, BE32;
    }
  }

  lemma {:induction false} SeenBound(h: Memory, seen: seq<int>)
    requires NoDup(seen) && forall a :: a in seen ==> a in h
    ensures |seen| <= |h|
  {
    if seen != [] {
      var a := seen[0];
      assert forall j :: 0 < j < |seen| ==> seen[0] != seen[j];
      forall j, k | 0 <= j < k < |seen| - 1 ensures seen[1..][j] != seen[1..][k] { assert seen[j + 1] != seen[k + 1]; }
      SeenBound(h - {a}, seen[1..]);
      assert h.Keys == (h - {a}).Keys + {a};
    }
  }

  /** A block seen before: the offset is in range, and leads to the copy made the first time. */
  lemma FollowsShared(env: Env, base: int, a: int, e: EState, i: IState, rest: seq<byte>)
    requires EnvOk(env) && InStep(env, base, e, i) && a in env.h && !env.h[a].Forward? && a !in e.left
    ensures Follows(env, base, Ptr(a), e, i, rest)
  {
    assert a in e.seen;
    SeenBound(env.h, e.seen);
    var d := |e.seen| - IndexOf(e.seen, a);
    SharedItemRead(env.checksum, d, rest);
    ProgressNone(env, base, e, i);
    assert |i.objs| == |e.seen|;
    hide Progress, InStep, EnvOk, ParseItem, SharedBytes;
  }

  // ---- A new block ----------------------------------------------------------------------------------------------

  /** The two states once block `a`, which takes `n` words, is entered in both tables. */
  lemma EnterBlock(env: Env, base: int, a: int, e: EState, i: IState, mem: Memory)
    requires InStep(env, base, e, i) && a in env.h && !env.h[a].Forward? && !Refused(env.h[a]) && a in e.left &&
             Words(env.h[a]) >= 2
    requires forall x :: x in mem ==> x in i.mem || x == i.dest + 1
    ensures var n := Words(env.h[a]);
            && InStep(env, base, EState(e.seen + [a], e.left - {a}, e.size + n),
                      IState(i.objs + [i.dest + 1], i.dest + n, mem))
            && IndexOf(e.seen + [a], a) == |e.seen|
  {
    var n := Words(env.h[a]);
    var e' := EState(e.seen + [a], e.left - {a}, e.size + n);
    var i' := IState(i.objs + [i.dest + 1], i.dest + n, mem);
    IndexLast(e.seen, a);
    forall k: nat | k <= |e.seen|
      ensures Total(env, e'.seen, k) == Total(env, e.seen, k)
    {
      TotalPrefix(env, e.seen, e'.seen, k);
    }
    assert Total(env, e'.seen, |e'.seen|) == Total(env, e.seen, |e.seen|) + n;
    hide Words, Total;
    assert Tracked(env, e') by { TrackMore(env, e, a, n); }
    forall k | 0 <= k < |i'.objs| ensures i'.objs[k] == base + 1 + Total(env, e'.seen, k) {
      if k < |i.objs| { assert i'.objs[k] == i.objs[k]; }
    }
  }

  lemma TrackMore(env: Env, e: EState, a: int, n: nat)
    requires Tracked(env, e) && a in env.h && !env.h[a].Forward? && !Refused(env.h[a]) && a in e.left
    requires Total(env, e.seen + [a], |e.seen| + 1) == e.size + n
    ensures Tracked(env, EState(e.seen + [a], e.left - {a}, e.size + n))
  {
    hide Total;
    var seen := e.seen + [a];
    forall j, k | 0 <= j < k < |seen| ensures seen[j] != seen[k] { assert k < |e.seen| ==> e.seen[j] != e.seen[k]; }
  }

  predicate IsRaw(b: Block) { b.Str? || b.Dbl? || b.DblArray? || b.Custom? }

  lemma RawRead(checksum: seq<byte>, b: Block, i: IState, rest: seq<byte>)
    requires IsRaw(b) && BlockOk(Env(map[], map[], false, []), b)
    ensures Intern(checksum, RawBytes(b) + rest, i)
            == Built(Ptr(i.dest + 1), rest, IState(i.objs + [i.dest + 1], i.dest + Words(b), i.mem[i.dest + 1 := b]))
  {
    RawItemRead(checksum, b, rest);
    hide RawBytes, ParseItem;
  }

  lemma RawProgress(env: Env, base: int, a: int, e: EState, i: IState)
    requires InStep(env, base, e, i) && a in env.h && a in e.left && IsRaw(env.h[a]) && Words(env.h[a]) >= 2
    ensures var b := env.h[a];
            var e' := EState(e.seen + [a], e.left - {a}, e.size + Words(b));
            var i' := IState(i.objs + [i.dest + 1], i.dest + Words(b), i.mem[i.dest + 1 := b]);
            Progress(env, base, e, i, e', i') && Rel(env, e'.seen, i'.objs, Ptr(a), Ptr(i.dest + 1))
  {
    hide InStep, Progress, Rel, Words, IndexOf;
    var b := env.h[a];
    EnterBlock(env, base, a, e, i, i.mem[i.dest + 1 := b]);
    var e' := EState(e.seen + [a], e.left - {a}, e.size + Words(b));
    var i' := IState(i.objs + [i.dest + 1], i.dest + Words(b), i.mem[i.dest + 1 := b]);
    RawAdded(env, base, a, e, i, e', i');
  }

  lemma RawAdded(env: Env, base: int, a: int, e: EState, i: IState, e': EState, i': IState)
    requires InStep(env, base, e, i) && InStep(env, base, e', i') && a in env.h && IsRaw(env.h[a]) &&
             IndexOf(e'.seen, a) == |e.seen|
    requires e'.seen == e.seen + [a] && i'.objs == i.objs + [i.dest + 1] && i'.mem == i.mem[i.dest + 1 := env.h[a]]
    ensures Progress(env, base, e, i, e', i') && Rel(env, e'.seen, i'.objs, Ptr(a), Ptr(i.dest + 1))
  {
    hide Tracked, Total, IndexOf;
    assert Complete(env, e', i', |e.seen|);
  }

  lemma RawWritten(env: Env, a: int, e: EState, e': EState)
    requires a in env.h && a in e.left && IsRaw(env.h[a]) &&
             e' == EState(e.seen + [a], e.left - {a}, e.size + Words(env.h[a]))
    ensures Extern(env, Ptr(a), e) == Wrote(RawBytes(env.h[a]), e')
  {
    hide RawBytes, Words;
    assert ExternBlock(env, env.h[a], e') == Wrote(RawBytes(env.h[a]), e');
  }

  /** A block without values. */
  lemma FollowsRaw(env: Env, base: int, a: int, e: EState, i: IState, rest: seq<byte>)
    requires EnvOk(env) && InStep(env, base, e, i) && a in env.h && a in e.left && IsRaw(env.h[a])
    ensures Follows(env, base, Ptr(a), e, i, rest)
  {
    var b := env.h[a];
    hide *;
    RawSize(env, a);
    var e' := EState(e.seen + [a], e.left - {a}, e.size + Words(b));
    RawWritten(env, a, e, e');
    RawRead(env.checksum, b, i, rest);
    RawProgress(env, base, a, e, i);
    FollowsIntro(env, base, Ptr(a), e, i, rest, RawBytes(b), e', Ptr(i.dest + 1),
                 IState(i.objs + [i.dest + 1], i.dest + Words(b), i.mem[i.dest + 1 := b]));
  }

  lemma RawSize(env: Env, a: int)
    requires EnvOk(env) && a in env.h && IsRaw(env.h[a])
    ensures BlockOk(Env(map[], map[], false, []), env.h[a]) && Words(env.h[a]) >= 2
  {
    assert BlockOk(env, env.h[a]);
  }

  lemma RawRound(b: Block, rest: seq<byte>)
    requires b.Str? || b.Dbl? || b.DblArray? || b.Custom?
    requires BlockOk(Env(map[], map[], false, []), b)
    ensures ParseInt(RawBytes(b) + rest).Bad? && ParseShared(RawBytes(b) + rest).Bad? &&
            ParseBlock(RawBytes(b) + rest).Bad?
    ensures ParseRaw(RawBytes(b) + rest) == Parsed(b, rest)
  {
    match b
    case Str(bytes) => StrRound(bytes, rest);
    case Dbl(bytes) =>
      var src := [CODE_DOUBLE] + bytes + rest;
      assert src[1..9] == bytes && src[9..] == rest;
    case DblArray(n, bytes) => DblArrayRound(n, bytes, rest);
    case Custom(x) =>
      After(CODE_CUSTOM, NumberBytes(x), rest);
      NumberRound(x, rest);
  }

  lemma StrRound(bytes: seq<byte>, rest: seq<byte>)
    requires |bytes| < TWO32
    ensures var src := RawBytes(Str(bytes)) + rest;
            ParseInt(src).Bad? && ParseShared(src).Bad? && ParseBlock(src).Bad? &&
              ParseRaw(src) == Parsed(Str(bytes), rest)
  {
    var hd := StringLengthBytes(|bytes|);
    assert hd + bytes + rest == hd + (bytes + rest);
    StringLengthRound(|bytes|, bytes + rest);
    Drop(bytes, rest, |bytes|);
    assert |hd| > 0 && (hd[0] == CODE_STRING8 || hd[0] == CODE_STRING32 ||
                        PREFIX_SMALL_STRING <= hd[0] < PREFIX_SMALL_INT);
  }

  lemma DblArrayRound(n: nat, bytes: seq<byte>, rest: seq<byte>)
    requires n < TWO32 && |bytes| == 8 * n
    ensures var src := RawBytes(DblArray(n, bytes)) + rest;
            ParseInt(src).Bad? && ParseShared(src).Bad? && ParseBlock(src).Bad? &&
              ParseRaw(src) == Parsed(DblArray(n, bytes), rest)
  {
    var hd := LengthBytes(CODE_DOUBLE_ARRAY8, CODE_DOUBLE_ARRAY32, n);
    assert hd + bytes + rest == hd + (bytes + rest);
    LengthRound(CODE_DOUBLE_ARRAY8, CODE_DOUBLE_ARRAY32, n, bytes + rest);
    Drop(bytes, rest, 8 * n);
    assert |hd| > 0 && (hd[0] == CODE_DOUBLE_ARRAY8 || hd[0] == CODE_DOUBLE_ARRAY32);
  }

  // ---- Blocks of values -----------------------------------------------------------------------------------------

  ghost predicate FollowAll(env: Env, base: int, vals: seq<Val>, e: EState, i: IState, rest: seq<byte>) {
    var r := ExternFields(env, vals, e);
    r.Wrote? ==>
      var q := InternFields(env.checksum, |vals|, r.bytes + rest, i);
      q.BuiltAll? && q.rest == rest && Progress(env, base, e, i, r.st, q.st) &&
        RelVals(env, r.st.seen, q.st.objs, vals, q.vals)
  }

  /** The states when the fields of block `a` have been written and read. */
  lemma BlockProgress(env: Env, base: int, a: int, e: EState, i: IState, e1: EState, i1: IState, e2: EState, i2: IState,
                      vals: seq<Val>)
    requires InStep(env, base, e, i) && a in env.h && env.h[a].Fields? && |env.h[a].vals| > 0 && a in e.left
    requires e1 == EState(e.seen + [a], e.left - {a}, e.size + Words(env.h[a]))
    requires i1 == IState(i.objs + [i.dest + 1], i.dest + Words(env.h[a]), i.mem)
    requires Progress(env, base, e1, i1, e2, i2)
    requires RelVals(env, e2.seen, i2.objs, env.h[a].vals, vals)
    ensures var b := i.dest + 1;
            && Progress(env, base, e, i, e2, i2.(mem := i2.mem[b := Fields(env.h[a].tag, vals)]))
            && Rel(env, e2.seen, i2.objs, Ptr(a), Ptr(b))
  {
    hide *;
    var b := i.dest + 1;
    FieldsWords(env.h[a]);
    EnterBlock(env, base, a, e, i, i.mem);
    BlockPlace(env, base, a, e, i, e1, i1, e2, i2);
    BlockBuilt(env, base, e2, i2, b, Fields(env.h[a].tag, vals));
    BlockComplete(env, e1, i1, e2, i2, |e.seen|, b, vals);
    BlockKept(env, base, e, i, e1, i1, e2, i2, b, Fields(env.h[a].tag, vals));
    BlockRel(env, a, e2.seen, i2.objs, |e.seen|, b);
  }

  lemma FieldsWords(b: Block)
    requires b.Fields? && |b.vals| > 0
    ensures Words(b) >= 2 && !Refused(b)
  {
  }

  lemma BlockPlace(env: Env, base: int, a: int, e: EState, i: IState, e1: EState, i1: IState, e2: EState, i2: IState)
    requires InStep(env, base, e, i) && InStep(env, base, e1, i1) && a in env.h && env.h[a].Fields? &&
             |env.h[a].vals| > 0 && IndexOf(e1.seen, a) == |e.seen|
    requires e1 == EState(e.seen + [a], e.left - {a}, e.size + Words(env.h[a]))
    requires i1 == IState(i.objs + [i.dest + 1], i.dest + Words(env.h[a]), i.mem)
    requires Progress(env, base, e1, i1, e2, i2)
    ensures var b, m := i.dest + 1, |e.seen|;
            && b !in i.mem && b !in i2.mem && b <= i2.dest && i1.dest > i.dest && b in i2.objs
            && |e1.seen| == m + 1 <= |e2.seen| == |i2.objs| && e2.seen[m] == a && i2.objs[m] == b &&
               IndexOf(e2.seen, a) == m
            && InStep(env, base, e2, i2)
            && forall k: nat {:trigger Complete(env, e2, i2, k)} :: |e1.seen| <= k < |e2.seen| ==>
               Complete(env, e2, i2, k)
  {
    hide Tracked, Total, Complete, IndexOf;
    DestGrows(env, base, e1, i1, e2, i2);
    IndexPrefix(e1.seen, e2.seen, a);
    assert e1.seen[|e.seen|] == a && i1.objs[|e.seen|] == i.dest + 1;
    assert e2.seen[|e.seen|] == a && i2.objs[|e.seen|] == i.dest + 1;
  }

  lemma BlockKept(env: Env, base: int, e: EState, i: IState, e1: EState, i1: IState, e2: EState, i2: IState, b: int,
                  c: Block)
    requires b == i.dest + 1 && i1.mem == i.mem && i1.dest > i.dest && e.seen <= e1.seen && i.objs <= i1.objs &&
             b !in i.mem
    requires Progress(env, base, e1, i1, e2, i2) && InStep(env, base, e2, i2.(mem := i2.mem[b := c]))
    requires forall k: nat {:trigger Complete(env, e2, i2.(mem := i2.mem[b := c]), k)} ::
               |e.seen| <= k < |e2.seen| ==> Complete(env, e2, i2.(mem := i2.mem[b := c]), k)
    ensures Progress(env, base, e, i, e2, i2.(mem := i2.mem[b := c]))
  {
    hide InStep, Complete;
  }

  lemma BlockRel(env: Env, a: int, seen: seq<int>, objs: seq<int>, m: nat, b: int)
    requires a in env.h && env.h[a].Fields? && IndexOf(seen, a) == m < |seen| == |objs| && objs[m] == b
    ensures Rel(env, seen, objs, Ptr(a), Ptr(b))
  {
    hide IndexOf;
  }

  lemma BlockComplete(env: Env, e1: EState, i1: IState, e2: EState, i2: IState, m: nat, b: int, vals: seq<Val>)
    requires |e1.seen| == m + 1 <= |e2.seen| == |i2.objs| && e2.seen[m] in env.h && env.h[e2.seen[m]].Fields? &&
             i2.objs[m] == b && b !in i2.mem
    requires RelVals(env, e2.seen, i2.objs, env.h[e2.seen[m]].vals, vals)
    requires forall k: nat {:trigger Complete(env, e2, i2, k)} :: |e1.seen| <= k < |e2.seen| ==>
             Complete(env, e2, i2, k)
    ensures var i3 := i2.(mem := i2.mem[b := Fields(env.h[e2.seen[m]].tag, vals)]);
            forall k: nat {:trigger Complete(env, e2, i3, k)} :: m <= k < |e2.seen| ==> Complete(env, e2, i3, k)
  {
    hide RelVals;
    var i3 := i2.(mem := i2.mem[b := Fields(env.h[e2.seen[m]].tag, vals)]);
    forall k: nat | m <= k < |e2.seen| ensures Complete(env, e2, i3, k) {
      if k > m { assert Complete(env, e2, i2, k); }
    }
  }

  lemma BlockBuilt(env: Env, base: int, e: EState, i: IState, b: int, c: Block)
    requires InStep(env, base, e, i) && b <= i.dest && b in i.objs
    ensures InStep(env, base, e, i.(mem := i.mem[b := c]))
  {
    hide Tracked, Total;
  }

  lemma {:induction false} TotalGrows(env: Env, seen: seq<int>, m: nat, n: nat)
    requires m <= n <= |seen|
    ensures Total(env, seen, m) <= Total(env, seen, n)
  {
    if m < n { TotalGrows(env, seen, m, n - 1); }
  }

  lemma DestGrows(env: Env, base: int, e: EState, i: IState, e': EState, i': IState)
    requires InStep(env, base, e, i) && InStep(env, base, e', i') && e.seen <= e'.seen
    ensures i.dest <= i'.dest
  {
    TotalPrefix(env, e.seen, e'.seen, |e.seen|);
    TotalGrows(env, e'.seen, |e.seen|, |e'.seen|);
  }

  lemma BlockWritten(env: Env, a: int, e: EState)
    requires a in env.h && env.h[a].Fields? && a in e.left && Extern(env, Ptr(a), e).Wrote?
    ensures var b := env.h[a];
            var e1 := EState(e.seen + [a], e.left - {a}, e.size + Words(b));
            var r := ExternFields(env, b.vals, e1);
            b.tag < 256 && r.Wrote? && Extern(env, Ptr(a), e) == Wrote(BlockBytes(b.tag, |b.vals|) + r.bytes, r.st)
  {
  }

  lemma BlockRead(checksum: seq<byte>, tag: nat, n: nat, bytes: seq<byte>, rest: seq<byte>, i: IState, i1: IState)
    requires tag < 256 && 0 < n <= MAX_WOSIZE && i1 == IState(i.objs + [i.dest + 1], i.dest + 1 + n, i.mem)
    ensures var b := i.dest + 1;
            var q := InternFields(checksum, n, bytes + rest, i1);
            q.BuiltAll? ==>
              Intern(checksum, BlockBytes(tag, n) + bytes + rest, i) ==
                Built(Ptr(b), q.rest, q.st.(mem := q.st.mem[b := Fields(tag, q.vals)]))
  {
    var src := BlockBytes(tag, n) + bytes + rest;
    assert src == BlockBytes(tag, n) + (bytes + rest);
    BlockItemRead(checksum, tag, n, bytes + rest);
    BlockReadFrom(checksum, src, tag, n, bytes + rest, i, i1);
  }

  lemma BlockReadFrom(checksum: seq<byte>, src: seq<byte>, tag: nat, n: nat, next: seq<byte>, i: IState, i1: IState)
    requires ParseItem(checksum, src) == Parsed(BlockItem(tag, n), next) && n > 0
    requires i1 == IState(i.objs + [i.dest + 1], i.dest + 1 + n, i.mem)
    ensures var b := i.dest + 1;
            var q := InternFields(checksum, n, next, i1);
            q.BuiltAll? ==>
              Intern(checksum, src, i) == Built(Ptr(b), q.rest, q.st.(mem := q.st.mem[b := Fields(tag, q.vals)]))
  {
    hide ParseItem;
  }

  lemma FollowsIntro(env: Env, base: int, v: Val, e: EState, i: IState, rest: seq<byte>, bytes: seq<byte>, e': EState,
                     w: Val, i': IState)
    requires Extern(env, v, e) == Wrote(bytes, e') && Intern(env.checksum, bytes + rest, i) == Built(w, rest, i')
    requires Progress(env, base, e, i, e', i') && Rel(env, e'.seen, i'.objs, v, w)
    ensures Follows(env, base, v, e, i, rest)
  {
    hide Extern, Intern, Progress, Rel;
  }

  lemma FollowsBlock(env: Env, base: int, a: int, e: EState, i: IState, rest: seq<byte>, e1: EState, i1: IState)
    requires EnvOk(env) && InStep(env, base, e, i) && a in env.h && env.h[a].Fields? && a in e.left &&
             Extern(env, Ptr(a), e).Wrote?
    requires e1 == EState(e.seen + [a], e.left - {a}, e.size + Words(env.h[a]))
    requires i1 == IState(i.objs + [i.dest + 1], i.dest + Words(env.h[a]), i.mem)
    requires FollowAll(env, base, env.h[a].vals, e1, i1, rest)
    ensures Follows(env, base, Ptr(a), e, i, rest)
  {
    var b := env.h[a];
    assert BlockOk(env, b) && Words(b) == 1 + |b.vals| && 0 < |b.vals| <= MAX_WOSIZE;
    BlockWritten(env, a, e);
    var r := ExternFields(env, b.vals, e1);
    BlockRead(env.checksum, b.tag, |b.vals|, r.bytes, rest, i, i1);
    var q := InternFields(env.checksum, |b.vals|, r.bytes + rest, i1);
    assert q.BuiltAll? && q.rest == rest && Progress(env, base, e1, i1, r.st, q.st) &&
           RelVals(env, r.st.seen, q.st.objs, b.vals, q.vals) by {
      hide Words, Extern, ExternBlock, ExternFields, Intern, InternFields, EnvOk, BlockOk, Progress, RelVals, InStep,
           Rel, BlockBytes;
    }
    hide *;
    BlockProgress(env, base, a, e, i, e1, i1, r.st, q.st, q.vals);
    FollowsIntro(env, base, Ptr(a), e, i, rest, BlockBytes(b.tag, |b.vals|) + r.bytes, r.st, Ptr(i.dest + 1),
                 q.st.(mem := q.st.mem[i.dest + 1 := Fields(b.tag, q.vals)]));
  }

  lemma InfixRead(checksum: seq<byte>, ofs: nat, bytes: seq<byte>, rest: seq<byte>, i: IState)
    requires ofs < TWO32
    ensures var q := Intern(checksum, bytes + rest, i);
            q.Built? && q.v.Ptr? ==>
              Intern(checksum, [CODE_INFIXPOINTER] + BE32(ofs) + bytes + rest, i) ==
                Built(Infix(q.v.a, ofs), q.rest, q.st)
  {
    assert [CODE_INFIXPOINTER] + BE32(ofs) + bytes + rest == [CODE_INFIXPOINTER] + BE32(ofs) + (bytes + rest);
    InfixItemRead(checksum, ofs, bytes + rest);
    hide ParseItem, BE32;
  }

  lemma FollowsInfix(env: Env, base: int, a: int, ofs: nat, e: EState, i: IState, rest: seq<byte>)
    requires ValOk(env, Infix(a, ofs)) && Follows(env, base, Ptr(a), e, i, rest)
    ensures Follows(env, base, Infix(a, ofs), e, i, rest)
  {
    var r := Extern(env, Ptr(a), e);
    if r.Wrote? {
      assert Skip(env, Ptr(a)) == Ptr(a) && Skip(env, Infix(a, ofs)) == Infix(a, ofs);
      assert Extern(env, Infix(a, ofs), e) == Wrote([CODE_INFIXPOINTER] + BE32(ofs) + r.bytes, r.st);
      InfixRead(env.checksum, ofs, r.bytes, rest, i);
      hide Extern, Intern, Progress, CopyOf, BE32, Skip;
    }
  }

  lemma {:induction false} FollowsAny(env: Env, base: int, v: Val, e: EState, i: IState, rest: seq<byte>)
    requires EnvOk(env) && InStep(env, base, e, i) && ValOk(env, v)
    ensures Follows(env, base, v, e, i, rest)
    decreases e.left, 0, RankOf(env, v)
  {
    match v
    case Int(n) => FollowsInt(env, base, n, e, i, rest);
    case Atom(tag) => FollowsAtom(env, base, tag, e, i, rest);
    case Code(ofs) => FollowsCode(env, base, ofs, e, i, rest);
    case Infix(a, ofs) =>
      FollowsAny(env, base, Ptr(a), e, i, rest);
      FollowsInfix(env, base, a, ofs, e, i, rest);
    case Ptr(a) => FollowsPtr(env, base, a, e, i, rest);
  }

  lemma {:induction false} FollowsPtr(env: Env, base: int, a: int, e: EState, i: IState, rest: seq<byte>)
    requires EnvOk(env) && InStep(env, base, e, i)
    ensures Follows(env, base, Ptr(a), e, i, rest)
    decreases e.left, 0, RankOf(env, Ptr(a)), 0
  {
    hide InStep, Progress, Rel, Intern;
    if a in env.h {
      var b := env.h[a];
      assert BlockOk(env, b);
      if b.Forward? {
        if RankOf(env, b.v) < RankOf(env, Ptr(a)) {
          FollowsAny(env, base, b.v, e, i, rest);
          RelForward(env, a);
        }
      } else if a !in e.left {
        FollowsShared(env, base, a, e, i, rest);
      } else if b.Fields? {
        EnterBlock(env, base, a, e, i, i.mem);
        var e1 := EState(e.seen + [a], e.left - {a}, e.size + Words(b));
        var i1 := IState(i.objs + [i.dest + 1], i.dest + Words(b), i.mem);
        FollowFields(env, base, b.vals, e1, i1, rest);
        if Extern(env, Ptr(a), e).Wrote? { FollowsBlock(env, base, a, e, i, rest, e1, i1); }
      } else if Refused(b) {
        assert ExternBlock(env, b, EState(e.seen + [a], e.left - {a}, e.size + Words(b))).Fail?;
      } else {
        FollowsRaw(env, base, a, e, i, rest);
      }
    }
  }

  lemma RelForward(env: Env, a: int)
    requires a in env.h && env.h[a].Forward? && RankOf(env, env.h[a].v) < RankOf(env, Ptr(a))
    ensures forall seen, objs, w {:trigger Rel(env, seen, objs, Ptr(a), w)} :: Rel(env, seen, objs, env.h[a].v, w) ==>
            Rel(env, seen, objs, Ptr(a), w)
  {
  }

  lemma {:induction false} FollowFields(env: Env, base: int, vals: seq<Val>, e: EState, i: IState, rest: seq<byte>)
    requires EnvOk(env) && InStep(env, base, e, i) && forall v :: v in vals ==> ValOk(env, v)
    ensures FollowAll(env, base, vals, e, i, rest)
    decreases e.left, 1, |vals|
  {
    if vals == [] {
      ProgressNone(env, base, e, i);
      assert [] + rest == rest;
    } else if ExternFields(env, vals, e).Wrote? {
      var r := Extern(env, vals[0], e);
      var q := ExternFields(env, vals[1..], r.st);
      FollowsAny(env, base, vals[0], e, i, q.bytes + rest);
      var s := Intern(env.checksum, r.bytes + (q.bytes + rest), i);
      FollowFields(env, base, vals[1..], r.st, s.st, rest);
      FieldsStep(env, base, vals, e, i, rest);
    }
  }

  lemma FieldsWritten(env: Env, vals: seq<Val>, e: EState)
    requires vals != [] && ExternFields(env, vals, e).Wrote?
    ensures var r := Extern(env, vals[0], e);
            r.Wrote? &&
            var q := ExternFields(env, vals[1..], r.st);
            q.Wrote? && ExternFields(env, vals, e) == Wrote(r.bytes + q.bytes, q.st)
  {
  }

  lemma FieldsRead(checksum: seq<byte>, n: nat, src: seq<byte>, i: IState)
    requires n > 0 && Intern(checksum, src, i).Built?
    ensures var s := Intern(checksum, src, i);
            var u := InternFields(checksum, n - 1, s.rest, s.st);
            u.BuiltAll? ==> InternFields(checksum, n, src, i) == BuiltAll([s.v] + u.vals, u.rest, u.st)
  {
    hide Intern;
  }

  lemma FieldsStep(env: Env, base: int, vals: seq<Val>, e: EState, i: IState, rest: seq<byte>)
    requires vals != [] && ExternFields(env, vals, e).Wrote? && InStep(env, base, e, i)
    requires var r := Extern(env, vals[0], e);
             var q := ExternFields(env, vals[1..], r.st);
             r.Wrote? && q.Wrote? && Follows(env, base, vals[0], e, i, q.bytes + rest) &&
             var s := Intern(env.checksum, r.bytes + (q.bytes + rest), i);
             s.Built? && FollowAll(env, base, vals[1..], r.st, s.st, rest)
    ensures FollowAll(env, base, vals, e, i, rest)
  {
    hide Extern, ExternFields, Intern, InternFields, Rel, Progress, InStep, RelVals;
    FieldsWritten(env, vals, e);
    var r := Extern(env, vals[0], e);
    var q := ExternFields(env, vals[1..], r.st);
    var src := r.bytes + (q.bytes + rest);
    assert (r.bytes + q.bytes) + rest == src;
    var s := Intern(env.checksum, src, i);
    FieldsRead(env.checksum, |vals|, src, i);
    var u := InternFields(env.checksum, |vals| - 1, q.bytes + rest, s.st);
    FieldsProgress(env, base, vals, e, i, r.st, s.st, s.v, q.st, u.st, u.vals);
  }

  lemma FieldsProgress(env: Env, base: int, vals: seq<Val>, e: EState, i: IState, e1: EState, i1: IState, w: Val,
                       e2: EState, i2: IState, ws: seq<Val>)
    requires vals != [] && InStep(env, base, e, i) && Progress(env, base, e, i, e1, i1) &&
             Progress(env, base, e1, i1, e2, i2)
    requires Rel(env, e1.seen, i1.objs, vals[0], w) && RelVals(env, e2.seen, i2.objs, vals[1..], ws)
    ensures Progress(env, base, e, i, e2, i2) && RelVals(env, e2.seen, i2.objs, vals, [w] + ws)
  {
    hide Rel;
    DestGrows(env, base, e, i, e1, i1);
    ProgressTrans(env, base, e, i, e1, i1, e2, i2);
    RelMore(env, e1.seen, i1.objs, e2.seen, i2.objs, vals[0], w);
    hide Progress, InStep;
    forall k | 0 <= k < |vals| ensures Rel(env, e2.seen, i2.objs, vals[k], ([w] + ws)[k]) {
      if k > 0 { assert vals[k] == vals[1..][k - 1]; }
    }
  }

  // ---- Whole values -----------------------------------------------------------------------------------------------

  function Start(env: Env): EState { EState([], env.h.Keys, 0) }

  /** Two graphs with the same shape: `seen` lists the blocks of one, `objs` their copies, which fill `mem`. */
  ghost predicate Isomorphic(env: Env, v: Val, seen: seq<int>, w: Val, objs: seq<int>, mem: Memory) {
    && |seen| == |objs| && NoDup(seen) && NoDup(objs)
    && Rel(env, seen, objs, v, w)
    && (forall x {:trigger x in mem} :: x in mem <==> x in objs)
    && (forall k {:trigger objs[k]} :: 0 <= k < |objs| ==>
          seen[k] in env.h && objs[k] in mem && RelBlock(env, seen, objs, env.h[seen[k]], mem[objs[k]]))
  }

  /** The blocks lie one after the other in `size` words from `base`. */
  ghost predicate Packed(mem: Memory, objs: seq<int>, base: int, size: nat) {
    && (|objs| > 0 ==> objs[0] == base + 1)
    && (forall k {:trigger objs[k]} :: 0 <= k < |objs| ==>
          objs[k] in mem && objs[k] + Words(mem[objs[k]]) == if k + 1 < |objs| then objs[k+1] else base + size + 1)
  }

  /** Only blocks that hold something were written. */
  ghost predicate Whole(env: Env, seen: seq<int>) {
    forall k {:trigger seen[k]} :: 0 <= k < |seen| ==>
      seen[k] in env.h && !env.h[seen[k]].Forward? && !Refused(env.h[seen[k]])
  }

  lemma TrackedWhole(env: Env, e: EState)
    requires Tracked(env, e)
    ensures Whole(env, e.seen)
  {
    forall k | 0 <= k < |e.seen|
      ensures e.seen[k] in env.h && !env.h[e.seen[k]].Forward? && !Refused(env.h[e.seen[k]])
    {
      assert e.seen[k] in e.seen;
    }
  }

  lemma ObjsDistinct(env: Env, base: int, e: EState, i: IState)
    requires EnvOk(env) && InStep(env, base, e, i)
    ensures NoDup(i.objs)
  {
    forall j, k | 0 <= j < k < |i.objs| ensures i.objs[j] != i.objs[k] {
      TotalGrows(env, e.seen, j + 1, k);
      assert e.seen[j] in e.seen && Words(env.h[e.seen[j]]) > 0;
      assert Total(env, e.seen, j + 1) > Total(env, e.seen, j);
    }
  }

  lemma RelWords(env: Env, seen: seq<int>, objs: seq<int>, b: Block, c: Block)
    requires RelBlock(env, seen, objs, b, c)
    ensures Words(c) == Words(b)
  {
  }

  lemma AllPacked(env: Env, base: int, e: EState, i: IState)
    requires InStep(env, base, e, i)
    requires forall k: nat {:trigger Complete(env, e, i, k)} :: k < |e.seen| ==> Complete(env, e, i, k)
    ensures Packed(i.mem, i.objs, base, e.size)
  {
    forall k | 0 <= k < |i.objs|
      ensures i.objs[k] in i.mem && i.objs[k] + Words(i.mem[i.objs[k]]) == if k + 1 < |i.objs| then i.objs[k+1]
              else base + e.size + 1
    {
      assert Complete(env, e, i, k);
      RelWords(env, e.seen, i.objs, env.h[e.seen[k]], i.mem[i.objs[k]]);
      assert Total(env, e.seen, k + 1) == Total(env, e.seen, k) + Words(env.h[e.seen[k]]);
    }
    if |i.objs| > 0 { assert i.objs[0] == base + 1 + Total(env, e.seen, 0); }
  }

  lemma AllComplete(env: Env, base: int, v: Val, w: Val, e: EState, i: IState)
    requires EnvOk(env) && InStep(env, base, e, i) && Rel(env, e.seen, i.objs, v, w)
    requires forall k: nat {:trigger Complete(env, e, i, k)} :: k < |e.seen| ==> Complete(env, e, i, k)
    ensures Isomorphic(env, v, e.seen, w, i.objs, i.mem)
  {
    ObjsDistinct(env, base, e, i);
    hide Rel, RelBlock, Total, EnvOk;
    forall k | 0 <= k < |i.objs|
      ensures e.seen[k] in env.h && i.objs[k] in i.mem &&
              RelBlock(env, e.seen, i.objs, env.h[e.seen[k]], i.mem[i.objs[k]])
    {
      assert Complete(env, e, i, k);
    }
  }

  /**
   * The round trip. Reading back the bytes of a value, whatever follows them, succeeds, stops right after them,
   * rebuilds an isomorphic graph with the same sharing, and fills exactly the words announced.
   */
  lemma RoundTrip(env: Env, v: Val, base: int, rest: seq<byte>)
    requires EnvOk(env) && ValOk(env, v) && Extern(env, v, Start(env)).Wrote?
    ensures var r := Extern(env, v, Start(env));
            var q := Intern(env.checksum, r.bytes + rest, IState([], base, map[]));
            && q.Built? && q.rest == rest
            && q.st.dest == base + r.st.size
            && Isomorphic(env, v, r.st.seen, q.v, q.st.objs, q.st.mem)
            && Packed(q.st.mem, q.st.objs, base, r.st.size)
            && Whole(env, r.st.seen)
  {
    var e0, i0 := Start(env), IState([], base, map[]);
    assert InStep(env, base, e0, i0);
    FollowsAny(env, base, v, e0, i0, rest);
    var r := Extern(env, v, e0);
    var q := Intern(env.checksum, r.bytes + rest, i0);
    hide Extern, Intern, Rel, RelBlock, EnvOk, Complete, Isomorphic, Packed, Tracked, Whole;
    assert forall k: nat {:trigger Complete(env, r.st, q.st, k)} :: k < |r.st.seen| ==> Complete(env, r.st, q.st, k);
    assert InStep(env, base, r.st, q.st);
    AllComplete(env, base, v, q.v, r.st, q.st);
    AllPacked(env, base, r.st, q.st);
    TrackedWhole(env, r.st);
  }

  // ---- What writing needs -------------------------------------------------------------------------------------------

  predicate Writable(env: Env, v: Val) {
    match v
    case Int(_) => true
    case Atom(tag) => tag < 256
    case Ptr(a) => a in env.h
    case Infix(a, _) => a in env.h
    case Code(_) => env.closures
  }

  predicate WritableBlock(env: Env, a: int)
    requires a in env.h
  {
    match env.h[a]
    case Fields(tag, vals) => tag < 256 && forall v :: v in vals ==> Writable(env, v)
    case Forward(v) => Writable(env, v) && Onward(env, v, a)
    case Unsupported => false
    case NoSerializer => false
    case _ => true
  }

  /** What the forwarding block `a` holds is nearer to the end of its chain. */
  predicate Onward(env: Env, v: Val, a: int) {
    && a in env.rank
    && match v
       case Ptr(b) => b in env.rank && env.rank[b] < env.rank[a]
       case Infix(b, _) => b in env.rank && env.rank[b] + 1 < env.rank[a]
       case _ => true
  }

  /** Any graph of supported blocks, cyclic or not, can be written. */
  lemma {:induction false} ExternSucceeds(env: Env, v: Val, e: EState)
    requires (forall a {:trigger env.h[a]} :: a in env.h ==> WritableBlock(env, a)) && Writable(env, v)
    ensures Extern(env, v, e).Wrote?
    decreases e.left, 0, RankOf(env, v)
  {
    match v
    case Infix(a, _) => ExternSucceeds(env, Ptr(a), e);
    case Ptr(a) =>
      var b := env.h[a];
      assert WritableBlock(env, a);
      if b.Forward? {
        ExternSucceeds(env, b.v, e);
      } else if a in e.left {
        var e1 := EState(e.seen + [a], e.left - {a}, e.size + Words(b));
        if b.Fields? { FieldsSucceed(env, b.vals, e1); }
        assert ExternBlock(env, b, e1).Wrote?;
      }
    case _ =>
  }

  lemma {:induction false} FieldsSucceed(env: Env, vals: seq<Val>, e: EState)
    requires (forall a {:trigger env.h[a]} :: a in env.h ==> WritableBlock(env, a)) && forall v :: v in vals ==>
             Writable(env, v)
    ensures ExternFields(env, vals, e).Wrote?
    decreases e.left, 1, |vals|
  {
    if vals != [] {
      ExternSucceeds(env, vals[0], e);
      FieldsSucceed(env, vals[1..], Extern(env, vals[0], e).st);
    }
  }
}
