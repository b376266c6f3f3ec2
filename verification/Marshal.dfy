/** The marshaller as it runs: `extern_rec` over the heap and its table, `intern_rec` over the bytes. */
module Marshal {
  import opened MarshalCodes
  import opened MarshalSpec
  import MarshalPaths
  import MarshalRound
  import MarshalWalk
  import opened ExternTable
  import opened Powers

  /** The map of the table is the numbering of the blocks written. */
  ghost predicate Numbered(m: map<int, nat>, seen: seq<int>) {
    && |m| == |seen|
    && (forall a {:trigger a in m} :: a in m <==> a in seen)
    && (forall a {:trigger m[a]} :: a in m ==> m[a] == IndexOf(seen, a))
  }

  /** Forwarding blocks do not form cycles, and the heap is small enough for the table. */
  ghost predicate Runnable(env: Env) {
    && |env.h| < MAX_OBJECTS
    && (forall a {:trigger env.h[a]} :: a in env.h && env.h[a].Forward? ==>
        RankOf(env, env.h[a].v) < RankOf(env, Ptr(a)))
    && (forall a {:trigger env.h[a]} :: a in env.h && env.h[a].Fields? ==> env.h[a].tag < 256)
  }

  /** How a call of the writer ends: normally, or with one of two exceptions. */
  datatype Ending = Normal | InvalidArgument | Failure

  function EndingOf(r: EResult): Ending {
    if r.Wrote? then Normal else if r.abandoned then Failure else InvalidArgument
  }

  /** The table still holds a custom block that could not be written, along with others of the heap. */
  ghost predicate Left(env: Env, m: map<int, nat>) {
    && |m| <= |env.h| && (forall a {:trigger a in m} :: a in m ==> a in env.h && m[a] < |m|)
    && exists a :: a in m && env.h[a].NoSerializer?
  }

  class Externer {
    const table: ObjectTable
    var out: seq<byte>
    var size32: nat

    constructor ()
      ensures table.Idle() && fresh(table)
    {
      table := new ObjectTable();
      out, size32 := [], 0;
    }

    ghost predicate Sync(env: Env, st: EState)
      reads this, table
    {
      table.Valid() && size32 == st.size && Numbered(table.m, st.seen) && MarshalRound.Tracked(env, st)
    }

    /** What a call of the writer promises, against its specification. */
    ghost predicate Done(env: Env, e: Ending, was: seq<byte>, r: EResult)
      reads this, table
    {
      && table.Valid() && e == EndingOf(r)
      && (e.Normal? ==> out == was + r.bytes && Sync(env, r.st))
      && (e.Failure? ==> Left(env, table.m))
    }

    /** `extern_rec` */
    method ExternRec(env: Env, v: Val, ghost st: EState) returns (e: Ending)
      requires Runnable(env) && Sync(env, st)
      modifies this, table
      ensures Done(env, e, old(out), Extern(env, v, st))
      decreases st.left, 0, RankOf(env, v), 1
    {
      hide MarshalRound.Tracked, Numbered, RankOf, Stands, Left;
      e := Normal;
      match v
      case Int(n) => out := out + IntBytes(n);
      case Atom(tag) =>
        if tag < 256 {
          out := out + BlockBytes(tag, 0);
        } else {
          e := InvalidArgument;
        }
      case Code(ofs) =>
        if env.closures {
          out := out + ([CODE_CODEPOINTER] + BE32(ofs) + env.checksum);
        } else {
          e := InvalidArgument;
        }
      case Infix(a, ofs) =>
        out := out + ([CODE_INFIXPOINTER] + BE32(ofs));
        InfixRank(env, a, ofs);
        e := ExternRec(env, Ptr(a), st);
        if e.Normal? { Assoc(old(out), [CODE_INFIXPOINTER] + BE32(ofs), Extern(env, Ptr(a), st).bytes); }
      case Ptr(a) => e := ExternPtr(env, a, st);
    }

    method ExternPtr(env: Env, a: int, ghost st: EState) returns (e: Ending)
      requires Runnable(env) && Sync(env, st)
      modifies this, table
      ensures Done(env, e, old(out), Extern(env, Ptr(a), st))
      decreases st.left, 0, RankOf(env, Ptr(a)), 0
    {
      hide MarshalRound.Tracked, Numbered, RankOf, Stands, ExternBlock, Words, Runnable, Left, Pow2, Older, SharedBytes;
      if a in env.h { RunnableAt(env, a); }
      if a !in env.h {
        e := InvalidArgument;
      } else if env.h[a].Forward? {
        e := ExternRec(env, env.h[a].v, st);
      } else {
        RoomLeft(env, st, table.m);
        ghost var m := table.m;
        var seen := table.Record(a);
        SeenBefore(env, st, m, a);
        match seen
        case Seen(d) =>
          out := out + SharedBytes(d);
          e := Normal;
        case New =>
          ghost var st1 := EState(st.seen + [a], st.left - {a}, st.size + Words(env.h[a]));
          RefusedFails(env, env.h[a], st1);
          if env.h[a].Unsupported? {
            e := InvalidArgument;
          } else if env.h[a].NoSerializer? {
            LeftNow(env, st, m, a, table.m);
            e := Failure;
          } else {
            size32 := size32 + Words(env.h[a]);
            RecordNew(env, st, m, a, st1, table.m);
            e := ExternContents(env, a, st1);
          }
      }
    }

    /** The contents of a block that has just been recorded. */
    method ExternContents(env: Env, a: int, ghost st: EState) returns (e: Ending)
      requires Runnable(env) && Sync(env, st) && a in env.h && !env.h[a].Forward? && !Refused(env.h[a])
      modifies this, table
      ensures Done(env, e, old(out), ExternBlock(env, env.h[a], st))
      decreases st.left, 2
    {
      hide MarshalRound.Tracked, Numbered, RankOf, Stands, Runnable, Words, RawBytes, Left;
      RunnableAt(env, a);
      ghost var was := out;
      var b := env.h[a];
      if b.Fields? {
        out := out + BlockBytes(b.tag, |b.vals|);
        e := ExternFields(env, b.vals, st);
        if e.Normal? {
          Assoc(was, BlockBytes(b.tag, |b.vals|), MarshalSpec.ExternFields(env, b.vals, st).bytes);
        }
      } else {
        out := out + RawBytes(b);
        e := Normal;
      }
    }

    method ExternFields(env: Env, vals: seq<Val>, ghost st: EState) returns (e: Ending)
      requires Runnable(env) && Sync(env, st)
      modifies this, table
      ensures Done(env, e, old(out), MarshalSpec.ExternFields(env, vals, st))
      decreases st.left, 1
    {
      hide MarshalRound.Tracked, Numbered, RankOf, Stands, Runnable, Extern, ExternBlock, Left;
      ghost var cur, written := st, [];
      var i := 0;
      e := Normal;
      assert vals[0..] == vals && out == old(out) + written;
      JoinNothing(MarshalSpec.ExternFields(env, vals, st));
      while i < |vals|
        invariant 0 <= i <= |vals| && e.Normal? && Sync(env, cur) && cur.left <= st.left && out == old(out) + written
        invariant MarshalSpec.ExternFields(env, vals, st) ==
                  Joined(written, MarshalSpec.ExternFields(env, vals[i..], cur))
        decreases |vals| - i
      {
        ghost var r := Extern(env, vals[i], cur);
        ghost var was := out;
        FieldsFrom(env, vals, i, cur, written);
        e := ExternRec(env, vals[i], cur);
        if !e.Normal? {
          return;
        }
        assert old(out) + written + r.bytes == old(out) + (written + r.bytes);
        cur, written := r.st, written + r.bytes;
        i := i + 1;
      }
      assert vals[i..] == [];
      assert written + [] == written;
    }

    /**
     * The work of `extern_value` between the header and the sizes. The table is ready for the next call unless the call
     * is abandoned: `extern_invalid_argument` cleans up as a normal end does, `failwith` does not.
     */
    method ExternValue(env: Env, v: Val) returns (e: Ending)
      requires Runnable(env) && table.Idle()
      modifies this, table
      ensures e == EndingOf(Extern(env, v, MarshalRound.Start(env)))
      ensures table.Idle() <==> !e.Failure?
      ensures table.Idle() <==> MarshalWalk.Walk(env, [v], env.h.Keys) != MarshalWalk.Stopped(true)
      ensures e.Failure? ==> Left(env, table.m) && table.Valid()
      ensures e.Normal? ==>
                var r := Extern(env, v, MarshalRound.Start(env));
                out == r.bytes && size32 == r.st.size && table.objCounter == |r.st.seen|
    {
      hide MarshalRound.Tracked, Numbered, RankOf, Stands, Runnable, Extern, ExternBlock, Left, MarshalWalk.Walk,
           MarshalWalk.Finds;
      MarshalWalk.EndsHow(env, v);
      out, size32 := [], 0;
      table.Begin();
      StartSync(env, table.m);
      e := ExternRec(env, v, MarshalRound.Start(env));
      if e.Normal? {
        NumberedSize(table.m, Extern(env, v, MarshalRound.Start(env)).st.seen);
      }
      if e.Failure? {
        StillHeld(env, table);
      } else {
        table.Finish();
      }
    }
  }

  /** A table that holds an object is not idle. */
  lemma StillHeld(env: Env, t: ObjectTable)
    requires t.Valid() && Left(env, t.m)
    ensures !t.Idle()
  {
    hide Stands;
    var a :| a in t.m && env.h[a].NoSerializer?;
    NotOlder(t.table, t.initialOfs, t.log2, t.m, a);
  }

  class Interner {
    const input: seq<byte>
    const checksum: seq<byte>
    var src: nat
    var dest: int
    var objTable: seq<int>
    var mem: Memory

    /** `intern_alloc`: the destination starts at word `base`. */
    constructor (input: seq<byte>, checksum: seq<byte>, base: int)
      ensures this.input == input && this.checksum == checksum && src == 0 && State() == IState([], base, map[])
    {
      this.input, this.checksum := input, checksum;
      src, dest, objTable, mem := 0, base, [], map[];
    }

    function State(): IState
      reads this
    {
      IState(objTable, dest, mem)
    }

    ghost predicate Done(ok: bool, v: Val, r: IResult)
      reads this
    {
      src <= |input| && ok == r.Built? && (ok ==> v == r.v && input[src..] == r.rest && State() == r.st)
    }

    /** `intern_rec`; a failure stands for an exception. */
    method InternRec() returns (ok: bool, v: Val)
      requires src <= |input|
      modifies this
      ensures Done(ok, v, Intern(checksum, input[old(src)..], old(State()))) && (ok ==> src > old(src))
      decreases |input| - src, 0
    {
      hide ParseItem;
      ok, v := true, Int(0);
      var here := input[src..];
      var p := ParseItem(checksum, here);
      if p.Bad? {
        ok := false;
        return;
      }
      Advance(checksum, input, src);
      src := |input| - |p.rest|;
      match p.value
      case IntItem(n) => v := Int(n);
      case SharedItem(d) =>
        ok := 0 < d <= |objTable|;
        if ok {
          v := Ptr(objTable[|objTable| - d]);
        }
      case BlockItem(tag, size) =>
        if size == 0 {
          v := Atom(tag);
        } else {
          var a := dest + 1;
          objTable, dest := objTable + [a], dest + 1 + size;
          var vals;
          ok, vals := InternFields(size);
          v := Ptr(a);
          if ok {
            mem := mem[a := Fields(tag, vals)];
          }
        }
      case RawItem(b) =>
        var a := dest + 1;
        v := Ptr(a);
        objTable, dest, mem := objTable + [a], dest + Words(b), mem[a := b];
      case CodeItem(ofs) => v := Code(ofs);
      case InfixItem(ofs) =>
        var closure;
        ok, closure := InternRec();
        ok := ok && closure.Ptr?;
        if ok {
          v := Infix(closure.a, ofs);
        }
    }

    method InternFields(n: nat) returns (ok: bool, vals: seq<Val>)
      requires src <= |input|
      modifies this
      ensures var r := MarshalSpec.InternFields(checksum, n, input[old(src)..], old(State()));
              && src <= |input| && (ok ==> old(src) <= src) && ok == r.BuiltAll?
              && (ok ==> vals == r.vals && input[src..] == r.rest && State() == r.st)
      decreases |input| - src, n + 1
    {
      hide Intern, MarshalSpec.InternFields;
      vals := [];
      ghost var src0, s0 := src, State();
      var i := 0;
      ok := true;
      JoinNone(MarshalSpec.InternFields(checksum, n, input[src..], State()));
      while i < n
        invariant 0 <= i <= n && ok && src0 <= src <= |input| && |vals| == i
        invariant MarshalSpec.InternFields(checksum, n, input[src0..], s0) ==
                  JoinedVals(vals, MarshalSpec.InternFields(checksum, n - i, input[src..], State()))
        decreases n - i
      {
        FieldsNext(checksum, n - i, input[src..], State(), vals);
        var v;
        ok, v := InternRec();
        if !ok {
          return;
        }
        vals := vals + [v];
        i := i + 1;
      }
      FieldsDone(checksum, input[src..], State());
      assert vals + [] == vals;
    }
  }

  /**
   * `output_value` and then `input_value`, headers aside: unless the value cannot be written, reading succeeds,
   * consumes all the bytes, fills the words and the object table announced, and gives an isomorphic graph.
   */
  method WriteAndRead(x: Externer, env: Env, v: Val, base: int)
    returns (e: Ending, w: Val, objs: seq<int>, mem: Memory)
    requires Runnable(env) && MarshalRound.EnvOk(env) && MarshalRound.ValOk(env, v) && x.table.Idle()
    modifies x, x.table
    ensures e == EndingOf(Extern(env, v, MarshalRound.Start(env))) && (x.table.Idle() <==> !e.Failure?)
    ensures e.Normal? ==> |objs| == x.table.objCounter && MarshalRound.Packed(mem, objs, base, x.size32)
    ensures e.Normal? ==>
              MarshalPaths.Copied(env, v, Extern(env, v, MarshalRound.Start(env)).st.seen, w, objs, mem)
  {
    hide Extern, Intern, MarshalRound.EnvOk, MarshalRound.ValOk, Runnable, MarshalRound.Packed, MarshalRound.Rel,
         MarshalRound.Whole;
    w, objs, mem := v, [], map[];
    e := x.ExternValue(env, v);
    if e.Normal? {
      var i := new Interner(x.out, env.checksum, base);
      MarshalRound.RoundTrip(env, v, base, []);
      assert x.out + [] == x.out && x.out[0..] == x.out;
      var ok;
      ok, w := i.InternRec();
      objs, mem := i.objTable, i.mem;
      assert i.src == |i.input| && i.dest == base + x.size32;
    }
  }

  // ---- After an abandoned call -----------------------------------------------------------------------------------

  /**
   * A call after an abandoned one, when it meets its first block. It takes it for one that it has written itself, with
   * an offset that leads out of its own numbering, if and only if the abandoned call had recorded it in a slot that the
   * search still reaches; any block that it had recorded, if the table had not grown. It finds no end if and only if
   * the first slots of the table are all taken, by other blocks.
   */
  method NextCall(x: Externer, a: int) returns (r: Answer)
    requires x.table.Valid() && !x.table.Idle()
    modifies x, x.table
    ensures var t, init := FirstSlots(old(x.table.table)), old(x.table.initialOfs);
            (r.Seen? <==> HasSlot(t, init, a)) && (r.Endless? <==> Full(t, init, a))
    ensures r.Seen? ==> a in old(x.table.m) && r == Seen((0 - old(x.table.m)[a]) % WORD) && x.table.objCounter == 0
    ensures old(x.table.log2) == INITIAL_SIZE_LOG2 ==> (r.Seen? <==> a in old(x.table.m))
  {
    hide Stands, Pow2, Hash, LiveSet, HasSlot, Meets, Full;
    ghost var t, init, k, m := x.table.table, x.table.initialOfs, x.table.log2, x.table.m;
    StaleMeets(t, init, k, m, a);
    PowPositive(INITIAL_SIZE_LOG2);
    x.table.Begin();
    r := x.table.Record(a);
  }

  /** A table with fewer than 1024 objects has not grown. */
  lemma SmallTable(t: ObjectTable)
    requires t.Valid() && |t.m| < 1024
    ensures t.log2 == INITIAL_SIZE_LOG2
  {
    hide Stands;
    assert Pow2(INITIAL_SIZE_LOG2) == 2048;
  }

  /** An abandoned call, and then one on the same value: it writes a reference, which no reader can follow. */
  method ReachStale() returns (first: Ending, second: Answer)
    ensures first == Failure && second == Seen(0)
    ensures forall base :: Intern([], SharedBytes(0), IState([], base, map[])).Error?
  {
    hide Stands, Pow2, HasSlot, Full, Older;
    var x := new Externer();
    var env := Env(map[4 := NoSerializer], map[], false, []);
    assert Extern(env, Ptr(4), MarshalRound.Start(env)) == Fail(true);
    first := x.ExternValue(env, Ptr(4));
    SmallTable(x.table);
    assert 4 in x.table.m;
    second := NextCall(x, 4);
  }

  function JoinedVals(vals: seq<Val>, r: IResults): IResults {
    if r.Errors? then Errors else BuiltAll(vals + r.vals, r.rest, r.st)
  }

  lemma JoinNone(r: IResults)
    ensures JoinedVals([], r) == r
  {
    if r.BuiltAll? { assert [] + r.vals == r.vals; }
  }

  lemma FieldsDone(checksum: seq<byte>, src: seq<byte>, st: IState)
    ensures InternFields(checksum, 0, src, st) == BuiltAll([], src, st)
  {
  }

  lemma FieldsNext(checksum: seq<byte>, n: nat, src: seq<byte>, st: IState, vals: seq<Val>)
    requires n > 0
    ensures var r := Intern(checksum, src, st);
            JoinedVals(vals, InternFields(checksum, n, src, st)) ==
            if r.Error? then Errors else JoinedVals(vals + [r.v], InternFields(checksum, n - 1, r.rest, r.st))
  {
    var r := Intern(checksum, src, st);
    if r.Built? {
      var q := InternFields(checksum, n - 1, r.rest, r.st);
      if q.BuiltAll? { assert vals + ([r.v] + q.vals) == vals + [r.v] + q.vals; }
    }
  }

  predicate Suffix(r: seq<byte>, s: seq<byte>) { |r| <= |s| && s[|s| - |r|..] == r }

  lemma DropSuffix(s: seq<byte>, k: nat, r: seq<byte>)
    requires k <= |s| && Suffix(r, s[k..])
    ensures Suffix(r, s)
  {
    assert s[k..][|s| - k - |r|..] == s[|s| - |r|..];
  }

  lemma RawSuffix(src: seq<byte>)
    ensures ParseRaw(src).Parsed? ==> Suffix(ParseRaw(src).rest, src)
  {
    if ParseStringLength(src).Parsed? {
      var p := ParseStringLength(src);
      assert exists k :: 0 <= k <= |src| && p.rest == src[k..] by {
        assert p.rest == src[1..] || (|src| > 1 && p.rest == src[2..]) || p.rest == src[5..];
      }
      var k :| 0 <= k <= |src| && p.rest == src[k..];
      if 0 <= p.value <= |p.rest| { assert p.rest[p.value..] == src[k + p.value..]; }
    } else if ParseLength(CODE_DOUBLE_ARRAY8, CODE_DOUBLE_ARRAY32, src).Parsed? {
      var p := ParseLength(CODE_DOUBLE_ARRAY8, CODE_DOUBLE_ARRAY32, src);
      var k := if src[0] == CODE_DOUBLE_ARRAY8 then 2 else 5;
      assert p.rest == src[k..];
      if 0 <= p.value && 8 * p.value <= |p.rest| { assert p.rest[8 * p.value..] == src[k + 8 * p.value..]; }
    } else if |src| > 0 && src[0] == CODE_CUSTOM && ParseNumber(src[1..]).Parsed? {
      NumberSuffix(src[1..]);
      DropSuffix(src, 1, ParseNumber(src[1..]).rest);
    }
  }

  lemma NumberSuffix(src: seq<byte>)
    requires ParseNumber(src).Parsed?
    ensures Suffix(ParseNumber(src).rest, src)
  {
  }

  lemma ItemSuffix(checksum: seq<byte>, src: seq<byte>)
    ensures ParseItem(checksum, src).Parsed? ==> Suffix(ParseItem(checksum, src).rest, src)
  {
    hide ParseRaw, Read32U, Read16U, Read16S, Read32S;
    RawSuffix(src);
  }

  /** What an item leaves is the end of the input. */
  lemma Advance(checksum: seq<byte>, input: seq<byte>, pos: nat)
    requires pos <= |input| && ParseItem(checksum, input[pos..]).Parsed?
    ensures var rest := ParseItem(checksum, input[pos..]).rest;
            |rest| < |input| - pos && input[|input| - |rest|..] == rest
  {
    hide ParseItem;
    ItemSuffix(checksum, input[pos..]);
    DropSuffix(input, pos, ParseItem(checksum, input[pos..]).rest);
  }

  function Joined(written: seq<byte>, r: EResult): EResult {
    if r.Fail? then r else Wrote(written + r.bytes, r.st)
  }

  lemma JoinNothing(r: EResult)
    ensures Joined([], r) == r
  {
    if r.Wrote? { assert [] + r.bytes == r.bytes; }
  }

  lemma FieldsFrom(env: Env, vals: seq<Val>, i: nat, st: EState, written: seq<byte>)
    requires i < |vals|
    ensures var r := Extern(env, vals[i], st);
            Joined(written, ExternFields(env, vals[i..], st)) ==
            if r.Fail? then r else Joined(written + r.bytes, ExternFields(env, vals[i + 1..], r.st))
  {
    assert vals[i..][0] == vals[i] && vals[i..][1..] == vals[i + 1..];
    var r := Extern(env, vals[i], st);
    if r.Wrote? {
      var q := ExternFields(env, vals[i + 1..], r.st);
      if q.Wrote? { assert written + (r.bytes + q.bytes) == written + r.bytes + q.bytes; }
    }
  }

  lemma Assoc(a: seq<byte>, b: seq<byte>, c: seq<byte>)
    ensures a + b + c == a + (b + c)
  {
  }

  lemma RefusedFails(env: Env, b: Block, st: EState)
    ensures b.Unsupported? ==> ExternBlock(env, b, st) == Fail(false)
    ensures b.NoSerializer? ==> ExternBlock(env, b, st) == Fail(true)
  {
  }

  lemma LeftNow(env: Env, st: EState, m: map<int, nat>, a: int, m1: map<int, nat>)
    requires MarshalRound.Tracked(env, st) && Numbered(m, st.seen) && a in env.h && env.h[a].NoSerializer? &&
             m1 == m[a := |m|]
    requires a !in m
    ensures Left(env, m1)
  {
    assert a in m1;
    MarshalRound.SeenBound(env.h, st.seen + [a]);
  }

  lemma InfixRank(env: Env, a: int, ofs: nat)
    ensures RankOf(env, Ptr(a)) < RankOf(env, Infix(a, ofs))
  {
  }

  lemma RunnableAt(env: Env, a: int)
    requires Runnable(env) && a in env.h
    ensures env.h[a].Forward? ==> RankOf(env, env.h[a].v) < RankOf(env, Ptr(a))
    ensures env.h[a].Fields? ==> env.h[a].tag < 256
  {
  }

  lemma RoomLeft(env: Env, st: EState, m: map<int, nat>)
    requires Runnable(env) && MarshalRound.Tracked(env, st) && Numbered(m, st.seen)
    ensures |m| < MAX_OBJECTS
  {
    MarshalRound.SeenBound(env.h, st.seen);
  }

  lemma SeenBefore(env: Env, st: EState, m: map<int, nat>, a: int)
    requires MarshalRound.Tracked(env, st) && Numbered(m, st.seen) && a in env.h && |m| < MAX_OBJECTS
    ensures a in st.left <==> a !in m
    ensures a in m ==> (|m| - m[a]) % WORD == |st.seen| - IndexOf(st.seen, a)
  {
  }

  lemma RecordNew(env: Env, st: EState, m: map<int, nat>, a: int, st1: EState, m1: map<int, nat>)
    requires MarshalRound.Tracked(env, st) && Numbered(m, st.seen) && a in env.h && !env.h[a].Forward? &&
             !Refused(env.h[a]) && a !in m
    requires st1 == EState(st.seen + [a], st.left - {a}, st.size + Words(env.h[a])) && m1 == m[a := |m|]
    ensures MarshalRound.Tracked(env, st1) && Numbered(m1, st1.seen)
  {
    MarshalRound.TotalPrefix(env, st.seen, st1.seen, |st.seen|);
    MarshalRound.TrackMore(env, st, a, Words(env.h[a]));
    MarshalRound.IndexLast(st.seen, a);
    forall b | b in m1 ensures m1[b] == IndexOf(st1.seen, b) {
      if b != a { MarshalRound.IndexPrefix(st.seen, st1.seen, b); }
    }
  }

  lemma StartSync(env: Env, m: map<int, nat>)
    requires m == map[]
    ensures MarshalRound.Tracked(env, MarshalRound.Start(env)) && Numbered(m, MarshalRound.Start(env).seen) &&
            MarshalRound.Start(env).size == 0
  {
  }

  lemma NumberedSize(m: map<int, nat>, seen: seq<int>)
    requires Numbered(m, seen)
    ensures |m| == |seen|
  {
  }
}
