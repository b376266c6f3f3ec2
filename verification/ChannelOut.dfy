/** Buffered output: a channel that behaves like an unbuffered file cursor, except that it may mistake its position. */
module ChannelOut {
  import opened ChannelBuffer

  /** The file after `b` is written at `pos`; a gap is filled with zeros, and writing nothing changes nothing. */
  function WriteAt(file: seq<Byte>, pos: nat, b: seq<Byte>): seq<Byte> {
    if |b| == 0 then file
    else seq(WrittenLength(file, pos, b), i requires 0 <= i < WrittenLength(file, pos, b) => ByteAt(file, pos, b, i))
  }

  function WrittenLength(file: seq<Byte>, pos: nat, b: seq<Byte>): nat {
    if pos + |b| > |file| then pos + |b| else |file|
  }

  function ByteAt(file: seq<Byte>, pos: nat, b: seq<Byte>, i: nat): Byte {
    if pos <= i < pos + |b| then b[i - pos] else if i < |file| then file[i] else 0
  }

  lemma WriteAtIs(file: seq<Byte>, pos: nat, b: seq<Byte>, i: nat)
    requires |b| > 0
    ensures |WriteAt(file, pos, b)| == WrittenLength(file, pos, b)
    ensures i < WrittenLength(file, pos, b) ==> WriteAt(file, pos, b)[i] == ByteAt(file, pos, b, i)
  {
  }

  /** A write puts its bytes in their place, and keeps all the others. */
  lemma WriteKeeps(file: seq<Byte>, pos: nat, b: seq<Byte>)
    requires |b| > 0
    ensures var r := WriteAt(file, pos, b);
            && |r| == (if |file| >= pos + |b| then |file| else pos + |b|) && r[pos..pos + |b|] == b
            && forall i {:trigger r[i]} :: 0 <= i < |r| && !(pos <= i < pos + |b|) ==>
                 r[i] == if i < |file| then file[i] else 0
  {
  }

  /** Two writes in a row are one. */
  lemma WriteTwice(file: seq<Byte>, pos: nat, a: seq<Byte>, b: seq<Byte>)
    ensures WriteAt(WriteAt(file, pos, a), pos + |a|, b) == WriteAt(file, pos, a + b)
  {
    hide WriteAt, ByteAt;
    WriteNone(file, pos);
    if |a| == 0 {
      assert a == [] && a + b == b;
    } else if |b| == 0 {
      assert b == [] && a + b == a;
      WriteNone(WriteAt(file, pos, a), pos + |a|);
    } else {
      var f := WriteAt(file, pos, a);
      WriteAtIs(file, pos, a, 0);
      WriteAtIs(f, pos + |a|, b, 0);
      WriteAtIs(file, pos, a + b, 0);
      forall i: nat | i < WrittenLength(file, pos, a + b)
        ensures WriteAt(f, pos + |a|, b)[i] == WriteAt(file, pos, a + b)[i]
      {
        WriteAtIs(f, pos + |a|, b, i);
        WriteAtIs(file, pos, a + b, i);
        WriteAtIs(file, pos, a, i);
        BytesAgree(file, pos, a, b, f, i);
      }
    }
  }

  lemma WriteNone(file: seq<Byte>, pos: nat)
    ensures WriteAt(file, pos, []) == file
  {
  }

  lemma BytesAgree(file: seq<Byte>, pos: nat, a: seq<Byte>, b: seq<Byte>, f: seq<Byte>, i: nat)
    requires |f| == WrittenLength(file, pos, a) && (i < |f| ==> f[i] == ByteAt(file, pos, a, i))
    ensures ByteAt(f, pos + |a|, b, i) == ByteAt(file, pos, a + b, i)
  {
  }

  /** An unbuffered file: its contents and the position of the cursor. */
  datatype Cursor = Cursor(file: seq<Byte>, pos: nat)

  datatype Op = Put(b: seq<Byte>) | Flush | Seek(dest: nat)

  function RunCursor(c: Cursor, ops: seq<Op>): Cursor {
    if |ops| == 0 then c
    else
      var d := RunCursor(c, ops[..|ops| - 1]);
      match ops[|ops| - 1]
      case Put(b) => Cursor(WriteAt(d.file, d.pos, b), d.pos + |b|)
      case Flush => d
      case Seek(dest) => Cursor(d.file, dest)
  }

  predicate Seeks(ops: seq<Op>) { exists i :: 0 <= i < |ops| && ops[i].Seek? }

  class OutChannel {
    /** The file, and where the descriptor stands in it. */
    var file: seq<Byte>
    var fdPos: nat

    /** How many system calls have failed. */
    var failures: nat

    var offset: nat
    var curr: nat
    const buff: array<Byte>

    ghost predicate Valid()
      reads this
    {
      buff.Length == BUFFER_SIZE && curr <= BUFFER_SIZE && offset <= fdPos
    }

    /** Where an unbuffered cursor would stand. */
    ghost function Pos(): nat
      reads this
    {
      fdPos + curr
    }

    /** How far the descriptor is ahead of what the channel takes for its position. */
    ghost function Lead(): int
      reads this
    {
      fdPos - offset
    }

    /** The file as if nothing were buffered. */
    ghost function View(): seq<Byte>
      reads this, buff
      requires Valid()
    {
      WriteAt(file, fdPos, buff[..curr])
    }

    /** `open_descriptor_out` on a descriptor at `start`, which it takes for 0. */
    constructor (contents: seq<Byte>, start: nat)
      ensures Valid() && View() == contents && Pos() == start && Lead() == start && failures == 0 && fresh(buff)
    {
      file, fdPos, failures, offset, curr := contents, start, 0, 0, 0;
      buff := new Byte[BUFFER_SIZE];
    }

    /** `pos_out`: the place of the cursor, short of the lead. */
    method PosOut() returns (p: nat)
      requires Valid()
      ensures p == Pos() - Lead() && (p == Pos() <==> Lead() == 0)
    {
      p := offset + curr;
    }

    /** `do_write`: any number of the bytes, but at least one, is written; or none, with an error. */
    method DoWrite(n: nat) returns (written: int)
      requires Valid() && 0 < n <= BUFFER_SIZE
      modifies `file, `fdPos, `failures
      ensures failures == if written == -1 then old(failures) + 1 else old(failures)
      ensures written == -1 ==> file == old(file) && fdPos == old(fdPos)
      ensures written != -1 ==> 1 <= written <= n && fdPos == old(fdPos) + written
      ensures written != -1 ==> file == WriteAt(old(file), old(fdPos), buff[..written])
    {
      written := -1;
      if * {
        assert 1 <= n;
        written :| 1 <= written <= n;
        file := WriteAt(file, fdPos, buff[..written]);
        fdPos := fdPos + written;
      } else {
        failures := failures + 1;
      }
    }

    /** Takes what has been written off the buffer, which holds `n` bytes. */
    method Shift(written: nat, n: nat)
      requires buff.Length == BUFFER_SIZE && written <= n <= BUFFER_SIZE
      modifies buff
      ensures buff[..n - written] == old(buff[written..n])
    {
      ghost var before := buff[..];
      forall i | 0 <= i < n - written { buff[i] := buff[written + i]; }
      assert forall i :: 0 <= i < n - written ==> buff[i] == before[written + i];
    }

    /** `flush_partial` */
    method FlushPartial() returns (ok: bool, empty: bool)
      requires Valid()
      modifies this, buff
      ensures failures == if ok then old(failures) else old(failures) + 1
      ensures Valid() && View() == old(View()) && Pos() == old(Pos()) && Lead() == old(Lead())
      ensures curr <= old(curr) && (ok ==> empty == (curr == 0) && (old(curr) > 0 ==> curr < old(curr)))
    {
      hide WriteAt;
      ok := true;
      var towrite := curr;
      if towrite > 0 {
        var written := DoWrite(towrite);
        if written == -1 { return false, false; }
        WriteTwice(old(file), old(fdPos), buff[..written], buff[written..towrite]);
        assert buff[..written] + buff[written..towrite] == buff[..towrite];
        offset := offset + written;
        Shift(written, towrite);
        curr := curr - written;
      }
      empty := curr == 0;
    }

    /** `flush`: everything buffered is written, unless a write fails. */
    method Flush() returns (ok: bool)
      requires Valid()
      modifies this, buff
      ensures failures == if ok then old(failures) else old(failures) + 1
      ensures Valid() && View() == old(View()) && Pos() == old(Pos()) && Lead() == old(Lead())
      ensures ok ==> curr == 0 && file == old(View())
    {
      var empty := false;
      ok := true;
      while !empty
        invariant Valid() && View() == old(View()) && Pos() == old(Pos()) && Lead() == old(Lead())
        invariant (empty ==> curr == 0) && failures == old(failures) && ok
        decreases if empty then 0 else curr + 1
      {
        ok, empty := FlushPartial();
        if !ok { return; }
      }
    }

    /** `putblock`: takes some of the bytes; a full buffer takes none but is partly written. */
    method PutBlock(p: seq<Byte>) returns (ok: bool, n: nat)
      requires Valid()
      modifies this, buff
      ensures failures == if ok then old(failures) else old(failures) + 1
      ensures Valid() && n <= |p| && Lead() == old(Lead())
      ensures ok ==> View() == WriteAt(old(View()), old(Pos()), p[..n]) && Pos() == old(Pos()) + n
      ensures ok && n == 0 && |p| > 0 ==> curr < old(curr)
      ensures !ok ==> n == 0 && View() == old(View()) && Pos() == old(Pos()) && Lead() == old(Lead())
    {
      hide WriteAt;
      ok, n := true, if |p| >= INT_MAX then INT_MAX else |p|;
      var free := BUFFER_SIZE - curr;
      ghost var held := buff[..curr];
      ghost var at, was := fdPos, file;
      if n < free {
        Fill(p, n);
        curr := curr + n;
        WriteTwice(was, at, held, p[..n]);
      } else {
        n := free;
        Fill(p, free);
        ghost var full := buff[..BUFFER_SIZE];
        var written := DoWrite(BUFFER_SIZE);
        if written == -1 { return false, 0; }
        WriteTwice(was, at, held, p[..free]);
        WriteTwice(was, at, full[..written], full[written..]);
        assert full[..written] + full[written..] == full;
        assert full[..written] == buff[..written];
        Shift(written, BUFFER_SIZE);
        offset := offset + written;
        curr := BUFFER_SIZE - written;
        assert buff[..curr] == full[written..];
      }
    }

    /** Copies the first `n` bytes after those in the buffer. */
    method Fill(p: seq<Byte>, n: nat)
      requires Valid() && n <= |p| && curr + n <= BUFFER_SIZE
      modifies buff
      ensures buff[..curr + n] == old(buff[..curr]) + p[..n] && buff[..curr] == old(buff[..curr])
    {
      forall i | 0 <= i < n { buff[curr + i] := p[i]; }
    }

    /**
     * `really_putblock`: the bytes put are exactly the bytes given, written or buffered; or some of them, if a write
     * fails.
     */
    method ReallyPutBlock(p: seq<Byte>) returns (ok: bool, ghost done: nat)
      requires Valid()
      modifies this, buff
      ensures failures == if ok then old(failures) else old(failures) + 1
      ensures Valid() && done <= |p| && (ok ==> done == |p|) && Lead() == old(Lead())
      ensures View() == WriteAt(old(View()), old(Pos()), p[..done]) && Pos() == old(Pos()) + done
    {
      hide WriteAt;
      WriteNone(View(), Pos());
      assert p[..0] == [];
      var i := 0;
      done := 0;
      ok := true;
      while i < |p|
        invariant Valid() && i <= |p| && done == i && failures == old(failures) && ok && Lead() == old(Lead())
        invariant View() == WriteAt(old(View()), old(Pos()), p[..i]) && Pos() == old(Pos()) + i
        decreases |p| - i, curr
      {
        var n;
        ok, n := PutBlock(p[i..]);
        if !ok { return; }
        WriteTwice(old(View()), old(Pos()), p[..i], p[i..][..n]);
        assert p[..i] + p[i..][..n] == p[..i + n];
        i := i + n;
        done := i;
      }
      assert p[..i] == p;
    }

    /** `seek_out`: flushes, then moves the descriptor. */
    method SeekOut(dest: nat) returns (ok: bool)
      requires Valid()
      modifies this, buff
      ensures failures == if ok then old(failures) else old(failures) + 1
      ensures Valid() && View() == old(View())
      ensures ok ==> Pos() == dest && Lead() == 0 && file == old(View())
      ensures !ok ==> Pos() == old(Pos()) && Lead() == old(Lead())
    {
      ok := Flush();
      if !ok { return; }
      if * {
        failures := failures + 1;
        return false;
      }
      fdPos := dest;
      offset := dest;
    }

    /**
     * Any run of operations does what an unbuffered cursor does, wherever the descriptor was when the channel was
     * opened and whatever the writes accept each time. What the channel takes for its position is right once it has
     * moved the descriptor, and before that if and only if the descriptor was at the start of its file.
     */
    method Perform(ops: seq<Op>) returns (ok: bool)
      requires Valid()
      modifies this, buff
      ensures failures == if ok then old(failures) else old(failures) + 1
      ensures ok ==> Lead() == if Seeks(ops) then 0 else old(Lead())
      ensures Valid() && (ok ==> Cursor(View(), Pos()) == RunCursor(old(Cursor(View(), Pos())), ops))
    {
      hide WriteAt;
      ok := true;
      var i := 0;
      ghost var start := Cursor(View(), Pos());
      while i < |ops|
        invariant ok && failures == old(failures) && i <= |ops| && Lead() == if Seeks(ops[..i]) then 0 else old(Lead())
        invariant Valid() && Cursor(View(), Pos()) == RunCursor(start, ops[..i])
      {
        ghost var before := Cursor(View(), Pos());
        ghost var done;
        match ops[i] {
          case Put(b) => ok, done := ReallyPutBlock(b); assert ok ==> b[..done] == b;
          case Flush => ok := Flush();
          case Seek(dest) => ok := SeekOut(dest);
        }
        if !ok { return; }
        assert ops[..i + 1][..i] == ops[..i];
        assert Seeks(ops[..i + 1]) == (Seeks(ops[..i]) || ops[i].Seek?);
        i := i + 1;
      }
      assert ops[..i] == ops;
    }
  }
}
