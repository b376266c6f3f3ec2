/**
 * Buffered input: a channel that behaves like an unbuffered file cursor, if its descriptor was at the start of its file
 * when the channel was opened.
 */
module ChannelIn {
  import opened ChannelBuffer

  const NEWLINE: Byte := 10

  datatype Status = Done | EndOfFile | SysError

  function Least(a: int, b: int): int { if a <= b then a else b }

  /** The first `max` bytes of the buffer are those of the file before `end`. */
  ghost predicate Window(b: seq<Byte>, file: seq<Byte>, end: nat, max: nat) {
    max <= |b| && max <= end && (max > 0 ==> end <= |file| && b[..max] == file[end - max..end])
  }

  /** What a window on the file shows. */
  lemma WindowSlice(b: seq<Byte>, file: seq<Byte>, at: nat, max: nat, i: nat, j: nat)
    requires i <= j <= max <= |b| && at + max <= |file| && b[..max] == file[at..at + max]
    ensures b[i..j] == file[at + i..at + j]
  {
    forall k | i <= k < j
      ensures b[k] == file[at + k]
    {
      assert b[k] == b[..max][k] == file[at..at + max][k];
    }
    assert forall k :: 0 <= k < j - i ==> b[i..j][k] == b[i + k] && file[at + i..at + j][k] == file[at + (i + k)];
  }

  lemma Grown(b: seq<Byte>, b': seq<Byte>, file: seq<Byte>, max: nat, n: nat, end: nat)
    requires Window(b, file, end, max) && max + n <= |b'| && end + n <= |file| && n > 0
    requires b'[..max] == b[..max] && b'[max..max + n] == file[end..end + n]
    ensures Window(b', file, end + n, max + n)
  {
    assert b'[..max + n] == b'[..max] + b'[max..max + n];
    assert file[end - max..end + n] == file[end - max..end] + file[end..end + n];
  }

  ghost predicate NoNewline(file: seq<Byte>, i: nat, j: nat) {
    forall k {:trigger file[k]} :: i <= k < j && k < |file| ==> file[k] != NEWLINE
  }

  /**
   * The length of the line at `pos`, newline included, of which `n` bytes have been seen; or, negated, how many bytes
   * there are without a newline: as many as a buffer takes, or all up to the end of the file.
   */
  function LineLength(file: seq<Byte>, pos: nat, n: nat): int
    requires n <= BUFFER_SIZE
    decreases BUFFER_SIZE - n
  {
    if n == BUFFER_SIZE || pos + n >= |file| then 0 - n
    else if file[pos + n] == NEWLINE then n + 1
    else LineLength(file, pos, n + 1)
  }

  /** One step of the search. */
  lemma LineFrom(file: seq<Byte>, pos: nat, n: nat)
    requires n <= BUFFER_SIZE
    ensures n == BUFFER_SIZE || pos + n >= |file| ==> LineLength(file, pos, n) == 0 - n
    ensures n < BUFFER_SIZE && pos + n < |file| ==>
              LineLength(file, pos, n) == if file[pos + n] == NEWLINE then n + 1 else LineLength(file, pos, n + 1)
  {
  }

  /** What the length found says about the file. */
  lemma {:induction false} LineLengthIs(file: seq<Byte>, pos: nat, n: nat)
    requires n <= BUFFER_SIZE && NoNewline(file, pos, pos + n)
    ensures var r := LineLength(file, pos, n);
            if r > 0 then r <= BUFFER_SIZE && pos + r <= |file| && file[pos + r - 1] == NEWLINE &&
                          NoNewline(file, pos, pos + r - 1)
            else NoNewline(file, pos, pos - r) && (-r == BUFFER_SIZE || pos - r >= |file|)
    decreases BUFFER_SIZE - n
  {
    if n < BUFFER_SIZE && pos + n < |file| && file[pos + n] != NEWLINE {
      LineLengthIs(file, pos, n + 1);
    }
  }

  /** What a reader may ask for, and what it gets. */
  datatype Request = Read(len: nat) | Line | Seek(dest: nat) | Tell

  datatype Reply = Bytes(b: seq<Byte>) | Length(r: int) | Moved | At(pos: int)

  /** The next bytes of the file, `len` of them or all that are left. */
  function Ahead(file: seq<Byte>, pos: nat, len: nat): seq<Byte> {
    if pos >= |file| then [] else file[pos..Least(pos + len, |file|)]
  }

  /** What an unbuffered file with its cursor at `pos` replies, and where the cursor goes. */
  function Answer(file: seq<Byte>, pos: nat, q: Request): (Reply, nat) {
    match q
    case Read(len) => (Bytes(Ahead(file, pos, len)), pos + |Ahead(file, pos, len)|)
    case Line => (Length(LineLength(file, pos, 0)), pos)
    case Seek(dest) => (Moved, dest)
    case Tell => (At(pos), pos)
  }

  function Answers(file: seq<Byte>, pos: nat, qs: seq<Request>): (seq<Reply>, nat) {
    if |qs| == 0 then ([], pos)
    else
      var before := Answers(file, pos, qs[..|qs| - 1]);
      var last := Answer(file, before.1, qs[|qs| - 1]);
      (before.0 + [last.0], last.1)
  }

  /**
   * A cursor whose channel was opened elsewhere: where it stands, and how far that is ahead of what the channel takes.
   */
  datatype Place = Place(pos: nat, lead: nat)

  /** The same from such a place; `near` says whether a seek stays inside the buffer. */
  function LedAnswer(file: seq<Byte>, p: Place, q: Request, near: bool): (Reply, Place) {
    match q
    case Seek(dest) => (Moved, if near then Place(dest + p.lead, p.lead) else Place(dest, 0))
    case Tell => (At(p.pos - p.lead), p)
    case _ => var a := Answer(file, p.pos, q); (a.0, Place(a.1, p.lead))
  }

  /** `near` lists, for each request, whether it was a seek that stayed inside the buffer. */
  function LedAnswers(file: seq<Byte>, p: Place, qs: seq<Request>, near: seq<bool>): (seq<Reply>, Place)
    requires |near| == |qs|
  {
    if |qs| == 0 then ([], p)
    else
      var n := |qs| - 1;
      var before := LedAnswers(file, p, qs[..n], near[..n]);
      var last := LedAnswer(file, before.1, qs[n], near[n]);
      (before.0 + [last.0], last.1)
  }

  /** A seek stays inside the buffer only if it is not farther than a buffer is long, and if it does not move. */
  predicate Plausible(p: Place, q: Request, near: bool) {
    q.Seek? ==>
      && (near ==> p.pos - BUFFER_SIZE <= q.dest + p.lead <= p.pos + BUFFER_SIZE)
      && (q.dest + p.lead == p.pos ==> near)
  }

  ghost predicate AllPlausible(file: seq<Byte>, p: Place, qs: seq<Request>, near: seq<bool>)
    requires |near| == |qs|
  {
    forall i {:trigger qs[i]} :: 0 <= i < |qs| ==> Plausible(LedAnswers(file, p, qs[..i], near[..i]).1, qs[i], near[i])
  }

  /** Without a lead, the choices make no difference. */
  lemma {:induction false} NoLead(file: seq<Byte>, pos: nat, qs: seq<Request>, near: seq<bool>)
    requires |near| == |qs|
    ensures var a := Answers(file, pos, qs); LedAnswers(file, Place(pos, 0), qs, near) == (a.0, Place(a.1, 0))
    decreases |qs|
  {
    if |qs| > 0 { NoLead(file, pos, qs[..|qs| - 1], near[..|qs| - 1]); }
  }

  /** Nor do they when nothing is asked that depends on the number of the place. */
  lemma {:induction false} OnlyRelative(file: seq<Byte>, p: Place, qs: seq<Request>, near: seq<bool>)
    requires |near| == |qs| && Relative(qs)
    ensures var a := Answers(file, p.pos, qs); LedAnswers(file, p, qs, near) == (a.0, Place(a.1, p.lead))
    decreases |qs|
  {
    if |qs| > 0 { OnlyRelative(file, p, qs[..|qs| - 1], near[..|qs| - 1]); }
  }

  class InChannel {
    /** The file, and where the descriptor stands in it. */
    const file: seq<Byte>
    var fdPos: nat

    /** How many system calls have failed. */
    var failures: nat

    var offset: nat
    var curr: nat
    var max: nat
    const buff: array<Byte>

    /** The buffer holds the bytes of the file that end where the descriptor stands. */
    ghost predicate Valid()
      reads this, buff
    {
      && buff.Length == BUFFER_SIZE && curr <= max <= BUFFER_SIZE
      && max <= offset <= fdPos && Window(buff[..], file, fdPos, max)
    }

    /** Where an unbuffered cursor would stand. */
    ghost function Pos(): nat
      reads this
      requires curr <= max <= fdPos
    {
      fdPos - (max - curr)
    }

    /** How far the descriptor is ahead of what the channel takes for its position. */
    ghost function Lead(): int
      reads this
    {
      fdPos - offset
    }

    /** `open_descriptor_in` on a descriptor at `start`, which it takes for 0. */
    constructor (contents: seq<Byte>, start: nat)
      ensures Valid() && file == contents && Pos() == start && Lead() == start
      ensures max == 0 && failures == 0 && fresh(buff)
    {
      file := contents;
      fdPos, failures, offset, curr, max := start, 0, 0, 0, 0;
      buff := new Byte[BUFFER_SIZE];
    }

    /** `pos_in`: the place of the cursor, short of the lead. */
    method PosIn() returns (p: nat)
      requires Valid()
      ensures p == Pos() - Lead() && (p == Pos() <==> Lead() == 0)
    {
      p := offset - (max - curr);
    }

    /** `do_read`: any number of the next bytes, but at least one before the end of the file; or an error. */
    method DoRead(at: nat) returns (n: int)
      requires buff.Length == BUFFER_SIZE && at < BUFFER_SIZE
      modifies `fdPos, `failures, buff
      ensures failures == if n == -1 then old(failures) + 1 else old(failures)
      ensures -1 <= n <= BUFFER_SIZE - at && buff[..at] == old(buff[..at])
      ensures n <= 0 ==> fdPos == old(fdPos) && buff[..] == old(buff[..])
      ensures n == 0 ==> fdPos >= |file|
      ensures n > 0 ==> fdPos == old(fdPos) + n <= |file| && buff[at..at + n] == file[old(fdPos)..old(fdPos) + n]
    {
      n := -1;
      if * {
        failures := failures + 1;
      } else {
        n := 0;
        if fdPos < |file| {
          assert 1 <= BUFFER_SIZE - at && fdPos + 1 <= |file|;
          n :| 1 <= n <= BUFFER_SIZE - at && fdPos + n <= |file|;
          forall i | 0 <= i < n { buff[at + i] := file[fdPos + i]; }
          fdPos := fdPos + n;
        }
      }
    }

    /** Replaces the whole buffer by what one read gives. */
    method Reload() returns (n: int)
      requires Valid() && curr == max
      modifies this, buff
      ensures Valid() && -1 <= n <= BUFFER_SIZE && Lead() == old(Lead())
      ensures failures == if n == -1 then old(failures) + 1 else old(failures)
      ensures n == -1 ==> Pos() == old(Pos()) && max == old(max)
      ensures n == 0 ==> old(Pos()) >= |file| && Pos() == old(Pos()) && max == curr
      ensures n > 0 ==> Pos() == old(Pos()) && curr == 0 && max == n
    {
      n := DoRead(0);
      if n >= 0 {
        offset := offset + n;
        max := n;
        curr := 0;
      }
    }

    /** Copies the next `n` bytes out of the buffer. */
    method Take(n: nat) returns (p: seq<Byte>)
      requires Valid() && curr + n <= max
      modifies `curr
      ensures Valid() && |p| == n && Pos() == old(Pos()) + n && Lead() == old(Lead())
      ensures n > 0 ==> Pos() <= |file| && p == file[old(Pos())..Pos()]
    {
      p := buff[curr..curr + n];
      if n > 0 { WindowSlice(buff[..], file, fdPos - max, max, curr, curr + n); }
      curr := curr + n;
    }

    /** `getch`: the byte under the cursor; `refill` when the buffer is used up. */
    method GetChar() returns (s: Status, c: Byte)
      requires Valid()
      modifies this, buff
      ensures Valid() && Lead() == old(Lead())
      ensures s.Done? ==> old(Pos()) < |file| && c == file[old(Pos())] && Pos() == old(Pos()) + 1
      ensures s.Done? ==> offset - max == old(if curr < max then offset - max else offset)
      ensures !s.Done? ==> Pos() == old(Pos())
      ensures failures == if s.SysError? then old(failures) + 1 else old(failures)
      ensures s.EndOfFile? ==> Pos() >= |file|
    {
      c := 0;
      if curr >= max {
        var n := DoRead(0);
        if n == -1 { return SysError, c; }
        if n == 0 { return EndOfFile, c; }
        offset := offset + n;
        max := n;
        curr := 0;
      }
      s := Done;
      var p := Take(1);
      c := p[0];
    }

    /** `getblock`: at least one byte unless none is asked for or the file is at its end. */
    method GetBlock(len: nat) returns (ok: bool, p: seq<Byte>)
      requires Valid()
      modifies this, buff
      ensures failures == if ok then old(failures) else old(failures) + 1
      ensures Valid() && |p| <= len && Pos() == old(Pos()) + |p| && Lead() == old(Lead())
      ensures |p| > 0 ==> Pos() <= |file| && p == file[old(Pos())..Pos()]
      ensures ok && len > 0 && |p| == 0 ==> Pos() >= |file|
      ensures !ok ==> p == []
    {
      ok := true;
      var n := Least(len, INT_MAX);
      var avail := max - curr;
      if n > avail {
        if avail > 0 {
          n := avail;
        } else {
          var nread := Reload();
          if nread == -1 { return false, []; }
          n := Least(n, nread);
        }
      }
      p := Take(n);
    }

    /** `really_getblock`: exactly the bytes asked for, or all that are left. */
    method ReallyGetBlock(len: nat) returns (ok: bool, full: bool, p: seq<Byte>)
      requires Valid()
      modifies this, buff
      ensures failures == if ok then old(failures) else old(failures) + 1
      ensures Valid() && |p| <= len && Pos() == old(Pos()) + |p| && Lead() == old(Lead())
      ensures |p| > 0 ==> Pos() <= |file| && p == file[old(Pos())..Pos()]
      ensures ok ==> full == (|p| == len)
      ensures ok && !full ==> Pos() >= |file|
    {
      p := [];
      var n: nat := len;
      while n > 0
        invariant failures == old(failures)
        invariant Valid() && n == len - |p| && n <= len && Pos() == old(Pos()) + |p| && Lead() == old(Lead())
        invariant |p| > 0 ==> Pos() <= |file| && p == file[old(Pos())..Pos()]
        decreases n
      {
        var r;
        ok, r := GetBlock(n);
        if !ok { return false, false, p; }
        if r == [] { break; }
        assert file[old(Pos())..Pos()] == file[old(Pos())..Pos() - |r|] + file[Pos() - |r|..Pos()];
        p := p + r;
        n := n - |r|;
      }
      ok, full := true, n == 0;
    }

    /** The buffer holds the byte at `dest`, as far as the channel can tell. */
    ghost predicate Near(dest: nat)
      reads this
    {
      offset - max <= dest <= offset
    }

    /**
     * `seek_in`: inside the buffer when it can, by moving the descriptor otherwise. The first misses the place by the
     * lead; the second ends the lead.
     */
    method SeekIn(dest: nat) returns (ok: bool)
      requires Valid()
      modifies this
      ensures failures == if ok then old(failures) else old(failures) + 1
      ensures Valid() && Lead() == if ok && !old(Near(dest)) then 0 else old(Lead())
      ensures Pos() == if ok then dest + Lead() else old(Pos())
      ensures ok ==> (Pos() == dest <==> old(Lead() == 0 || !Near(dest)))
    {
      if offset - max <= dest <= offset {
        curr := max - (offset - dest);
      } else {
        if * {
          failures := failures + 1;
          return false;
        }
        fdPos := dest;
        offset := dest;
        curr, max := 0, 0;
      }
      ok := true;
    }

    /** Moves the unread bytes to the beginning of the buffer. */
    method Shift()
      requires Valid()
      modifies this, buff
      ensures failures == old(failures)
      ensures Valid() && Pos() == old(Pos()) && offset == old(offset) && fdPos == old(fdPos)
      ensures curr == 0 && max == old(max - curr)
    {
      ghost var before := buff[..];
      if max > 0 { WindowSlice(before, file, fdPos - max, max, curr, max); }
      forall i | 0 <= i < max - curr { buff[i] := buff[curr + i]; }
      assert forall i :: 0 <= i < max - curr ==> buff[i] == before[curr + i];
      assert buff[..max - curr] == before[curr..max];
      max := max - curr;
      curr := 0;
    }

    /** Reads after the bytes in the buffer. */
    method Extend() returns (n: int)
      requires Valid() && max < BUFFER_SIZE
      modifies this, buff
      ensures failures == if n == -1 then old(failures) + 1 else old(failures)
      ensures Valid() && curr == old(curr) && Pos() == old(Pos()) && -1 <= n && Lead() == old(Lead())
      ensures n == 0 ==> fdPos >= |file|
      ensures max == (if n > 0 then old(max) + n else old(max)) && fdPos - max == old(fdPos - max)
    {
      hide Window;
      n := DoRead(max);
      assert buff[..max] == old(buff[..])[..max];
      if n > 0 {
        Grown(old(buff[..]), buff[..], file, max, n, old(fdPos));
        offset := offset + n;
        max := max + n;
      }
    }

    /**
     * Makes room by shifting the unread bytes, then reads some more; none if the buffer is full or the file at its end.
     */
    method More() returns (ok: bool, n: nat)
      requires Valid()
      modifies this, buff
      ensures failures == if ok then old(failures) else old(failures) + 1
      ensures Valid() && Pos() == old(Pos()) && n <= max && max - n - curr == old(max - curr) && Lead() == old(Lead())
      ensures fdPos - n == old(fdPos)
      ensures ok && n == 0 ==> max - curr == BUFFER_SIZE || fdPos >= |file|
    {
      hide Window;
      ok, n := true, 0;
      if curr > 0 { Shift(); }
      if max >= BUFFER_SIZE { return; }
      var k := Extend();
      if k == -1 { return false, 0; }
      n := k;
    }

    /** `input_scan_line`; the cursor stays. */
    method ScanLine() returns (ok: bool, r: int)
      requires Valid()
      modifies this, buff
      ensures failures == if ok then old(failures) else old(failures) + 1
      ensures Valid() && Pos() == old(Pos()) && Lead() == old(Lead())
      ensures ok ==> r == LineLength(file, Pos(), 0)
      ensures ok ==> (if r > 0 then r else -r) <= max - curr
    {
      hide LineLength, Window;
      ok := true;
      var p := curr;
      while true
        invariant Valid() && Pos() == old(Pos()) && Lead() == old(Lead()) && curr <= p <= max
        invariant LineLength(file, Pos(), 0) == LineLength(file, Pos(), p - curr) && ok && failures == old(failures)
        decreases |file| - (fdPos - max + p)
      {
        LineFrom(file, Pos(), p - curr);
        if p >= max {
          var more;
          ok, more := More();
          if !ok { return ok, 0; }
          p := max - more;
          if more == 0 { return ok, -(max - curr); }
        }
        ByteInFile(p);
        p := p + 1;
        if buff[p - 1] == NEWLINE { break; }
      }
      r := p - curr;
    }

    /** A byte in the buffer is in the file. */
    lemma ByteInFile(p: nat)
      requires Valid() && p < max
      ensures fdPos - max + p < |file| && buff[p] == file[fdPos - max + p]
    {
      assert buff[p] == buff[..max][p];
    }

    ghost function Here(): Place
      reads this
      requires curr <= max <= offset <= fdPos
    {
      Place(Pos(), Lead())
    }

    /** One request, answered from the buffer. */
    method Handle(q: Request) returns (ok: bool, r: Reply, ghost near: bool)
      requires Valid()
      modifies this, buff
      ensures failures == if ok then old(failures) else old(failures) + 1
      ensures Valid() && near == (q.Seek? && old(Near(q.dest))) && Plausible(old(Here()), q, near)
      ensures ok ==> (r, Here()) == LedAnswer(file, old(Here()), q, near)
    {
      hide Window, LineLength;
      r := Moved;
      near := q.Seek? && Near(q.dest);
      match q {
        case Read(len) =>
          var full, p;
          ok, full, p := ReallyGetBlock(len);
          r := Bytes(p);
          if ok { AheadIs(file, old(Pos()), len, p); }
        case Line =>
          var n;
          ok, n := ScanLine();
          r := Length(n);
        case Seek(dest) =>
          ok := SeekIn(dest);
        case Tell =>
          var p := PosIn();
          ok, r := true, At(p);
      }
    }

    /**
     * Any run of requests gets the replies of an unbuffered cursor, whatever the reads return each time, if the
     * channel's position was right to begin with or is never asked for or used. Otherwise each seek misses its place by
     * the lead if it stays inside the buffer, which `near` tells, and the first that does not sets the position right.
     */
    method Perform(qs: seq<Request>) returns (ok: bool, rs: seq<Reply>, ghost near: seq<bool>)
      requires Valid()
      modifies this, buff
      ensures failures == if ok then old(failures) else old(failures) + 1
      ensures Valid()
      ensures ok ==> |near| == |qs| && AllPlausible(file, old(Here()), qs, near)
      ensures ok ==> (rs, Here()) == LedAnswers(file, old(Here()), qs, near)
      ensures ok && (old(Lead()) == 0 || Relative(qs)) ==> (rs, Pos()) == Answers(file, old(Pos()), qs)
    {
      hide Window, LineLength, Plausible, LedAnswer, Answer, Relative;
      ok, rs, near := true, [], [];
      ghost var start := Here();
      var i := 0;
      while i < |qs|
        invariant 0 <= i == |near| <= |qs| && Valid() && ok && failures == old(failures)
        invariant (rs, Here()) == LedAnswers(file, start, qs[..i], near)
        invariant AllPlausible(file, start, qs[..i], near)
      {
        var r;
        ghost var here, n := Here(), false;
        ok, r, n := Handle(qs[i]);
        if !ok { return; }
        OneMore(file, start, qs[..i], near, qs[i], n);
        assert qs[..i + 1] == qs[..i] + [qs[i]];
        rs, near := rs + [r], near + [n];
        i := i + 1;
      }
      assert qs[..i] == qs;
      if start.lead == 0 { NoLead(file, start.pos, qs, near); }
      if Relative(qs) { OnlyRelative(file, start, qs, near); }
    }
  }

  lemma OneMore(file: seq<Byte>, p: Place, qs: seq<Request>, near: seq<bool>, q: Request, n: bool)
    requires |near| == |qs| && AllPlausible(file, p, qs, near) && Plausible(LedAnswers(file, p, qs, near).1, q, n)
    ensures AllPlausible(file, p, qs + [q], near + [n])
    ensures var before := LedAnswers(file, p, qs, near);
            var last := LedAnswer(file, before.1, q, n);
            LedAnswers(file, p, qs + [q], near + [n]) == (before.0 + [last.0], last.1)
  {
    hide Plausible, LedAnswer;
    var k := |qs|;
    assert (qs + [q])[..k] == qs && (near + [n])[..k] == near;
    forall i {:trigger (qs + [q])[i]} | 0 <= i < k + 1
      ensures Plausible(LedAnswers(file, p, (qs + [q])[..i], (near + [n])[..i]).1, (qs + [q])[i], (near + [n])[i])
    {
      assert (qs + [q])[..i] == qs[..i] && (near + [n])[..i] == near[..i];
      if i < k { assert (qs + [q])[i] == qs[i]; }
    }
  }

  /** Requests that depend on where the cursor is, but not on the number of that place. */
  predicate Relative(qs: seq<Request>) { forall i :: 0 <= i < |qs| ==> qs[i].Read? || qs[i].Line? }

  lemma AheadIs(file: seq<Byte>, pos: nat, len: nat, p: seq<Byte>)
    requires |p| <= len && (|p| > 0 ==> pos + |p| <= |file| && p == file[pos..pos + |p|])
    requires |p| == len || pos + |p| >= |file|
    ensures p == Ahead(file, pos, len)
  {
  }

  /**
   * A channel opened on a descriptor at `start`, before the end of the file, reads a byte and seeks to 0. It lands at
   * `start`, which is 0 only if the descriptor was at the start of its file.
   */
  method ReachMisplaced(contents: seq<Byte>, start: nat) returns (ok: bool, c: InChannel)
    requires start < |contents|
    ensures c.Valid() && c.file == contents && (ok <==> c.failures == 0)
    ensures ok ==> c.Pos() == start && (c.Pos() == 0 <==> start == 0)
  {
    c := new InChannel(contents, start);
    var s, _ := c.GetChar();
    ok := s.Done?;
    if ok { ok := c.SeekIn(0); }
  }
}
