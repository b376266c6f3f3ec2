/** The lexer engine: a table-driven automaton reading through a buffer that is refilled on demand. */
module Lexing {
  /** Tables indexed by state, and by state base plus symbol. */
  datatype Tables = Tables(base: seq<int>, backtrk: seq<int>, deflt: seq<int>, trans: seq<int>, check: seq<int>)

  const EOF := 256

  predicate IsState(t: Tables, s: int) { 0 <= s < |t.base| }

  /** Tables as the generator emits them: every lookup the engine makes is in range. */
  ghost predicate Sound(t: Tables) {
    && |t.backtrk| == |t.base| && |t.deflt| == |t.base| && |t.trans| == |t.check|
    && (forall s {:trigger t.base[s]} :: 0 <= s < |t.base| && t.base[s] >= 0 ==> t.base[s] + EOF < |t.check|)
    && (forall s {:trigger t.deflt[s]} :: 0 <= s < |t.base| ==> t.deflt[s] < |t.base|)
    && (forall i {:trigger t.trans[i]} :: 0 <= i < |t.trans| ==> t.trans[i] < |t.base|)
  }

  // ---- The automaton on the whole input -----------------------------------------------------------------------------

  /** The input, followed by end-of-file symbols without end. */
  function Symbol(input: seq<int>, i: nat): int { if i < |input| then input[i] else EOF }

  ghost predicate Bytes(input: seq<int>) { forall i {:trigger input[i]} :: 0 <= i < |input| ==> 0 <= input[i] < EOF }

  function Next(t: Tables, s: int, c: int): int
    requires Sound(t) && IsState(t, s) && t.base[s] >= 0 && 0 <= c <= EOF
  {
    if t.check[t.base[s] + c] == s then t.trans[t.base[s] + c] else t.deflt[s]
  }

  /** Whether the automaton has no move: it is dead, or its state is final. */
  predicate Halted(t: Tables, s: int) { !IsState(t, s) || t.base[s] < 0 }

  /** What the automaton recognises in state `s`, if not negative. */
  function ActionOf(t: Tables, s: int): int
    requires |t.backtrk| == |t.base|
  {
    if !IsState(t, s) then -1 else if t.base[s] < 0 then -t.base[s] - 1 else t.backtrk[s]
  }

  /** The state after `k` symbols from `start`, or -1 once there is none. */
  function StateAfter(t: Tables, input: seq<int>, s: int, start: nat, k: nat): int
    requires Sound(t) && Bytes(input)
  {
    if k == 0 then s
    else
      var p := StateAfter(t, input, s, start, k - 1);
      if Halted(t, p) then -1 else Next(t, p, Symbol(input, start + k - 1))
  }

  /** The position after `k` symbols: end-of-file symbols take no room. */
  function PosAfter(input: seq<int>, start: nat, k: nat): nat {
    if start + k <= |input| then start + k else if start <= |input| then |input| else start
  }

  /** The longest prefix that the automaton recognises has `m` symbols. */
  ghost predicate LongestAt(t: Tables, input: seq<int>, s: int, start: nat, m: nat)
    requires Sound(t) && Bytes(input)
  {
    && ActionOf(t, StateAfter(t, input, s, start, m)) >= 0
    && forall k: nat {:trigger StateAfter(t, input, s, start, k)} :: k > m ==>
       ActionOf(t, StateAfter(t, input, s, start, k)) < 0
  }

  ghost predicate NoMatch(t: Tables, input: seq<int>, s: int, start: nat)
    requires Sound(t) && Bytes(input)
  {
    forall k: nat {:trigger StateAfter(t, input, s, start, k)} :: ActionOf(t, StateAfter(t, input, s, start, k)) < 0
  }

  /** The symbol at the position after `j` symbols is the next one. */
  lemma SymbolAt(input: seq<int>, start: nat, j: nat)
    requires start <= |input|
    ensures Symbol(input, PosAfter(input, start, j)) == Symbol(input, start + j)
    ensures PosAfter(input, start, j + 1) == PosAfter(input, start, j) +
            (if PosAfter(input, start, j) < |input| then 1 else 0)
  {
  }

  /** Once halted, dead for ever. */
  lemma {:induction false} DeadAfter(t: Tables, input: seq<int>, s: int, start: nat, j: nat, k: nat)
    requires Sound(t) && Bytes(input) && Halted(t, StateAfter(t, input, s, start, j)) && j < k
    ensures !IsState(t, StateAfter(t, input, s, start, k)) && Halted(t, StateAfter(t, input, s, start, k))
    decreases k
  {
    if j + 1 < k { DeadAfter(t, input, s, start, j, k - 1); }
  }

  /** An automaton that still moves after `j` symbols stops later. */
  lemma StopsLater(t: Tables, input: seq<int>, s: int, start: nat, j: nat, stop: nat)
    requires Sound(t) && Bytes(input) && Halted(t, StateAfter(t, input, s, start, stop)) &&
             !Halted(t, StateAfter(t, input, s, start, j))
    ensures j < stop
  {
    hide StateAfter;
    if stop < j { DeadAfter(t, input, s, start, stop, j); }
  }

  // ---- What the engine remembers ------------------------------------------------------------------------------------

  /** The last match among the first `k` states, or -1. */
  function LastMatch(t: Tables, input: seq<int>, s: int, start: nat, k: nat): (m: int)
    requires Sound(t) && Bytes(input)
    ensures -1 <= m < k
  {
    if k == 0 then -1
    else if ActionOf(t, StateAfter(t, input, s, start, k - 1)) >= 0 then k - 1
    else LastMatch(t, input, s, start, k - 1)
  }

  lemma {:induction false} LastMatchIs(t: Tables, input: seq<int>, s: int, start: nat, k: nat, i: nat)
    requires Sound(t) && Bytes(input)
    ensures var m := LastMatch(t, input, s, start, k);
            && (m >= 0 ==> ActionOf(t, StateAfter(t, input, s, start, m)) >= 0)
            && (m < i < k ==> ActionOf(t, StateAfter(t, input, s, start, i)) < 0)
  {
    if k > 0 { LastMatchIs(t, input, s, start, k - 1, i); }
  }

  /** When the automaton dies after `j` symbols, the last match so far is the longest. */
  lemma LastIsLongest(t: Tables, input: seq<int>, s: int, start: nat, j: nat)
    requires Sound(t) && Bytes(input) && !IsState(t, StateAfter(t, input, s, start, j))
    ensures LastMatch(t, input, s, start, j) >= 0 ==> LongestAt(t, input, s, start, LastMatch(t, input, s, start, j))
    ensures LastMatch(t, input, s, start, j) < 0 ==> NoMatch(t, input, s, start)
  {
    hide StateAfter, LastMatch;
    var m := LastMatch(t, input, s, start, j);
    LastMatchIs(t, input, s, start, j, 0);
    forall k: nat {:trigger StateAfter(t, input, s, start, k)} | k > m
      ensures ActionOf(t, StateAfter(t, input, s, start, k)) < 0
    {
      LastMatchIs(t, input, s, start, j, k);
      if k > j { DeadAfter(t, input, s, start, j, k); }
    }
  }

  /** A final state is the longest match. */
  lemma FinalIsLongest(t: Tables, input: seq<int>, s: int, start: nat, j: nat)
    requires Sound(t) && Bytes(input)
    requires var p := StateAfter(t, input, s, start, j); IsState(t, p) && t.base[p] < 0
    ensures LongestAt(t, input, s, start, j)
  {
    hide StateAfter;
    forall k: nat {:trigger StateAfter(t, input, s, start, k)} | k > j
      ensures ActionOf(t, StateAfter(t, input, s, start, k)) < 0
    {
      DeadAfter(t, input, s, start, j, k);
    }
  }

  // ---- The engine ---------------------------------------------------------------------------------------------------

  /** What `lex_engine` returns: an action, the state to come back with after a refill, or the failure. */
  datatype Result = Token(action: int) | NeedRefill(state: int) | EmptyToken

  lemma WindowTail(b: seq<int>, input: seq<int>, at: nat, i: nat, len: nat)
    requires i <= len <= |b| && at + len <= |input| && b[..len] == input[at..at + len]
    ensures b[i..len] == input[at + i..at + len]
  {
    assert b[i..len] == b[..len][i..];
  }

  class LexBuffer {
    const input: seq<int>
    var buffer: array<int>
    var len: nat
    var absPos: nat
    var startPos: nat
    var currPos: nat
    var lastPos: nat
    var lastAction: int
    var eofReached: bool

    /** The buffer is a window on the input that reaches back to the start of the token. */
    ghost predicate Valid()
      reads this, buffer
    {
      && startPos <= lastPos <= currPos <= len <= buffer.Length && buffer.Length >= 512
      && Bytes(input) && absPos + len <= |input| && buffer[..len] == input[absPos..absPos + len]
      && (eofReached ==> absPos + len == |input|)
    }

    /** `Lexing.from_function` */
    constructor (source: seq<int>)
      requires Bytes(source)
      ensures Valid() && input == source && absPos + currPos == 0 && fresh(buffer)
    {
      input := source;
      buffer := new int[1024];
      len, absPos, startPos, currPos, lastPos := 0, 0, 0, 0, 0;
      lastAction := 0;
      eofReached := false;
    }

    /** Ready to give a symbol without a refill. */
    ghost predicate Ready()
      reads this
    {
      currPos < len || eofReached
    }

    /** The last match among the first `k` states is remembered. */
    ghost predicate Remembers(t: Tables, s: int, start: nat, k: nat)
      reads `absPos, `startPos, `lastPos, `lastAction
      requires Sound(t) && Bytes(input)
    {
      var m := LastMatch(t, input, s, start, k);
      if m < 0 then lastAction == -1 && lastPos == startPos
      else lastAction == ActionOf(t, StateAfter(t, input, s, start, m)) && absPos + lastPos == PosAfter(input, start, m)
    }

    /** `j` symbols have been read from `start`, and the last match before them is remembered. */
    ghost predicate Reading(t: Tables, s: int, start: nat, j: nat, state: int)
      reads `absPos, `startPos, `currPos, `lastPos, `lastAction
      requires Sound(t) && Bytes(input)
    {
      && state == StateAfter(t, input, s, start, j) && start == absPos + startPos <= |input|
      && absPos + currPos == PosAfter(input, start, j)
      && (Remembers(t, s, start, j) || Remembers(t, s, start, j + 1))
    }

    /** A token is the longest match, of `m` symbols, and the buffer is after it; without one nothing matches. */
    ghost predicate Settled(t: Tables, s: int, start: nat, r: Result, m: nat)
      reads `absPos, `startPos, `currPos
      requires Sound(t) && Bytes(input)
    {
      && (r.Token? ==>
          LongestAt(t, input, s, start, m) && r.action == ActionOf(t, StateAfter(t, input, s, start, m)) &&
          absPos + currPos == PosAfter(input, start, m))
      && (r.EmptyToken? ==> NoMatch(t, input, s, start) && currPos == startPos)
    }

    /** A refill is asked for after `j` symbols. */
    ghost predicate Waiting(t: Tables, s: int, start: nat, r: Result, j: nat)
      reads this
      requires Sound(t) && Bytes(input)
    {
      r.NeedRefill? ==> IsState(t, r.state) && t.base[r.state] >= 0 && Reading(t, s, start, j, r.state) && !Ready()
    }

    lemma WaitingStops(t: Tables, s: int, start: nat, r: Result, j: nat, stop: nat)
      requires Sound(t) && Bytes(input) && Waiting(t, s, start, r, j) && r.NeedRefill? &&
               Halted(t, StateAfter(t, input, s, start, stop))
      ensures j < stop
    {
      StopsLater(t, input, s, start, j, stop);
    }

    lemma SettledAt(t: Tables, s: int, start: nat, r: Result, m: nat)
      requires Sound(t) && Bytes(input) && Settled(t, s, start, r, m) && r.Token?
      ensures absPos + currPos == PosAfter(input, start, m)
    {
    }

    /** Marks a backtrack point. */
    method Mark(t: Tables, state: int, ghost s: int, ghost start: nat, ghost j: nat)
      requires Valid() && Sound(t) && IsState(t, state) && t.base[state] >= 0 && Reading(t, s, start, j, state)
      modifies `lastPos, `lastAction
      ensures Valid() && Reading(t, s, start, j, state) && Remembers(t, s, start, j + 1)
    {
      hide StateAfter, PosAfter;
      if t.backtrk[state] >= 0 {
        lastPos := currPos;
        lastAction := t.backtrk[state];
      }
    }

    /** Reads one symbol, or nothing when a refill is needed. */
    method Read() returns (c: int)
      requires Valid()
      modifies `currPos
      ensures Valid() && -1 <= c <= EOF && (c == -1 <==> !old(Ready()))
      ensures c >= 0 ==> c == Symbol(input, absPos + old(currPos))
      ensures currPos == if 0 <= c < EOF then old(currPos) + 1 else old(currPos)
    {
      if currPos >= len {
        if !eofReached { return -1; }
        c := EOF;
      } else {
        assert buffer[currPos] == buffer[..len][currPos] == input[absPos + currPos];
        c := buffer[currPos];
        currPos := currPos + 1;
      }
    }

    /** Reads a symbol and moves; the state comes out negative where the automaton dies. */
    method Move(t: Tables, state: int, ghost s: int, ghost start: nat, ghost j: nat) returns (c: int, next: int)
      requires Valid() && Sound(t) && IsState(t, state) && t.base[state] >= 0 && Reading(t, s, start, j, state) &&
               Remembers(t, s, start, j + 1)
      modifies `currPos
      ensures Valid() && next < |t.base| && -1 <= c <= EOF && (c == -1 <==> !old(Ready()))
      ensures c == -1 ==> next == state && Reading(t, s, start, j, state)
      ensures c >= 0 ==> Reading(t, s, start, j + 1, next) && Remembers(t, s, start, j + 1)
      ensures currPos == if 0 <= c < EOF then old(currPos) + 1 else old(currPos)
      ensures c == EOF ==> eofReached
    {
      hide LastMatch;
      c := Read();
      next := state;
      if c >= 0 {
        var base := t.base[state];
        next := if t.check[base + c] == state then t.trans[base + c] else t.deflt[state];
        SymbolAt(input, start, j);
        assert next == StateAfter(t, input, s, start, j + 1);
      }
    }

    /** Goes back to the last match when the automaton is dead. */
    method Backtrack(t: Tables, state: int, ghost s: int, ghost start: nat, ghost j: nat)
      returns (r: Result, ghost m: nat)
      requires Valid() && Sound(t) && !IsState(t, state) && Reading(t, s, start, j, state) && Remembers(t, s, start, j)
      modifies `currPos
      ensures Valid() && !r.NeedRefill?
      ensures Settled(t, s, start, r, m)
    {
      hide StateAfter, LastMatch, PosAfter, NoMatch;
      currPos := lastPos;
      LastIsLongest(t, input, s, start, j);
      LastMatchIs(t, input, s, start, j, 0);
      m := 0;
      if lastAction == -1 { return EmptyToken, m; }
      m := LastMatch(t, input, s, start, j);
      r := Token(lastAction);
    }

    /** The loop of `lex_engine`, entered after `j0` symbols. */
    method Scan(t: Tables, state0: int, ghost s: int, ghost start: nat, ghost j0: nat) returns (r: Result, ghost j: nat)
      requires Valid() && Sound(t) && IsState(t, state0) && Reading(t, s, start, j0, state0)
      modifies `currPos, `lastPos, `lastAction, `eofReached
      ensures Valid()
      ensures Waiting(t, s, start, r, j)
      ensures r.NeedRefill? ==> j >= j0 && (old(Ready()) ==> j > j0)
      ensures Settled(t, s, start, r, j)
    {
      hide StateAfter, LastMatch, PosAfter, NoMatch, LongestAt, Remembers;
      var state := state0;
      j := j0;
      while true
        invariant Valid() && IsState(t, state) && j >= j0 && Reading(t, s, start, j, state)
        invariant j == j0 ==> Ready() == old(Ready())
        decreases len - currPos + if eofReached then 1 else 0
      {
        if t.base[state] < 0 {
          FinalIsLongest(t, input, s, start, j);
          return Token(-t.base[state] - 1), j;
        }
        Mark(t, state, s, start, j);
        var c;
        c, state := Move(t, state, s, start, j);
        if c < 0 { return NeedRefill(state), j; }
        j := j + 1;
        if state < 0 {
          r, j := Backtrack(t, state, s, start, j);
          return;
        } else if c == EOF {
          eofReached := false;
        }
      }
    }

    /** `lex_engine`: from a state that is not negative, or again after a refill. */
    method Engine(t: Tables, startState: int, ghost s: int, ghost start: nat, ghost j0: nat)
      returns (r: Result, ghost j: nat)
      requires Valid() && Sound(t)
      requires startState >= 0 ==> IsState(t, startState) && s == startState && j0 == 0 && start == absPos + currPos
      requires startState < 0 ==> IsState(t, -startState - 1) && Reading(t, s, start, j0, -startState - 1)
      modifies `startPos, `currPos, `lastPos, `lastAction, `eofReached
      ensures Valid() && start == absPos + startPos
      ensures Waiting(t, s, start, r, j)
      ensures r.NeedRefill? ==> j >= j0 && (old(Ready()) ==> j > j0)
      ensures Settled(t, s, start, r, j)
    {
      hide NoMatch, LongestAt;
      var state := startState;
      if state >= 0 {
        startPos := currPos;
        lastPos := startPos;
        lastAction := -1;
      } else {
        state := -state - 1;
      }
      r, j := Scan(t, state, s, start, j0);
    }

    // ---- Refilling -----------------------------------------------------------------------------------------------

    /** Copies the token to the beginning of the buffer or of a larger one. */
    method Keep(newLen: nat) returns (b: array<int>)
      requires Valid() && len - startPos <= newLen
      modifies buffer
      ensures b.Length == newLen && (fresh(b) || b == buffer) &&
              b[..len - startPos] == input[absPos + startPos..absPos + len]
    {
      hide Bytes;
      ghost var before := buffer[..];
      WindowTail(before, input, absPos, startPos, len);
      b := buffer;
      if newLen != buffer.Length { b := new int[newLen]; }
      forall i | 0 <= i < len - startPos { b[i] := buffer[startPos + i]; }
      assert forall i :: 0 <= i < len - startPos ==> b[i] == before[startPos + i];
      assert b[..len - startPos] == before[startPos..len];
    }

    /** Forgets what stands before the token. */
    method Slide(newLen: nat)
      requires Valid() && len - startPos <= newLen && newLen >= 512
      modifies this, buffer
      ensures buffer.Length == newLen && (fresh(buffer) || buffer == old(buffer))
      ensures Valid() && absPos == old(absPos + startPos) && startPos == 0 && len == old(len - startPos)
      ensures currPos == old(currPos - startPos) && lastPos == old(lastPos - startPos)
      ensures lastAction == old(lastAction) && eofReached == old(eofReached)
    {
      hide Bytes;
      buffer := Keep(newLen);
      absPos := absPos + startPos;
      currPos := currPos - startPos;
      lastPos := lastPos - startPos;
      len := len - startPos;
      startPos := 0;
    }

    /** Room for `n` more bytes: at the end, or where the junk before the token was, or in a larger buffer. */
    method MakeRoom(n: nat, maxLen: nat) returns (ok: bool)
      requires Valid() && n <= 512
      modifies this, buffer
      ensures fresh(buffer) || buffer == old(buffer)
      ensures ok ==>
              Valid() && len + n <= buffer.Length && absPos + len == old(absPos + len) &&
              absPos + startPos == old(absPos + startPos)
      ensures ok ==> absPos + currPos == old(absPos + currPos) && absPos + lastPos == old(absPos + lastPos)
      ensures lastAction == old(lastAction) && eofReached == old(eofReached)
      ensures !ok ==> len == old(len) && startPos == old(startPos) && len - startPos + n > maxLen
    {
      hide Bytes;
      ok := true;
      if len + n > buffer.Length {
        if len - startPos + n <= buffer.Length {
          Slide(buffer.Length);
        } else {
          var newLen := if 2 * buffer.Length <= maxLen then 2 * buffer.Length else maxLen;
          if len - startPos + n > newLen { return false; }
          Slide(newLen);
        }
      }
    }

    /** `lex_refill`: appends what one read gives, making room first; it fails only when the buffer cannot grow. */
    method Refill(maxLen: nat) returns (ok: bool)
      requires Valid() && !Ready()
      modifies this, buffer
      ensures fresh(buffer) || buffer == old(buffer)
      ensures ok ==> Valid() && Ready() && lastAction == old(lastAction) && absPos + startPos == old(absPos + startPos)
      ensures ok ==> absPos + currPos == old(absPos + currPos) && absPos + lastPos == old(absPos + lastPos)
      ensures !ok ==> startPos <= len && len - startPos + 512 > maxLen
    {
      var read: nat :| read <= 512 && absPos + len + read <= |input| && (read == 0 <==> absPos + len == |input|);
      if read == 0 { eofReached := true; }
      ok := MakeRoom(read, maxLen);
      if !ok { return; }
      Append(read);
    }

    /** Copies the bytes read after those in the buffer. */
    method Append(n: nat)
      requires Valid() && len + n <= buffer.Length && absPos + len + n <= |input|
      modifies `len, buffer
      ensures Valid() && len == old(len) + n
    {
      ghost var before := buffer[..len];
      forall i | 0 <= i < n { buffer[len + i] := input[absPos + len + i]; }
      len := len + n;
      assert buffer[..len] == before + input[absPos + old(len)..absPos + len];
    }

    /** A refill, and the engine again. */
    method Resume(t: Tables, state: int, ghost s: int, maxLen: nat, ghost start: nat, ghost j0: nat)
      returns (r: Result, failed: bool, ghost j: nat)
      requires Valid() && Sound(t) && Waiting(t, s, start, NeedRefill(state), j0)
      modifies this, buffer
      ensures fresh(buffer) || buffer == old(buffer)
      ensures !failed ==> Valid() && start == absPos + startPos && Settled(t, s, start, r, j)
      ensures failed ==> startPos <= len && len - startPos + 512 > maxLen
      ensures !failed ==> Waiting(t, s, start, r, j) && (r.NeedRefill? ==> j > j0)
    {
      hide NoMatch, LongestAt, StateAfter, PosAfter, LastMatch;
      r, failed, j := EmptyToken, true, 0;
      var ok := Refill(maxLen);
      if ok {
        failed := false;
        r, j := Engine(t, -state - 1, s, start, j0);
      }
    }

    /**
     * A generated lexer: calls the engine, refilling as often as it asks. However the input is split by the reads, the
     * token is the longest that the automaton recognises in the whole input, provided that the automaton stops. It
     * fails only when the text of the token and one more read do not fit the largest buffer.
     */
    method NextToken(t: Tables, s: int, maxLen: nat, ghost stop: nat) returns (r: Result, failed: bool, ghost m: nat)
      requires Valid() && Sound(t) && IsState(t, s) && Halted(t, StateAfter(t, input, s, absPos + currPos, stop))
      modifies this, buffer
      ensures fresh(buffer) || buffer == old(buffer)
      ensures !failed ==> Valid() && !r.NeedRefill? && absPos + startPos == old(absPos + currPos)
      ensures !failed ==> Settled(t, s, old(absPos + currPos), r, m)
      ensures failed ==> startPos <= len && len - startPos + 512 > maxLen
      ensures !failed && r.Token? ==>
              buffer[startPos..currPos] == input[old(absPos + currPos)..PosAfter(input, old(absPos + currPos), m)]
    {
      hide NoMatch, LongestAt, StateAfter, PosAfter, Settled, Waiting, Sound, Bytes;
      ghost var start := absPos + currPos;
      failed := false;
      r, m := Engine(t, s, s, start, 0);
      if r.NeedRefill? { WaitingStops(t, s, start, r, m, stop); }
      while r.NeedRefill?
        invariant fresh(buffer) || buffer == old(buffer)
        invariant Valid() && absPos + startPos == start
        invariant Waiting(t, s, start, r, m) && (r.NeedRefill? ==> m < stop)
        invariant Settled(t, s, start, r, m)
        decreases if r.NeedRefill? then stop + 1 - m else 0
      {
        r, failed, m := Resume(t, r.state, s, maxLen, start, m);
        if failed { return; }
        if r.NeedRefill? { WaitingStops(t, s, start, r, m, stop); }
      }
      Lexeme();
      if r.Token? { SettledAt(t, s, start, r, m); }
    }

    lemma Lexeme()
      requires Valid()
      ensures buffer[startPos..currPos] == input[absPos + startPos..absPos + currPos]
    {
      assert forall i :: startPos <= i < currPos ==> buffer[i] == buffer[..len][i] == input[absPos + i];
    }
  }
}
