/**
 * Function application in the bytecode machine. A function of several arguments starts with `GRAB`, preceded by
 * `RESTART`: given too few arguments it returns a closure that holds them, and that closure starts at `RESTART`.
 */
module Interp {
  datatype Value = Num(n: int) | Code(pc: int) | Clo(a: nat) | Other(id: int)

  /** The instructions of function application; any other may do anything to the machine. */
  datatype Instr =
    | PushRetaddr(ofs: int)
    | Apply(n: nat)
    | ApplyFramed(n: nat)
    | Appterm(n: nat, slots: nat)
    | Return(n: nat)
    | Restart
    | Grab(required: nat)
    | Ordinary(run: Machine -> Machine)

  /** A closure: its code pointer and its other fields. */
  datatype Closure = Closure(code: int, fields: seq<Value>)

  /** The registers, the stack with its top first, and the closures allocated. */
  datatype Machine = Machine(pc: int, stack: seq<Value>, accu: Value, env: Value, extra: int, heap: seq<Closure>)

  predicate IsClosure(m: Machine, v: Value) { v.Clo? && v.a < |m.heap| }

  function Get(s: seq<Value>, i: int): Value { if 0 <= i < |s| then s[i] else Num(0) }

  /** The stack without its first `n` words. */
  function Pop(s: seq<Value>, n: int): seq<Value> { if 0 <= n <= |s| then s[n..] else [] }

  /** Back to the caller, whose frame is on top of the stack. */
  function Leave(m: Machine): Machine {
    m.(pc := if Get(m.stack, 0).Code? then Get(m.stack, 0).pc else 0,
       env := Get(m.stack, 1),
       extra := if Get(m.stack, 2).Num? then Get(m.stack, 2).n else 0,
       stack := Pop(m.stack, 3))
  }

  function GrabStep(m: Machine, required: nat): Machine {
    if m.extra >= required then m.(pc := m.pc + 2, extra := m.extra - required)
    else
      var n := 1 + m.extra;
      var held := if 0 <= n <= |m.stack| then m.stack[..n] else [];
      Leave(m.(accu := Clo(|m.heap|), heap := m.heap + [Closure(m.pc - 1, [m.env] + held)], stack := Pop(m.stack, n)))
  }

  function RestartStep(m: Machine): Machine {
    if IsClosure(m, m.env) && |m.heap[m.env.a].fields| >= 1 then
      var f := m.heap[m.env.a].fields;
      m.(pc := m.pc + 1, stack := f[1..] + m.stack, env := f[0], extra := m.extra + |f| - 1)
    else m
  }

  function Enter(m: Machine, extra: int): Machine {
    if IsClosure(m, m.accu) then m.(pc := m.heap[m.accu.a].code, env := m.accu, extra := extra) else m
  }

  /** `APPLY1` to `APPLY3`: the return frame goes under the arguments, which are on the stack already. */
  function ApplyFramedStep(m: Machine, n: nat): Machine {
    var args := if n <= |m.stack| then m.stack[..n] else [];
    Enter(m.(stack := args + [Code(m.pc + 1), m.env, Num(m.extra)] + Pop(m.stack, n)), n - 1)
  }

  /** A tail call: the arguments replace the frame of the caller, which has `slots` words, them included. */
  function AppTermStep(m: Machine, n: nat, slots: nat): Machine {
    Enter(m.(stack := (if n <= |m.stack| then m.stack[..n] else []) + Pop(m.stack, slots)), m.extra + n - 1)
  }

  /** The frame goes; the result is applied to the arguments left, if there are any. */
  function ReturnStep(m: Machine, n: nat): Machine {
    if m.extra > 0 then Enter(m.(stack := Pop(m.stack, n)), m.extra - 1) else Leave(m.(stack := Pop(m.stack, n)))
  }

  function Step(code: map<int, Instr>, m: Machine): Machine {
    if m.pc !in code then m else
    match code[m.pc]
    case PushRetaddr(ofs) => m.(pc := m.pc + 2, stack := [Code(m.pc + 1 + ofs), m.env, Num(m.extra)] + m.stack)
    case Apply(n) => Enter(m, n - 1)
    case ApplyFramed(n) => ApplyFramedStep(m, n)
    case Appterm(n, slots) => AppTermStep(m, n, slots)
    case Return(n) => ReturnStep(m, n)
    case Restart => RestartStep(m)
    case Grab(required) => GrabStep(m, required)
    case Ordinary(run) => run(m)
  }

  function Steps(code: map<int, Instr>, m: Machine, k: nat): Machine
    decreases k
  {
    if k == 0 then m else Steps(code, Step(code, m), k - 1)
  }

  /** A function of `n + 1` arguments, entered at `g`. */
  predicate Function(code: map<int, Instr>, g: int, n: nat) {
    g in code && code[g] == Grab(n) && g - 1 in code && code[g - 1] == Restart
  }

  /** Closure `f` is `c`, or `c` applied to the arguments `held`. */
  predicate Stands(m: Machine, g: int, f: Value, c: Value, held: seq<Value>) {
    && IsClosure(m, f) && IsClosure(m, c) && m.heap[c.a].code == g
    && if held == [] then f == c else m.heap[f.a] == Closure(g - 1, [c] + held)
  }

  /** The stack of a caller with its return frame on top, before the arguments. */
  function Frame(m: Machine): seq<Value> { [Code(m.pc), m.env, Num(m.extra)] + m.stack }

  /** The caller `m` applies `f` to `args`: its return frame and the arguments are on the stack. */
  function Call(m: Machine, f: Value, args: seq<Value>): Machine {
    Enter(m.(stack := args + [Code(m.pc), m.env, Num(m.extra)] + m.stack, accu := f), |args| - 1)
  }

  /** The function's body is entered with these arguments on top of the stack, over the caller's frame. */
  predicate InBody(m0: Machine, m: Machine, g: int, n: nat, c: Value, args: seq<Value>) {
    && m.pc == g + 2 && m.env == c && m.extra == |args| - 1 - n
    && m.stack == args + [Code(m0.pc), m0.env, Num(m0.extra)] + m0.stack
  }

  /** The call has returned: the caller's registers and stack are as before. */
  predicate Returned(m0: Machine, m: Machine) {
    m.pc == m0.pc && m.env == m0.env && m.extra == m0.extra && m.stack == m0.stack && m0.heap <= m.heap
  }

  // ---- One application --------------------------------------------------------------------------------------

  /** The state in front of `GRAB`: all the arguments so far are on the stack. */
  lemma AtGrab(code: map<int, Instr>, g: int, n: nat, m: Machine, f: Value, c: Value, held: seq<Value>,
               args: seq<Value>)
    requires Function(code, g, n) && Stands(m, g, f, c, held) && |args| >= 1
    ensures var k := if held == [] then 0 else 1;
            Steps(code, Call(m, f, args), k) == Machine(g, (held + args) + Frame(m), f, c, |held| + |args| - 1, m.heap)
  {
    var frame := Frame(m);
    var s := Call(m, f, args);
    assert args + [Code(m.pc), m.env, Num(m.extra)] + m.stack == args + frame;
    if held == [] {
      assert held + args == args;
    } else {
      assert ([c] + held)[1..] == held;
      assert held + (args + frame) == (held + args) + frame;
      assert Step(code, s) == RestartStep(s);
      assert Steps(code, s, 1) == Steps(code, Step(code, s), 0);
    }
  }

  lemma {:induction false} StepsMore(code: map<int, Instr>, m: Machine, j: nat, k: nat)
    ensures Steps(code, m, j + k) == Steps(code, Steps(code, m, j), k)
    decreases j
  {
    if j > 0 { StepsMore(code, Step(code, m), j - 1, k); }
  }

  lemma OneStep(code: map<int, Instr>, m: Machine, k: nat)
    ensures Steps(code, m, k + 1) == Step(code, Steps(code, m, k))
  {
    StepsMore(code, m, k, 1);
    var s := Steps(code, m, k);
    assert Steps(code, s, 1) == Steps(code, Step(code, s), 0);
  }

  /** With enough arguments, the body is entered. */
  lemma EnoughArguments(code: map<int, Instr>, g: int, n: nat, m: Machine, f: Value, c: Value, held: seq<Value>,
                        args: seq<Value>)
    requires Function(code, g, n) && Stands(m, g, f, c, held) && |args| >= 1 && |held| + |args| > n
    ensures exists k: nat :: InBody(m, Steps(code, Call(m, f, args), k), g, n, c, held + args)
  {
    AtGrab(code, g, n, m, f, c, held, args);
    var k := if held == [] then 0 else 1;
    var s := Steps(code, Call(m, f, args), k);
    StepsMore(code, Call(m, f, args), k, 1);
    var t := Steps(code, s, 1);
    assert t == Steps(code, Step(code, s), 0) == GrabStep(s, n);
    assert held + args + [Code(m.pc), m.env, Num(m.extra)] + m.stack ==
           (held + args) + ([Code(m.pc), m.env, Num(m.extra)] + m.stack);
    assert InBody(m, Steps(code, Call(m, f, args), k + 1), g, n, c, held + args);
  }

  /** What `GRAB` does with too few: the closure, and the frame popped. */
  lemma GrabTooFew(m: Machine, g: int, n: nat, f: Value, c: Value, all: seq<Value>)
    requires 1 <= |all| <= n && IsClosure(m, c) && m.heap[c.a].code == g
    ensures var t := GrabStep(Machine(g, all + Frame(m), f, c, |all| - 1, m.heap), n);
            Returned(m, t) && Stands(t, g, t.accu, c, all)
  {
    var frame := Frame(m);
    assert (all + frame)[..|all|] == all && (all + frame)[|all|..] == frame && frame[3..] == m.stack;
  }

  /** With too few, a closure that holds them all comes back, and the caller finds everything as it left it. */
  lemma TooFewArguments(code: map<int, Instr>, g: int, n: nat, m: Machine, f: Value, c: Value, held: seq<Value>,
                        args: seq<Value>)
    requires Function(code, g, n) && Stands(m, g, f, c, held) && |args| >= 1 && |held| + |args| <= n
    ensures exists k: nat :: var t := Steps(code, Call(m, f, args), k);
            Returned(m, t) && Stands(t, g, t.accu, c, held + args)
  {
    hide Steps, Call, Returned, GrabStep, RestartStep, ReturnStep, AppTermStep, ApplyFramedStep, Enter;
    AtGrab(code, g, n, m, f, c, held, args);
    GrabTooFew(m, g, n, f, c, held + args);
    var k := if held == [] then 0 else 1;
    OneStep(code, Call(m, f, args), k);
    var u := Steps(code, Call(m, f, args), k + 1);
    assert Returned(m, u) && Stands(u, g, u.accu, c, held + args);
  }

  // ---- Any split of the arguments -----------------------------------------------------------------------------

  function Concat(splits: seq<seq<Value>>): seq<Value> {
    if splits == [] then [] else splits[0] + Concat(splits[1..])
  }

  /** Supplying the arguments group by group ends in state `m'`, in the body. */
  ghost predicate Supplies(code: map<int, Instr>, m: Machine, f: Value, splits: seq<seq<Value>>, g: int, n: nat,
                           c: Value, all: seq<Value>)
    decreases |splits|
  {
    if |splits| == 0 then false
    else if |splits| == 1 then exists k: nat :: InBody(m, Steps(code, Call(m, f, splits[0]), k), g, n, c, all)
    else exists k: nat :: var t := Steps(code, Call(m, f, splits[0]), k);
                          Returned(m, t) && Supplies(code, t, t.accu, splits[1..], g, n, c, all)
  }

  /** The groups are not empty, and all are needed. */
  predicate Groups(splits: seq<seq<Value>>, held: nat, n: nat) {
    && |splits| > 0 && |splits[0]| >= 1
    && if |splits| == 1 then held + |splits[0]| > n
       else held + |splits[0]| <= n && Groups(splits[1..], held + |splits[0]|, n)
  }

  /**
   * Partial application is transparent: however the arguments are split, the body is entered with the same
   * arguments, in order, the same environment and the same surplus, over an untouched stack, as in one call.
   */
  lemma {:induction false} AnySplit(code: map<int, Instr>, g: int, n: nat, m: Machine, f: Value, c: Value,
                                    held: seq<Value>, splits: seq<seq<Value>>)
    requires Function(code, g, n) && Stands(m, g, f, c, held) && Groups(splits, |held|, n)
    ensures Supplies(code, m, f, splits, g, n, c, held + Concat(splits))
    decreases |splits|
  {
    hide Steps, Call, Stands, Returned, InBody, Function;
    if |splits| == 1 {
      EnoughArguments(code, g, n, m, f, c, held, splits[0]);
      assert splits[1..] == [];
      assert held + Concat(splits) == held + splits[0];
    } else {
      TooFewArguments(code, g, n, m, f, c, held, splits[0]);
      var k: nat :| var t := Steps(code, Call(m, f, splits[0]), k);
        Returned(m, t) && Stands(t, g, t.accu, c, held + splits[0]);
      var t := Steps(code, Call(m, f, splits[0]), k);
      AnySplit(code, g, n, t, t.accu, c, held + splits[0], splits[1..]);
      assert held + splits[0] + Concat(splits[1..]) == held + Concat(splits);
    }
  }

  /** In particular, in one call. */
  lemma OneCall(code: map<int, Instr>, g: int, n: nat, m: Machine, c: Value, args: seq<Value>)
    requires Function(code, g, n) && Stands(m, g, c, c, []) && |args| > n
    ensures exists k: nat :: InBody(m, Steps(code, Call(m, c, args), k), g, n, c, args)
  {
    EnoughArguments(code, g, n, m, c, c, [], args);
    assert [] + args == args;
  }

  // ---- Calls, tail calls and returns in the code --------------------------------------------------------------------

  lemma CallStack(m: Machine, f: Value, args: seq<Value>)
    ensures Call(m, f, args) == Enter(m.(stack := args + Frame(m), accu := f), |args| - 1)
  {
    assert args + [Code(m.pc), m.env, Num(m.extra)] + m.stack == args + Frame(m);
  }

  /** `APPLY`, over the frame of caller `m`, is a call from `m`. */
  lemma ApplyCalls(code: map<int, Instr>, m: Machine, s: Machine, args: seq<Value>)
    requires s.pc in code && code[s.pc] == Apply(|args|) && |args| >= 1 && s.stack == args + Frame(m) &&
             IsClosure(s, s.accu)
    ensures Step(code, s) == Call(m.(heap := s.heap), s.accu, args)
  {
    CallStack(m.(heap := s.heap), s.accu, args);
    assert Frame(m.(heap := s.heap)) == Frame(m);
  }

  /**
   * `PUSH_RETADDR` in state `m`, and later, when the function and its arguments are there, `APPLY`: a call that returns
   * `ofs` words after the first, to the registers and the stack of `m`.
   */
  lemma PushThenApply(code: map<int, Instr>, m: Machine, ofs: int, s: Machine, args: seq<Value>)
    requires m.pc in code && code[m.pc] == PushRetaddr(ofs) && s.stack == args + Step(code, m).stack
    requires s.pc in code && code[s.pc] == Apply(|args|) && |args| >= 1 && IsClosure(s, s.accu)
    ensures Step(code, s) == Call(m.(pc := m.pc + 1 + ofs, heap := s.heap), s.accu, args)
  {
    ApplyCalls(code, m.(pc := m.pc + 1 + ofs), s, args);
  }

  /** `APPLY1` to `APPLY3` are calls from the next instruction. */
  lemma ApplyFramedCalls(code: map<int, Instr>, m: Machine, args: seq<Value>, rest: seq<Value>)
    requires m.pc in code && code[m.pc] == ApplyFramed(|args|) && m.stack == args + rest && IsClosure(m, m.accu)
    ensures Step(code, m) == Call(m.(pc := m.pc + 1, stack := rest), m.accu, args)
  {
    assert m.stack[..|args|] == args && Pop(m.stack, |args|) == rest;
  }

  /**
   * A tail call to `args` from a body with surplus arguments `more` is a call from the body's own caller to them all.
   */
  lemma TailCall(code: map<int, Instr>, m: Machine, s: Machine, args: seq<Value>, junk: seq<Value>, more: seq<Value>)
    requires s.pc in code && code[s.pc] == Appterm(|args|, |args| + |junk|) && |args| >= 1 && IsClosure(s, s.accu)
    requires s.stack == args + junk + more + Frame(m) && s.extra == |more|
    ensures Step(code, s) == Call(m.(heap := s.heap), s.accu, args + more)
  {
    var st, n := s.stack, |args| + |junk|;
    CallStack(m.(heap := s.heap), s.accu, args + more);
    assert st == (args + junk) + (more + Frame(m));
    assert st[..|args|] == args && Pop(st, n) == more + Frame(m);
    assert args + (more + Frame(m)) == (args + more) + Frame(m);
    assert Frame(m.(heap := s.heap)) == Frame(m);
  }

  /** `RETURN` with surplus arguments is a call, from the body's own caller, of the result to them. */
  lemma ReturnApplies(code: map<int, Instr>, m: Machine, s: Machine, locals: seq<Value>, more: seq<Value>)
    requires s.pc in code && code[s.pc] == Return(|locals|) && |more| >= 1 && IsClosure(s, s.accu)
    requires s.stack == locals + more + Frame(m) && s.extra == |more|
    ensures Step(code, s) == Call(m.(heap := s.heap), s.accu, more)
  {
    CallStack(m.(heap := s.heap), s.accu, more);
    assert s.stack == locals + (more + Frame(m));
    assert Pop(s.stack, |locals|) == more + Frame(m);
    assert Frame(m.(heap := s.heap)) == Frame(m);
  }

  /** `RETURN` without surplus arguments gives the result to the caller. */
  lemma ReturnLeaves(code: map<int, Instr>, m: Machine, s: Machine, locals: seq<Value>)
    requires s.pc in code && code[s.pc] == Return(|locals|) && s.stack == locals + Frame(m) && s.extra == 0
    ensures Step(code, s) == m.(heap := s.heap, accu := s.accu)
  {
    assert Pop(s.stack, |locals|) == Frame(m) && Frame(m)[3..] == m.stack;
  }

  // ---- The instructions as they run -----------------------------------------------------------------------

  class Interpreter {
    var pc: int
    var stack: seq<Value>
    var accu: Value
    var env: Value
    var extraArgs: int
    var heap: seq<Closure>

    function State(): Machine
      reads this
    {
      Machine(pc, stack, accu, env, extraArgs, heap)
    }

    /** `RESTART` */
    method DoRestart()
      requires IsClosure(State(), env) && |heap[env.a].fields| >= 1
      modifies this
      ensures State() == RestartStep(old(State()))
    {
      var fields := heap[env.a].fields;
      var numArgs := |fields| - 1;
      var top := seq(numArgs, _ => Num(0));
      var i := 0;
      while i < numArgs
        invariant 0 <= i <= numArgs == |top| && top[..i] == fields[1..][..i]
      {
        top := top[i := fields[i + 1]];
        i := i + 1;
      }
      assert top == fields[1..];
      pc, stack, env, extraArgs := pc + 1, top + stack, fields[0], extraArgs + numArgs;
    }

    /** `GRAB`; a caller's frame lies under the arguments. */
    method DoGrab(required: nat)
      requires extraArgs >= 0 && |stack| >= extraArgs + 4 && stack[extraArgs + 1].Code? && stack[extraArgs + 3].Num?
      modifies this
      ensures State() == GrabStep(old(State()), required)
    {
      if extraArgs >= required {
        pc, extraArgs := pc + 2, extraArgs - required;
      } else {
        var numArgs := 1 + extraArgs;
        var held := seq(numArgs, _ => Num(0));
        var i := 0;
        while i < numArgs
          invariant 0 <= i <= numArgs == |held| && held[..i] == stack[..i]
        {
          held := held[i := stack[i]];
          i := i + 1;
        }
        assert held == stack[..numArgs];
        heap := heap + [Closure(pc - 1, [env] + held)];
        accu := Clo(|heap| - 1);
        var sp := stack[numArgs..];
        pc, env, extraArgs := sp[0].pc, sp[1], sp[2].n;
        stack := sp[3..];
      }
    }

    /** `RETURN`; the frame, and the surplus arguments or the caller's frame, are on the stack. */
    method DoReturn(n: nat)
      requires n <= |stack| && extraArgs >= 0
      requires if extraArgs > 0 then IsClosure(State(), accu)
               else n + 3 <= |stack| && stack[n].Code? && stack[n + 2].Num?
      modifies this
      ensures State() == ReturnStep(old(State()), n)
    {
      var sp := stack[n..];
      if extraArgs > 0 {
        extraArgs := extraArgs - 1;
        pc, env, stack := heap[accu.a].code, accu, sp;
      } else {
        pc, env, extraArgs := sp[0].pc, sp[1], sp[2].n;
        stack := sp[3..];
      }
    }

    /** `APPTERM`: slides the arguments over the frame, last one first, since source and target overlap. */
    method DoAppterm(n: nat, slots: nat)
      requires n <= slots <= |stack| && IsClosure(State(), accu)
      modifies this
      ensures State() == AppTermStep(old(State()), n, slots)
    {
      var shift := slots - n;
      var sp := stack;
      var i := n;
      while i > 0
        invariant 0 <= i <= n && |sp| == |stack|
        invariant sp[..shift + i] == stack[..shift + i] && sp[shift + i..slots] == stack[i..n] &&
                  sp[slots..] == stack[slots..]
      {
        i := i - 1;
        ghost var before := sp;
        sp := sp[shift + i := sp[i]];
        assert sp[shift + i..slots] == [stack[i]] + before[shift + i + 1..slots];
      }
      assert sp[shift..] == sp[shift..slots] + sp[slots..];
      stack := sp[shift..];
      pc, env, extraArgs := heap[accu.a].code, accu, extraArgs + n - 1;
    }
  }
}
