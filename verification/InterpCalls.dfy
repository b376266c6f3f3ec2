/**
 * Whole calls in the bytecode machine: bodies that return, bodies that end in a tail call, and more arguments than a
 * function takes.
 */
module InterpCalls {
  import opened Interp

  /** How a body ends: it returns a result, or calls a function in its own place. */
  datatype Outcome =
    | Result(r: Value, heap: seq<Closure>)
    | Tail(f: Value, args: seq<Value>, heap: seq<Closure>)

  /** The state `t` is at the end of a body, over `base`. */
  predicate Ends(code: map<int, Instr>, t: Machine, base: seq<Value>, extra: int, o: Outcome) {
    && t.pc in code && t.heap == o.heap && t.extra == extra
    && match o
       case Result(r, _) =>
         code[t.pc].Return? && t.accu == r && code[t.pc].n <= |t.stack| && t.stack[code[t.pc].n..] == base
       case Tail(f, args, _) =>
         && code[t.pc].Appterm? && t.accu == f && IsClosure(t, f)
         && 1 <= code[t.pc].n == |args| <= code[t.pc].slots <= |t.stack|
         && t.stack[..|args|] == args && t.stack[code[t.pc].slots..] == base
  }

  /** A function of `n + 1` arguments at `g`: its closure is `c`, and `held` are the arguments it has already. */
  datatype Entry = Entry(g: int, n: nat, c: Value, held: seq<Value>)

  /** Functions of several arguments start with `GRAB`. */
  predicate Grabs(code: map<int, Instr>, g: int) { g in code && code[g].Grab? }

  /** Where the body starts. */
  function Start(code: map<int, Instr>, g: int): int { if Grabs(code, g) then g + 2 else g }

  /** The closure `f` is `e`, which takes exactly the arguments `args`. */
  predicate Takes(code: map<int, Instr>, m: Machine, e: Entry, f: Value, args: seq<Value>) {
    && Stands(m, e.g, f, e.c, e.held) && |args| >= 1 && |e.held| + |args| == e.n + 1
    && if Grabs(code, e.g) then Function(code, e.g, e.n) else e.held == [] && e.n == 0
  }

  /** In `k` steps the body gets to its end, with the words under its arguments as they were. */
  predicate Gets(code: map<int, Instr>, e: Entry, f: Value, args: seq<Value>, heap: seq<Closure>, o: Outcome,
                 base: seq<Value>, extra: nat, k: nat)
  {
    Ends(code, Steps(code, Machine(Start(code, e.g), (e.held + args) + base, f, e.c, extra, heap), k), base, extra, o)
  }

  ghost predicate GetsThere(code: map<int, Instr>, e: Entry, f: Value, args: seq<Value>, heap: seq<Closure>,
                            o: Outcome, base: seq<Value>, extra: nat)
  {
    exists k: nat :: Gets(code, e, f, args, heap, o, base, extra, k)
  }

  /** From `args` the body comes to `o`, whatever lies under its arguments and whatever surplus there is. */
  ghost predicate Computes(code: map<int, Instr>, e: Entry, f: Value, args: seq<Value>, heap: seq<Closure>,
                           o: Outcome)
  {
    forall base: seq<Value>, extra: nat :: GetsThere(code, e, f, args, heap, o, base, extra)
  }

  /**
   * How a call comes to its result: the body returns; or it ends in a tail call, which has a run of its own; or the
   * function takes some of the arguments, and its result the others.
   */
  datatype Run =
    | Returns(e: Entry)
    | Jumps(e: Entry, o: Outcome, next: Run)
    | Pieces(i: nat, r: Value, heap: seq<Closure>, first: Run, rest: Run)

  /** Called in `m` with `args`, `f` gives `r`, by `run`. */
  ghost predicate Evaluates(code: map<int, Instr>, run: Run, m: Machine, f: Value, args: seq<Value>, r: Value,
                            heap: seq<Closure>)
    decreases run
  {
    match run
    case Returns(e) => Takes(code, m, e, f, args) && Computes(code, e, f, args, m.heap, Result(r, heap))
    case Jumps(e, o, next) =>
      && Takes(code, m, e, f, args) && o.Tail? && Computes(code, e, f, args, m.heap, o)
      && Evaluates(code, next, m.(heap := o.heap), o.f, o.args, r, heap)
    case Pieces(i, s, heap', first, rest) =>
      && 1 <= i < |args| && s.Clo? && s.a < |heap'|
      && Evaluates(code, first, m, f, args[..i], s, heap')
      && Evaluates(code, rest, m.(heap := heap'), s, args[i..], r, heap)
  }

  /** What the caller `m` goes on with, when `r` has been computed and `more` are the arguments left. */
  function After(m: Machine, r: Value, heap: seq<Closure>, more: seq<Value>): Machine {
    if more == [] then m.(heap := heap, accu := r) else Call(m.(heap := heap), r, more)
  }

  lemma GrabEnough(s: Machine, n: nat)
    requires s.extra >= n
    ensures GrabStep(s, n) == s.(pc := s.pc + 2, extra := s.extra - n)
  {
  }

  /** The body is entered with its arguments over the surplus and the caller's frame. */
  lemma Entered(code: map<int, Instr>, m: Machine, e: Entry, f: Value, args: seq<Value>, more: seq<Value>)
    returns (k: nat)
    requires Takes(code, m, e, f, args)
    ensures Steps(code, Call(m, f, args + more), k) ==
            Machine(Start(code, e.g), (e.held + args) + (more + Frame(m)), f, e.c, |more|, m.heap)
  {
    var all, frame := e.held + args, Frame(m);
    assert e.held + (args + more) == all + more && (all + more) + frame == all + (more + frame);
    if Grabs(code, e.g) {
      AtGrab(code, e.g, e.n, m, f, e.c, e.held, args + more);
      var j := if e.held == [] then 0 else 1;
      OneStep(code, Call(m, f, args + more), j);
      GrabEnough(Steps(code, Call(m, f, args + more), j), e.n);
      k := j + 1;
    } else {
      CallStack(m, f, args + more);
      assert all == args;
      k := 0;
    }
  }

  lemma Ended(code: map<int, Instr>, m: Machine, e: Entry, f: Value, args: seq<Value>, more: seq<Value>, o: Outcome)
    returns (k: nat)
    requires Takes(code, m, e, f, args) && Computes(code, e, f, args, m.heap, o)
    ensures Ends(code, Steps(code, Call(m, f, args + more), k), more + Frame(m), |more|, o)
  {
    hide Steps, Ends, Takes, Call, Frame;
    var i := Entered(code, m, e, f, args, more);
    var base := more + Frame(m);
    assert GetsThere(code, e, f, args, m.heap, o, base, |more|);
    var j: nat :| Gets(code, e, f, args, m.heap, o, base, |more|, j);
    StepsMore(code, Call(m, f, args + more), i, j);
    k := i + j;
  }

  lemma LastReturn(code: map<int, Instr>, t: Machine, m: Machine, more: seq<Value>, o: Outcome)
    requires Ends(code, t, more + Frame(m), |more|, o) && o.Result? && (more != [] ==> o.r.Clo? && o.r.a < |o.heap|)
    ensures Step(code, t) == After(m, o.r, o.heap, more)
  {
    hide Step, Call, Frame;
    var frame, locals := Frame(m), t.stack[..code[t.pc].n];
    assert t.stack == locals + (more + frame);
    if more == [] {
      assert more + frame == frame;
      ReturnLeaves(code, m, t, locals);
    } else {
      assert locals + (more + frame) == locals + more + frame;
      ReturnApplies(code, m, t, locals, more);
    }
  }

  lemma LastTail(code: map<int, Instr>, t: Machine, m: Machine, more: seq<Value>, o: Outcome)
    requires Ends(code, t, more + Frame(m), |more|, o) && o.Tail?
    ensures Step(code, t) == Call(m.(heap := o.heap), o.f, o.args + more)
  {
    hide Step, Call, Frame;
    var st, n, slots, base := t.stack, |o.args|, code[t.pc].slots, more + Frame(m);
    var junk := st[n..slots];
    assert st == st[..slots] + st[slots..] && st[..slots] == o.args + junk;
    assert (o.args + junk) + base == o.args + junk + more + Frame(m);
    TailCall(code, m, t, o.args, junk, more);
  }

  /** A body with surplus arguments, from the call to what its last instruction does. */
  lemma OneBody(code: map<int, Instr>, m: Machine, e: Entry, f: Value, args: seq<Value>, more: seq<Value>, o: Outcome)
    returns (k: nat)
    requires Takes(code, m, e, f, args) && Computes(code, e, f, args, m.heap, o)
    requires o.Result? && more != [] ==> o.r.Clo? && o.r.a < |o.heap|
    ensures Steps(code, Call(m, f, args + more), k) ==
            if o.Result? then After(m, o.r, o.heap, more) else Call(m.(heap := o.heap), o.f, o.args + more)
  {
    hide Steps, Step, Ends, Takes, Computes, Call, Frame, After;
    var j := Ended(code, m, e, f, args, more, o);
    var t := Steps(code, Call(m, f, args + more), j);
    if o.Result? { LastReturn(code, t, m, more, o); } else { LastTail(code, t, m, more, o); }
    OneStep(code, Call(m, f, args + more), j);
    k := j + 1;
  }

  /**
   * A call with arguments left over comes, through any tail calls and any results that take arguments in turn, to the
   * call of its result with them; without any left, to the caller, as it was but for the result.
   */
  lemma {:induction false} Evaluation(code: map<int, Instr>, run: Run, m: Machine, f: Value, args: seq<Value>,
                                      more: seq<Value>, r: Value, heap: seq<Closure>)
    returns (k: nat)
    requires Evaluates(code, run, m, f, args, r, heap) && (more != [] ==> r.Clo? && r.a < |heap|)
    ensures Steps(code, Call(m, f, args + more), k) == After(m, r, heap, more)
    decreases run
  {
    hide Steps, Ends, Takes, Computes, Call, Frame;
    match run
    case Returns(e) => k := OneBody(code, m, e, f, args, more, Result(r, heap));
    case Jumps(e, o, next) =>
      var i := OneBody(code, m, e, f, args, more, o);
      var j := Evaluation(code, next, m.(heap := o.heap), o.f, o.args, more, r, heap);
      SameAfter(m, o.heap, r, heap, more);
      StepsMore(code, Call(m, f, args + more), i, j);
      k := i + j;
    case Pieces(p, s, heap', first, rest) =>
      var left := args[p..] + more;
      assert args[..p] + left == args + more;
      var i := Evaluation(code, first, m, f, args[..p], left, s, heap');
      var j := Evaluation(code, rest, m.(heap := heap'), s, args[p..], more, r, heap);
      SameAfter(m, heap', r, heap, more);
      StepsMore(code, Call(m, f, args + more), i, j);
      k := i + j;
  }

  lemma SameAfter(m: Machine, heap': seq<Closure>, r: Value, heap: seq<Closure>, more: seq<Value>)
    ensures After(m.(heap := heap'), r, heap, more) == After(m, r, heap, more)
  {
  }

  /**
   * Applying a function to more arguments than it takes is applying it to those it takes and then, from the same
   * caller, its result to the others.
   */
  lemma OverApplication(code: map<int, Instr>, run: Run, m: Machine, f: Value, args: seq<Value>, more: seq<Value>,
                        r: Value, heap: seq<Closure>)
    requires Evaluates(code, run, m, f, args, r, heap) && more != [] && r.Clo? && r.a < |heap|
    ensures exists i: nat, j: nat ::
              var t := Steps(code, Call(m, f, args), i);
              t == m.(heap := heap, accu := r) && Steps(code, Call(m, f, args + more), j) == Call(t, r, more)
  {
    hide Steps, Evaluates;
    var i := Evaluation(code, run, m, f, args, [], r, heap);
    assert args + [] == args;
    var j := Evaluation(code, run, m, f, args, more, r, heap);
    var t := Steps(code, Call(m, f, args), i);
    assert Call(t, r, more) == Call(m.(heap := heap), r, more);
  }

  /**
   * A body that ends in a tail call with too few arguments: given more, the function of the tail call is entered at
   * once; otherwise its closure comes back, and applied to the others it is entered too, with the same arguments,
   * environment, surplus and stack.
   */
  lemma PartialTail(code: map<int, Instr>, m: Machine, e: Entry, f: Value, args: seq<Value>, more: seq<Value>,
                    o: Outcome, g: int, n: nat, c: Value, held: seq<Value>)
    requires Takes(code, m, e, f, args) && Computes(code, e, f, args, m.heap, o) && o.Tail? && |o.args| >= 1
    requires Function(code, g, n) && Stands(m.(heap := o.heap), g, o.f, c, held)
    requires |held| + |o.args| <= n < |held| + |o.args| + |more|
    ensures exists k: nat :: InBody(m, Steps(code, Call(m, f, args + more), k), g, n, c, held + o.args + more)
    ensures exists i: nat, j: nat ::
              var t := Steps(code, Call(m, f, args), i);
              && Returned(m.(heap := o.heap), t) && Stands(t, g, t.accu, c, held + o.args)
              && InBody(m, Steps(code, Call(t, t.accu, more), j), g, n, c, held + o.args + more)
  {
    hide Steps, Call, Takes, Computes, Stands, Function;
    var m1 := m.(heap := o.heap);
    var all := held + o.args + more;
    var k1 := OneBody(code, m, e, f, args, more, o);
    EnoughArguments(code, g, n, m1, o.f, c, held, o.args + more);
    assert held + (o.args + more) == all;
    var k2: nat :| InBody(m1, Steps(code, Call(m1, o.f, o.args + more), k2), g, n, c, all);
    StepsMore(code, Call(m, f, args + more), k1, k2);
    assert InBody(m, Steps(code, Call(m, f, args + more), k1 + k2), g, n, c, all);
    var i1 := OneBody(code, m, e, f, args, [], o);
    assert args + [] == args && o.args + [] == o.args;
    TooFewArguments(code, g, n, m1, o.f, c, held, o.args);
    var i2: nat :| var t := Steps(code, Call(m1, o.f, o.args), i2);
      Returned(m1, t) && Stands(t, g, t.accu, c, held + o.args);
    StepsMore(code, Call(m, f, args), i1, i2);
    var t := Steps(code, Call(m, f, args), i1 + i2);
    EnoughArguments(code, g, n, t, t.accu, c, held + o.args, more);
    var j: nat :| InBody(t, Steps(code, Call(t, t.accu, more), j), g, n, c, all);
    assert InBody(m, Steps(code, Call(t, t.accu, more), j), g, n, c, all);
  }

  /**
   * A call in the code, from `PUSH_RETADDR` in state `m` over `APPLY` in state `s`: it ends `ofs` words after the first
   * with the result, and with the registers and the stack as they were there.
   */
  lemma CallInCode(code: map<int, Instr>, run: Run, m: Machine, ofs: int, s: Machine, args: seq<Value>, r: Value,
                   heap: seq<Closure>)
    requires m.pc in code && code[m.pc] == PushRetaddr(ofs) && s.stack == args + Step(code, m).stack
    requires s.pc in code && code[s.pc] == Apply(|args|) && |args| >= 1 && IsClosure(s, s.accu)
    requires Evaluates(code, run, m.(pc := m.pc + 1 + ofs, heap := s.heap), s.accu, args, r, heap)
    ensures exists k: nat :: Steps(code, s, k) == m.(pc := m.pc + 1 + ofs, accu := r, heap := heap)
  {
    hide Steps, Evaluates, Call;
    PushThenApply(code, m, ofs, s, args);
    var caller := m.(pc := m.pc + 1 + ofs, heap := s.heap);
    var k := Evaluation(code, run, caller, s.accu, args, [], r, heap);
    assert args + [] == args;
    OneStep(code, s, 0);
    NoStep(code, s);
    StepsMore(code, s, 1, k);
    assert Steps(code, s, 1 + k) == m.(pc := m.pc + 1 + ofs, accu := r, heap := heap);
  }

  // ---- A body as an instance ----------------------------------------------------------------------------------------

  /** `ACC`: the word number `n` of the stack. */
  function Acc(n: nat): Instr { Ordinary((m: Machine) => m.(pc := m.pc + 1, accu := Get(m.stack, n))) }

  /** The code of the identity at `g`: `ACC0`, `RETURN 1`. */
  ghost predicate Identity(code: map<int, Instr>, g: int) {
    g in code && code[g] == Acc(0) && g + 1 in code && code[g + 1] == Return(1)
  }

  /** In any heap the identity computes its argument. */
  lemma IdentityComputes(code: map<int, Instr>, g: int, c: Value, x: Value, heap: seq<Closure>)
    requires Identity(code, g)
    ensures Computes(code, Entry(g, 0, c, []), c, [x], heap, Result(x, heap))
  {
    var e, o := Entry(g, 0, c, []), Result(x, heap);
    forall base: seq<Value>, extra: nat
      ensures GetsThere(code, e, c, [x], heap, o, base, extra)
    {
      var m := Machine(g, ([] + [x]) + base, c, c, extra, heap);
      assert m.stack[0] == x && m.stack[1..] == base;
      NoStep(code, m);
      OneStep(code, m, 0);
      assert Gets(code, e, c, [x], heap, o, base, extra, 1);
    }
  }

  /** The identity applied to a function and to arguments of that function calls it with them, from the same caller. */
  lemma IdentityApplies(code: map<int, Instr>, g: int, m: Machine, c: Value, f: Value, more: seq<Value>)
    requires Identity(code, g) && IsClosure(m, c) && m.heap[c.a].code == g && IsClosure(m, f) && more != []
    ensures exists k: nat :: Steps(code, Call(m, c, [f] + more), k) == Call(m, f, more)
  {
    hide Steps, Computes, Call;
    IdentityComputes(code, g, c, f, m.heap);
    var k := Evaluation(code, Returns(Entry(g, 0, c, [])), m, c, [f], more, f, m.heap);
    assert m.(heap := m.heap) == m;
  }

  lemma NoStep(code: map<int, Instr>, m: Machine)
    ensures Steps(code, m, 0) == m
  {
  }
}
