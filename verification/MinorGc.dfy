/** The minor collection as it runs, and the write barrier that prepares it. */
module MinorGc {
  import opened GcHeap
  import opened MinorSpec
  import opened MinorCopy
  import Runs = MinorRuns

  class MinorCollector {
    var young: Nursery
    var major: Major
    var roots: seq<Value>
    var refTable: seq<(int, nat)>
    var todo: int
    var brk: int
    ghost var fwd: map<int, int>
    ghost var list: seq<int>

    ghost function State(): Copy
      reads this
    {
      Copy(young, major, roots, todo, fwd, list)
    }

    /** No address from `brk` on is in use. */
    ghost predicate Bounded()
      reads this
    {
      brk > 0 && (forall a :: a in young ==> a < brk) && (forall a :: a in major ==> a < brk)
    }

    /** `alloc_shr`: a new block of the major heap, not initialised. */
    method AllocShr(sz: nat, tag: nat) returns (r: int)
      requires Bounded() && 0 !in major
      modifies this`major, this`brk
      ensures Bounded() && r != 0 && r !in young && r !in old(major)
      ensures exists junk :: |junk| == sz && major == old(major)[r := Old(tag, junk)]
    {
      r := *;
      if r <= 0 || r in young || r in major {
        r := brk;
      }
      var junk: seq<Value> := seq(sz, i => Imm(0));
      major := major[r := Old(tag, junk)];
      if r >= brk {
        brk := r + 1;
      }
    }

    method Store(p: Cell, w: Value)
      requires CellOk(State(), p)
      modifies this`roots, this`major
      ensures State() == Stored(old(State()), p, w)
      ensures old(Bounded()) ==> Bounded()
    {
      match p
      case Root(i) => roots := roots[i := w];
      case Field(a, i) => major := major[a := major[a].(fields := major[a].fields[i := w])];
    }

    method CopyWords(r: int, words: seq<Value>)
      requires r in major && |major[r].fields| == |words|
      modifies this`major
      ensures major == old(major)[r := old(major)[r].(fields := words)]
    {
      var i := 0;
      while i < |words|
        invariant 0 <= i <= |words| && r in major && |major[r].fields| == |words|
        invariant major == old(major)[r := old(major)[r].(fields := major[r].fields)]
        invariant major[r].fields[..i] == words[..i]
      {
        major := major[r := major[r].(fields := major[r].fields[i := words[i]])];
        i := i + 1;
      }
      assert major[r].fields == words;
    }

    /**
     * Moves a block: a block of values is only half copied and put on the to-do list, unless it has a single
     * field, which the caller fills in; raw data is copied at once.
     */
    method MoveBlock(b: int, ghost g: Snapshot) returns (r: int, ghost nf: seq<Value>)
      requires b in g.young && b in young && young[b] == g.young[b] && b !in fwd && |young[b].fields| > 0
      requires Bounded() && 0 !in major
      modifies this`young, this`major, this`todo, this`brk, this`fwd, this`list
      ensures Bounded() && r != 0 && r !in young && r !in old(major) && |nf| == |g.young[b].fields|
      ensures var push := g.young[b].tag < INFIX_TAG && |nf| > 1;
              && State() == Moved(g, old(State()), b, r, nf, push)
              && (push ==> nf[0] == g.young[b].fields[0] && nf[1] == Ptr(old(todo), 0))
      ensures !HoldsValues(g.young[b].tag) ==> nf == g.young[b].fields
    {
      var blk := young[b];
      var sz := |blk.fields|;
      r := AllocShr(sz, blk.tag);
      if blk.tag >= NO_SCAN_TAG {
        CopyWords(r, blk.fields);
      }
      young := young[b := Young(true, blk.tag, blk.fields[0 := Ptr(r, 0)])];
      fwd := fwd[b := r];
      if blk.tag < INFIX_TAG && sz > 1 {
        major := major[r := major[r].(fields := major[r].fields[0 := blk.fields[0]])];
        major := major[r := major[r].(fields := major[r].fields[1 := Ptr(todo, 0)])];
        todo := b;
        list := [b] + list;
      }
      nf := major[r].fields;
    }

    /** `oldify_one`; the jumps to its start are recursive calls. */
    method OldifyOne(v: Value, p: Cell, ghost g: Snapshot, ghost busy: set<int>)
      requires Start(g, State(), busy, v, p) && Bounded()
      modifies this
      ensures Oldified(g, old(State()), busy, v, p, State()) && Bounded() && refTable == old(refTable)
      decreases Left(g, State()), RankOf(g, v), Offset(v), 1
    {
      ghost var s := State();
      StartFacts(g, s, busy, v, p);
      hide Start, Oldified, Stored, RankOf, CellOk, Left;
      if v.Ptr? && v.base in young {
        if v.ofs > 0 {
          OldifyInfixHeader(v, p, g, busy);
        } else if young[v.base].moved {
          OldifyMoved(g, s, busy, v, p);
          Store(p, young[v.base].fields[0]);
        } else if young[v.base].tag == FORWARD_TAG {
          ForwardFacts(g, s, busy, v, p);
          OldifyOne(young[v.base].fields[0], p, g, busy);
          OldifyForward(g, s, busy, v, p, State());
        } else {
          OldifyUnmoved(v, p, g, busy);
        }
      } else {
        OldifyOther(g, s, busy, v, p);
        Store(p, v);
      }
    }

    /** The case of a pointer to an infix header. */
    method OldifyInfixHeader(v: Value, p: Cell, ghost g: Snapshot, ghost busy: set<int>)
      requires Start(g, State(), busy, v, p) && Bounded() && IsYoung(g.young, v) && v.ofs > 0
      modifies this
      ensures Oldified(g, old(State()), busy, v, p, State()) && Bounded() && refTable == old(refTable)
      decreases Left(g, State()), RankOf(g, v), Offset(v), 0
    {
      ghost var s := State();
      InfixFacts(g, s, busy, v, p);
      hide Start, Oldified, Stored, RankOf, CellOk, Left, Content, Skip;
      OldifyOne(Ptr(v.base, 0), p, g, busy);
      ghost var s1 := State();
      OldifyInfix(g, s, busy, v, p, s1);
      var w := Load(p);
      Store(p, Ptr(w.base, w.ofs + v.ofs));
    }

    /** Moves a block and makes `p` point to it. */
    method MoveFor(v: Value, p: Cell, ghost g: Snapshot, ghost busy: set<int>) returns (r: int)
      requires Start(g, State(), busy, v, p) && Bounded() && IsYoung(young, v) && v.ofs == 0
      requires v.base in g.young && v.base !in fwd && g.young[v.base].tag != FORWARD_TAG
      modifies this
      ensures Oldified(g, old(State()), if Single(g, v.base) then busy + {v.base} else busy, v, p, State()) &&
              Bounded() && refTable == old(refTable)
      ensures |fwd| > |old(fwd)| && r !in old(major) && v.base in fwd && fwd[v.base] == r
    {
      ghost var s := State();
      StartFacts(g, s, busy, v, p);
      hide Start, Oldified, Stored, CellOk, Left, Moved;
      ghost var nf;
      r, nf := MoveBlock(v.base, g);
      OldifyBlock(g, s, busy, v, p, r, nf, if Single(g, v.base) then busy + {v.base} else busy);
      Store(p, Ptr(r, 0));
    }

    /** The case of a block that has not moved yet and is not a forwarding block. */
    method OldifyUnmoved(v: Value, p: Cell, ghost g: Snapshot, ghost busy: set<int>)
      requires Start(g, State(), busy, v, p) && Bounded() && IsYoung(young, v) && v.ofs == 0
      requires v.base in g.young && v.base !in fwd && g.young[v.base].tag != FORWARD_TAG
      modifies this
      ensures Oldified(g, old(State()), busy, v, p, State()) && Bounded() && refTable == old(refTable)
      decreases Left(g, State()), RankOf(g, v), Offset(v), 0
    {
      ghost var s := State();
      StartFacts(g, s, busy, v, p);
      hide Oldified, Stored, RankOf, CellOk, Content, Moved, Core, Ready, Open, InfixOk, InUse;
      var b := young[v.base];
      var r := MoveFor(v, p, g, busy);
      if b.tag < INFIX_TAG && |b.fields| == 1 {
        ghost var s2 := State();
        ghost var busy' := busy + {v.base};
        SingleFacts(g, s, v, p, r, busy', s2);
        OldifyOne(b.fields[0], Field(r, 0), g, busy');
        OldifySingle(g, s, busy, v, p, r, busy', s2, State());
      }
    }

    /** Takes a block off the to-do list, and fills it in. */
    method FinishBlock(ghost g: Snapshot)
      requires Ready(g) && Core(g, State(), {}) && Bounded() && todo != 0
      modifies this
      ensures Core(g, State(), {}) && Bounded() && refTable == old(refTable)
      ensures Extends(old(fwd), fwd) && OldSame(g, old(State()), State())
      ensures Left(g, State()) < Left(g, old(State())) ||
              (Left(g, State()) == Left(g, old(State())) && |list| < |old(list)|)
    {
      ghost var s := State();
      TodoListed(g, s);
      PopFacts(g, s);
      PopCore(g, s);
      var v := todo;
      var newV := young[v].fields[0].base;
      todo := major[newV].fields[1].base;
      list := list[1..];
      ghost var s1 := State();
      FillStart(g, s, s1, v, newV);
      hide Core, Ready, Extends, HalfCopied, Popped, Left, Filled, OldSame, Filling;
      FillBlock(v, newV, g);
      FillEnd(g, s, s1, State(), v, newV, |major[newV].fields|);
    }

    method FillBlock(v: int, newV: int, ghost g: Snapshot)
      requires Filling(g, State(), State(), v, newV, 0) && Bounded()
      requires |major[newV].fields| > 1 && major[newV].fields[0] == g.young[v].fields[0]
      modifies this
      ensures newV in major && Filling(g, old(State()), State(), v, newV, |major[newV].fields|) && Bounded() &&
              refTable == old(refTable)
    {
      ghost var s1 := State();
      hide Core, Ready, Extends, Oldified, Filled, OldSame;
      FillField(v, newV, 0, major[newV].fields[0], g);
      FillNext(g, s1, s1, State(), v, newV, 0);
      var i := 1;
      while i < |major[newV].fields|
        invariant newV in major && Filling(g, s1, State(), v, newV, i) && Bounded() && refTable == old(refTable)
        decreases |g.young[v].fields| - i
      {
        ghost var s2 := State();
        FillSource(g, s1, s2, v, newV, i);
        FillField(v, newV, i, young[v].fields[i], g);
        FillNext(g, s1, s2, State(), v, newV, i);
        i := i + 1;
      }
    }

    method FillField(v: int, newV: int, i: nat, f: Value, ghost g: Snapshot)
      requires Ready(g) && Core(g, State(), {v}) && Bounded() && v in g.young && v in fwd && fwd[v] == newV
      requires newV in major && i < |major[newV].fields| && g.young[v].tag < INFIX_TAG && f in g.young[v].fields
      modifies this
      ensures Oldified(g, old(State()), {v}, f, Field(newV, i), State()) && Bounded() && refTable == old(refTable)
    {
      FieldStart(g, State(), v, newV, i, f);
      hide Start, Oldified, Core, Ready, Stored;
      if f.Ptr? && f.base in young {
        OldifyOne(f, Field(newV, i), g, {v});
      } else {
        OldifyOther(g, State(), {v}, f, Field(newV, i));
        Store(Field(newV, i), f);
      }
    }

    /** `oldify_mopup` */
    method OldifyMopup(ghost g: Snapshot)
      requires Ready(g) && Core(g, State(), {}) && Bounded()
      modifies this
      ensures Core(g, State(), {}) && Bounded() && list == [] && todo == 0 && refTable == old(refTable)
      ensures Extends(old(fwd), fwd) && OldSame(g, old(State()), State())
    {
      ghost var s := State();
      hide Core, Ready, Extends, Left, OldSame;
      OldSameRefl(g, s);
      while todo != 0
        invariant Core(g, State(), {}) && Bounded() && refTable == old(refTable)
        invariant Extends(s.fwd, fwd) && OldSame(g, s, State())
        decreases Left(g, State()), |list|
      {
        ghost var s1 := State();
        Sizes(g, s1, {});
        FinishBlock(g);
        Sizes(g, State(), {});
        OldSameTrans(g, s, s1, State());
      }
      TodoListed(g, State());
    }

    /** `oldify_local_roots` */
    method OldifyRoots(ghost g: Snapshot)
      requires Ready(g) && Core(g, State(), {}) && Bounded() && RootsAt(g, State(), 0) && CellsAt(g, State())
      modifies this
      ensures Core(g, State(), {}) && Bounded() && RootsAt(g, State(), |g.roots|) && CellsAt(g, State()) &&
              refTable == old(refTable)
    {
      var i := 0;
      hide Ready, Core, CellsAt, Oldified;
      RootsSize(g, State(), 0);
      while i < |roots|
        invariant 0 <= i <= |roots| == |g.roots| && Core(g, State(), {}) && Bounded()
        invariant RootsAt(g, State(), i) && CellsAt(g, State()) && refTable == old(refTable)
        decreases |g.roots| - i
      {
        ghost var s := State();
        RootStart(g, s, i);
        hide RootsAt, Start;
        OldifyOne(roots[i], Root(i), g, {});
        RootStep(g, s, State(), i);
        i := i + 1;
      }
    }

    /** The loop over the reference table. */
    method OldifyRefs(ghost g: Snapshot)
      requires Ready(g) && Core(g, State(), {}) && Bounded() && RootsAt(g, State(), |g.roots|) && CellsAt(g, State()) &&
               refTable == g.refs
      modifies this
      ensures Core(g, State(), {}) && Bounded() && RootsAt(g, State(), |g.roots|) && CellsAt(g, State()) &&
              RefsAt(g, State(), |g.refs|)
    {
      var k := 0;
      hide Ready, Core, CellsAt, RootsAt, Oldified, Start, RefsAt;
      RefsNone(g, State());
      while k < |refTable|
        invariant 0 <= k <= |refTable| && refTable == g.refs && Core(g, State(), {}) && Bounded()
        invariant RootsAt(g, State(), |g.roots|) && CellsAt(g, State()) && RefsAt(g, State(), k)
        decreases |g.refs| - k
      {
        ghost var s := State();
        RefStart(g, s, k);
        var a, i := refTable[k].0, refTable[k].1;
        OldifyOne(major[a].fields[i], Field(a, i), g, {});
        RefStep(g, s, State(), k);
        k := k + 1;
      }
    }

    /** `empty_minor_heap`: everything in use moves to the major heap. */
    method EmptyMinorHeap(ghost rank: map<int, nat>) returns (ghost moved: map<int, int>)
      requires Ready(Snapshot(young, major, roots, refTable, rank)) && Bounded() && todo == 0
      modifies this
      ensures Promoted(old(Snapshot(young, major, roots, refTable, rank)), moved, major, roots)
      ensures Bounded() && todo == 0 && young == map[] && (old(young) != map[] ==> refTable == [])
    {
      ghost var g := Snapshot(young, major, roots, refTable, rank);
      fwd, list, moved := map[], [], map[];
      CopyStart(g, State());
      if young != map[] {
        hide Ready, Core, CellsAt, RootsAt, RefsAt, OldSame, Extends;
        OldifyRoots(g);
        OldifyRefs(g);
        ghost var s := State();
        OldifyMopup(g);
        CopyEnd(g, s, State());
        moved := fwd;
        young, refTable := map[], [];
      } else {
        CopyNothing(g, State());
      }
    }

    ghost function Heaps(): Runs.Heaps
      reads this
    {
      Runs.Heaps(young, major, roots, refTable)
    }

    /** `initialize` on a field of the major heap. */
    method Initialize(a: int, i: nat, v: Value)
      requires Runs.Shape(Heaps()) && Runs.MajorField(Heaps(), a, i) && Runs.Holds(Heaps(), v)
      modifies this`major, this`refTable
      ensures Runs.Step(old(Heaps()), Runs.Initialize(a, i, v), Heaps()) && Runs.Shape(Heaps())
      ensures Runs.Stored(old(major), major, a, i, v)
      ensures refTable == old(refTable) + if v.Ptr? && v.base in young then [(a, i)] else []
    {
      ghost var h := Heaps();
      major := major[a := major[a].(fields := major[a].fields[i := v])];
      if v.Ptr? && v.base in young {
        refTable := refTable + [(a, i)];
      }
      Runs.StepShape(h, Runs.Initialize(a, i, v), Heaps());
    }

    /** `Modify` on a field of the major heap. */
    method Modify(a: int, i: nat, v: Value)
      requires Runs.Shape(Heaps()) && Runs.MajorField(Heaps(), a, i) && Runs.Holds(Heaps(), v)
      modifies this`major, this`refTable
      ensures Runs.Step(old(Heaps()), Runs.Modify(a, i, v), Heaps()) && Runs.Shape(Heaps())
      ensures Runs.Stored(old(major), major, a, i, v)
      ensures var was := old(major[a].fields[i]);
              var recorded := v.Ptr? && v.base in young && !(was.Ptr? && was.base in young);
              refTable == old(refTable) + if recorded then [(a, i)] else []
    {
      ghost var h := Heaps();
      var was := major[a].fields[i];
      major := major[a := major[a].(fields := major[a].fields[i := v])];
      if v.Ptr? && v.base in young && !(was.Ptr? && was.base in young) {
        refTable := refTable + [(a, i)];
      }
      Runs.StepShape(h, Runs.Modify(a, i, v), Heaps());
    }

    method Load(p: Cell) returns (w: Value)
      requires CellOk(State(), p)
      ensures w == Content(State(), p)
    {
      match p
      case Root(i) => w := roots[i];
      case Field(a, i) => w := major[a].fields[i];
    }
  }

  /** The young block that `v` leads to, if any, is in use. */
  ghost predicate InUse(g: Snapshot, v: Value) {
    IsYoung(g.young, Skip(g, v)) ==> Used(g, Skip(g, v).base)
  }

  /** What `OldifyOne` promises: cell `p` holds what `v` becomes, and nothing else that existed has changed. */
  ghost predicate Oldified(g: Snapshot, s: Copy, busy: set<int>, v: Value, p: Cell, s': Copy) {
    && Core(g, s', busy) && Extends(s.fwd, s'.fwd) && Frame(s, s', p)
    && Rel(g, s'.fwd, v, Content(s', p)) && Open(g, s', busy, p)
    && (|s'.fwd| > |s.fwd| || (s'.fwd == s.fwd && s'.list == s.list))
  }

  /** What `OldifyOne` asks for. */
  ghost predicate Start(g: Snapshot, s: Copy, busy: set<int>, v: Value, p: Cell) {
    Ready(g) && Core(g, s, busy) && InfixOk(g.young, v) && InUse(g, v) && Open(g, s, busy, p)
  }

  /** The blocks that may still move. */
  ghost function Left(g: Snapshot, s: Copy): int { |g.young| - |s.fwd| }

  function Offset(v: Value): nat { if v.Ptr? then v.ofs else 0 }

  /** A block of values with one field only. */
  predicate Single(g: Snapshot, b: int) {
    b in g.young && g.young[b].tag < INFIX_TAG && |g.young[b].fields| == 1
  }

  lemma Sizes(g: Snapshot, s: Copy, busy: set<int>)
    requires Core(g, s, busy)
    ensures Left(g, s) >= 0
  {
    assert g.young.Keys == s.fwd.Keys + (g.young.Keys - s.fwd.Keys);
  }

  lemma StartFacts(g: Snapshot, s: Copy, busy: set<int>, v: Value, p: Cell)
    requires Start(g, s, busy, v, p)
    ensures Left(g, s) >= 0 && 0 !in s.major && CellOk(s, p)
    ensures IsYoung(s.young, v) <==> IsYoung(g.young, v)
    ensures IsYoung(s.young, v) ==>
              var b := v.base;
              && |s.young[b].fields| > 0 && |g.young[b].fields| > 0
              && (s.young[b].moved <==> b in s.fwd)
              && (if b in s.fwd then s.young[b].fields[0] == Ptr(s.fwd[b], 0) else s.young[b] == g.young[b])
  {
    Sizes(g, s, busy);
    if IsYoung(s.young, v) {
      assert YoungGood(g, v.base) && s.young[v.base] == YoungNow(g, s.fwd, v.base);
    }
  }

  lemma OpenOk(g: Snapshot, s: Copy, busy: set<int>, p: Cell)
    requires Open(g, s, busy, p)
    ensures CellOk(s, p)
  {
  }

  lemma OpenKept(g: Snapshot, s: Copy, busy: set<int>, p: Cell, s': Copy, q: Cell, busy': set<int>)
    requires Open(g, s, busy, p) && Frame(s, s', q) && Extends(s.fwd, s'.fwd) && forall b :: b in busy ==> b in busy'
    ensures Open(g, s', busy', p)
  {
  }

  // ---- Values that need no copy ---------------------------------------------------------------------

  /** Writing the new value in `p` completes the work. */
  lemma StoreLast(g: Snapshot, s: Copy, busy: set<int>, v: Value, p: Cell, s1: Copy, w: Value)
    requires Core(g, s1, busy) && Open(g, s1, busy, p) && Extends(s.fwd, s1.fwd) && Frame(s, s1, p)
    requires Rel(g, s1.fwd, v, w) && (|s1.fwd| > |s.fwd| || (s1.fwd == s.fwd && s1.list == s.list))
    ensures CellOk(s1, p) && Stored(s1, p, w).fwd == s1.fwd && Oldified(g, s, busy, v, p, Stored(s1, p, w))
  {
    OpenOk(g, s1, busy, p);
    var s2 := Stored(s1, p, w);
    assert s2.fwd == s1.fwd && s2.list == s1.list;
    hide Core, Open, Rel, Stored, Frame, Content;
    StoreCore(g, s1, busy, p, w);
    OpenKept(g, s1, busy, p, s2, p, busy);
    FrameTrans(s, s1, s2, p);
  }

  lemma FrameSame(s: Copy, p: Cell)
    ensures Frame(s, s, p)
  {
  }

  lemma OldifyOther(g: Snapshot, s: Copy, busy: set<int>, v: Value, p: Cell)
    requires Start(g, s, busy, v, p) && !IsYoung(g.young, v)
    ensures CellOk(s, p) && Oldified(g, s, busy, v, p, Stored(s, p, v))
  {
    hide Core, Open, Ready, InfixOk, InUse, Frame, Oldified, Stored;
    FrameSame(s, p);
    StoreLast(g, s, busy, v, p, s, v);
  }

  lemma OldifyMoved(g: Snapshot, s: Copy, busy: set<int>, v: Value, p: Cell)
    requires Start(g, s, busy, v, p) && IsYoung(g.young, v) && v.ofs == 0 && v.base in s.fwd
    ensures CellOk(s, p) && Oldified(g, s, busy, v, p, Stored(s, p, Ptr(s.fwd[v.base], 0)))
  {
    assert s.fwd[v.base] in s.major && Skip(g, v) == v;
    hide Core, Open, Ready, InfixOk, InUse, Frame, Oldified, Stored;
    FrameSame(s, p);
    StoreLast(g, s, busy, v, p, s, Ptr(s.fwd[v.base], 0));
  }

  // ---- Infix headers and forwarding blocks ------------------------------------------------------------

  lemma InfixFacts(g: Snapshot, s: Copy, busy: set<int>, v: Value, p: Cell)
    requires Start(g, s, busy, v, p) && IsYoung(g.young, v) && v.ofs > 0
    ensures Start(g, s, busy, Ptr(v.base, 0), p) && Left(g, s) >= 0
    ensures Skip(g, v) == v && Skip(g, Ptr(v.base, 0)) == Ptr(v.base, 0) && RankOf(g, v) == RankOf(g, Ptr(v.base, 0))
  {
    Sizes(g, s, busy);
    hide Core, Ready, Open, Used;
  }

  lemma OldifyInfix(g: Snapshot, s: Copy, busy: set<int>, v: Value, p: Cell, s1: Copy)
    requires IsYoung(g.young, v) && Skip(g, v) == v && Skip(g, Ptr(v.base, 0)) == Ptr(v.base, 0)
    requires Oldified(g, s, busy, Ptr(v.base, 0), p, s1)
    ensures CellOk(s1, p) && v.base in s1.fwd && Content(s1, p) == Ptr(s1.fwd[v.base], 0)
    ensures Oldified(g, s, busy, v, p, Stored(s1, p, Ptr(s1.fwd[v.base], v.ofs)))
  {
    hide Core, Frame, Open, Stored;
    OpenOk(g, s1, busy, p);
    StoreLast(g, s, busy, v, p, s1, Ptr(s1.fwd[v.base], v.ofs));
  }

  lemma ForwardFacts(g: Snapshot, s: Copy, busy: set<int>, v: Value, p: Cell)
    requires Start(g, s, busy, v, p) && IsYoungForward(g.young, v)
    ensures var w := g.young[v.base].fields[0];
            Start(g, s, busy, w, p) && Skip(g, w) == Skip(g, v) && RankOf(g, w) < RankOf(g, v)
  {
    assert YoungGood(g, v.base) && g.young[v.base].fields[0] in g.young[v.base].fields;
    hide Core, Open, Used;
  }

  lemma OldifyForward(g: Snapshot, s: Copy, busy: set<int>, v: Value, p: Cell, s': Copy)
    requires IsYoungForward(g.young, v) && Skip(g, g.young[v.base].fields[0]) == Skip(g, v)
    requires Oldified(g, s, busy, g.young[v.base].fields[0], p, s')
    ensures Oldified(g, s, busy, v, p, s')
  {
    hide Core, Frame;
  }

  // ---- Blocks that move ---------------------------------------------------------------------------------

  lemma OldifyBlock(g: Snapshot, s: Copy, busy: set<int>, v: Value, p: Cell, r: int, nf: seq<Value>, busy': set<int>)
    requires Start(g, s, busy, v, p) && IsYoung(g.young, v) && v.ofs == 0 && v.base !in s.fwd &&
             g.young[v.base].tag != FORWARD_TAG
    requires r != 0 && r !in s.young && r !in s.major && |nf| == |g.young[v.base].fields| > 0
    requires g.young[v.base].tag < INFIX_TAG && |nf| > 1 ==>
             nf[0] == g.young[v.base].fields[0] && nf[1] == Ptr(s.todo, 0)
    requires !HoldsValues(g.young[v.base].tag) ==> nf == g.young[v.base].fields
    requires busy' == if Single(g, v.base) then busy + {v.base} else busy
    ensures var s1 := Moved(g, s, v.base, r, nf, g.young[v.base].tag < INFIX_TAG && |nf| > 1);
            && CellOk(s1, p) && |s.fwd| < |s1.fwd| && Oldified(g, s, busy', v, p, Stored(s1, p, Ptr(r, 0)))
            && v.base in s1.fwd && s1.fwd[v.base] == r && Stored(s1, p, Ptr(r, 0)).fwd == s1.fwd
  {
    var b := v.base;
    var push := g.young[b].tag < INFIX_TAG && |nf| > 1;
    var s1 := Moved(g, s, b, r, nf, push);
    BlockFacts(g, s, busy, v, p, r, nf);
    MovedFwd(g, s, v, r, nf, push);
    hide *;
    MoveCore(g, s, busy, b, r, nf, push, busy');
    MoveFrame(g, s, b, r, nf, push, p);
    OpenKept(g, s, busy, p, s1, p, busy');
    StoreLast(g, s, busy', v, p, s1, Ptr(r, 0));
  }

  lemma MovedFwd(g: Snapshot, s: Copy, v: Value, r: int, nf: seq<Value>, push: bool)
    requires IsYoung(g.young, v) && v.ofs == 0 && v.base !in s.fwd && Skip(g, v) == v
    ensures var s1 := Moved(g, s, v.base, r, nf, push);
            v.base in s1.fwd && s1.fwd[v.base] == r && |s1.fwd| > |s.fwd| && Rel(g, s1.fwd, v, Ptr(r, 0))
  {
    var s1 := Moved(g, s, v.base, r, nf, push);
    assert s1.fwd.Keys == s.fwd.Keys + {v.base};
  }

  lemma BlockFacts(g: Snapshot, s: Copy, busy: set<int>, v: Value, p: Cell, r: int, nf: seq<Value>)
    requires Start(g, s, busy, v, p) && IsYoung(g.young, v) && v.ofs == 0 && v.base !in s.fwd &&
             g.young[v.base].tag != FORWARD_TAG
    requires r != 0 && r !in s.young && r !in s.major && |nf| == |g.young[v.base].fields| > 0
    ensures Movable(g, s, v.base, r, nf) && v.base !in busy && Skip(g, v) == v && g.young[v.base].tag != INFIX_TAG
    ensures Core(g, s, busy) && Open(g, s, busy, p) && IsYoung(g.young, v) &&
            (Single(g, v.base) <==> g.young[v.base].tag < INFIX_TAG && |nf| == 1)
  {
    assert YoungGood(g, v.base);
  }

  lemma FieldInUse(g: Snapshot, c: int, v: Value)
    requires Ready(g) && c in g.young && Used(g, c) && HoldsValues(g.young[c].tag) && v in g.young[c].fields
    ensures InfixOk(g.young, v) && InUse(g, v)
  {
    assert YoungGood(g, c);
    if IsYoung(g.young, Skip(g, v)) {
      var n: nat :| UsedN(g, c, n);
      assert LeadsTo(g, v, Skip(g, v).base);
      assert UsedN(g, Skip(g, v).base, n + 1);
    }
  }

  /** What the single field of a block that has just moved needs to be oldified in turn. */
  lemma SingleFacts(g: Snapshot, s: Copy, v: Value, p: Cell, r: int, busy': set<int>, s2: Copy)
    requires Ready(g) && IsYoung(g.young, v) && g.young[v.base].tag < INFIX_TAG && |g.young[v.base].fields| == 1
    requires Oldified(g, s, busy', v, p, s2) && v.base in busy' && v.base in s2.fwd && s2.fwd[v.base] == r
    ensures Start(g, s2, busy', g.young[v.base].fields[0], Field(r, 0)) && Left(g, s2) >= 0
  {
    var b := v.base;
    Sizes(g, s2, busy');
    assert s2.fwd[b] == r && Used(g, b);
    ListedNotBusy(g, s2, busy', b);
    assert Open(g, s2, busy', Field(r, 0));
    FieldInUse(g, b, g.young[b].fields[0]);
  }

  lemma ListedNotBusy(g: Snapshot, s: Copy, busy: set<int>, b: int)
    requires ListState(g, s, busy) && b in busy
    ensures b !in s.list
  {
    forall i | 0 <= i < |s.list| ensures s.list[i] != b { assert HalfCopied(g, s, i); }
  }

  lemma SingleFrame(s: Copy, p: Cell, r: int, s2: Copy, s3: Copy)
    requires Frame(s, s2, p) && Frame(s2, s3, Field(r, 0)) && r !in s.major && CellOk(s, p)
    ensures Frame(s, s3, p) && Content(s3, p) == Content(s2, p)
  {
  }

  lemma SingleDone(g: Snapshot, b: int, r: int, busy: set<int>, busy': set<int>, s: Copy)
    requires b in g.young && g.young[b].tag < INFIX_TAG && |g.young[b].fields| == 1 && b in s.fwd && s.fwd[b] == r
    requires Core(g, s, busy') && busy' == busy + {b} && Rel(g, s.fwd, g.young[b].fields[0], Content(s, Field(r, 0)))
    ensures Core(g, s, busy)
  {
    assert s.fwd[b] in s.major;
    ListedNotBusy(g, s, busy', b);
    assert RelBlock(g, s.fwd, g.young[b].tag, g.young[b].fields, s.major[r]) by { hide Rel; }
    hide RelBlock, Rel;
    EndBusy(g, s, busy', b, busy);
  }

  lemma OldifySingle(g: Snapshot, s: Copy, busy: set<int>, v: Value, p: Cell, r: int, busy': set<int>, s2: Copy,
                     s3: Copy)
    requires IsYoung(g.young, v) && g.young[v.base].tag < INFIX_TAG && |g.young[v.base].fields| == 1
    requires Open(g, s, busy, p) && r !in s.major && |s2.fwd| > |s.fwd| && busy' == busy + {v.base}
    requires Oldified(g, s, busy', v, p, s2) && v.base in s2.fwd && s2.fwd[v.base] == r
    requires Oldified(g, s2, busy', g.young[v.base].fields[0], Field(r, 0), s3)
    ensures Oldified(g, s, busy, v, p, s3)
  {
    hide Core, Frame, Rel, Open, Content, Skip;
    assert s3.fwd[v.base] == r;
    SingleDone(g, v.base, r, busy, busy', s3);
    OpenOk(g, s, busy, p);
    SingleFrame(s, p, r, s2, s3);
    RelMore(g, s2.fwd, s3.fwd, v, Content(s3, p));
    OpenKept(g, s, busy, p, s3, p, busy);
  }

  // ---- The to-do list -----------------------------------------------------------------------------------

  /** The roots and the blocks that were in the major heap before the collection are as in `s`. */
  ghost predicate OldSame(g: Snapshot, s: Copy, s': Copy) {
    && s'.roots == s.roots
    && forall a {:trigger a in g.major} :: a in g.major && a in s.major ==> a in s'.major && s'.major[a] == s.major[a]
  }

  lemma OldSameRefl(g: Snapshot, s: Copy)
    ensures OldSame(g, s, s) && Extends(s.fwd, s.fwd)
  {
  }

  lemma OldSameTrans(g: Snapshot, s: Copy, s1: Copy, s2: Copy)
    requires OldSame(g, s, s1) && OldSame(g, s1, s2) && Extends(s.fwd, s1.fwd) && Extends(s1.fwd, s2.fwd)
    ensures OldSame(g, s, s2) && Extends(s.fwd, s2.fwd)
  {
  }

  lemma TodoListed(g: Snapshot, s: Copy)
    requires Ready(g) && Core(g, s, {})
    ensures s.todo == 0 <==> s.list == []
    ensures |s.list| > 0 ==> s.todo == s.list[0]
  {
    if |s.list| > 0 {
      assert HalfCopied(g, s, 0);
      assert YoungGood(g, s.list[0]);
    }
  }

  /** The first `i` fields of block `v`, now at `newV`, are filled in; `s1` is the state when its filling started. */
  ghost predicate Filling(g: Snapshot, s1: Copy, s: Copy, v: int, newV: int, i: int) {
    && Ready(g) && Core(g, s, {v}) && Extends(s1.fwd, s.fwd) && OldSame(g, s1, s)
    && v in g.young && v in s.fwd && s.fwd[v] == newV && newV !in g.major && g.young[v].tag < INFIX_TAG
    && newV in s.major && 0 <= i <= |s.major[newV].fields| == |g.young[v].fields|
    && Filled(g, s, v, newV, i)
    && (|s.fwd| > |s1.fwd| || (s.fwd == s1.fwd && s.list == s1.list))
  }

  ghost predicate Filled(g: Snapshot, s: Copy, v: int, newV: int, i: int) {
    forall j {:trigger s.major[newV].fields[j]} ::
      0 <= j < i && v in g.young && newV in s.major && j < |s.major[newV].fields| == |g.young[v].fields| ==>
      Rel(g, s.fwd, g.young[v].fields[j], s.major[newV].fields[j])
  }

  lemma FillStart(g: Snapshot, s: Copy, s1: Copy, v: int, newV: int)
    requires Ready(g) && Core(g, s, {}) && |s.list| > 0 && s1 == Popped(s) && v == s.list[0] && Core(g, s1, {v})
    requires HalfCopied(g, s, 0) && newV == s.fwd[v]
    ensures Filling(g, s1, s1, v, newV, 0) && |s1.major[newV].fields| > 1 &&
            s1.major[newV].fields[0] == g.young[v].fields[0]
  {
    assert s.fwd[v] !in g.major;
    hide Core, Ready;
  }

  lemma FieldStart(g: Snapshot, s: Copy, v: int, newV: int, i: nat, f: Value)
    requires Ready(g) && Core(g, s, {v}) && v in g.young && v in s.fwd && s.fwd[v] == newV
    requires newV in s.major && i < |s.major[newV].fields| && g.young[v].tag < INFIX_TAG && f in g.young[v].fields
    ensures Start(g, s, {v}, f, Field(newV, i))
    ensures IsYoung(s.young, f) <==> IsYoung(g.young, f)
  {
    assert s.fwd[v] == newV && v in {v};
    FieldInUse(g, v, f);
  }

  lemma FillSource(g: Snapshot, s1: Copy, s: Copy, v: int, newV: int, i: int)
    requires Filling(g, s1, s, v, newV, i) && 1 <= i < |s.major[newV].fields|
    ensures v in s.young && |s.young[v].fields| == |g.young[v].fields|
    ensures s.young[v].fields[i] == g.young[v].fields[i] && s.young[v].fields[i] in g.young[v].fields
  {
    hide Ready, Filled;
    assert YoungState(g, s) by { hide ListState, FwdState, MajorState, Contents; }
    hide Core;
    assert s.young[v] == YoungNow(g, s.fwd, v);
  }

  lemma FillOthers(g: Snapshot, s: Copy, s': Copy, newV: int, i: nat)
    requires Frame(s, s', Field(newV, i)) && newV !in g.major
    ensures OldSame(g, s, s')
  {
    assert s'.roots == s.roots;
    forall a | a in g.major && a in s.major ensures a in s'.major && s'.major[a] == s.major[a] {
      assert s'.major[a].fields == s.major[a].fields;
    }
  }

  lemma FillRels(g: Snapshot, s: Copy, s': Copy, v: int, newV: int, i: nat)
    requires v in g.young && newV in s.major && newV in s'.major &&
             i < |s.major[newV].fields| == |s'.major[newV].fields| == |g.young[v].fields|
    requires Filled(g, s, v, newV, i) && Frame(s, s', Field(newV, i)) && Extends(s.fwd, s'.fwd)
    requires Rel(g, s'.fwd, g.young[v].fields[i], s'.major[newV].fields[i])
    ensures Filled(g, s', v, newV, i + 1)
  {
    hide Rel;
    forall j | 0 <= j < i ensures Rel(g, s'.fwd, g.young[v].fields[j], s'.major[newV].fields[j]) {
      assert s'.major[newV].fields[j] == s.major[newV].fields[j];
      RelMore(g, s.fwd, s'.fwd, g.young[v].fields[j], s.major[newV].fields[j]);
    }
  }

  lemma FillNext(g: Snapshot, s1: Copy, s: Copy, s': Copy, v: int, newV: int, i: int)
    requires Filling(g, s1, s, v, newV, i) && 0 <= i < |s.major[newV].fields|
    requires Oldified(g, s, {v}, g.young[v].fields[i], Field(newV, i), s')
    ensures Filling(g, s1, s', v, newV, i + 1)
  {
    hide Ready, Core, Rel, Filled, Open;
    assert newV in s.major && SameShape(s.major[newV].tag, s.major[newV].fields, s'.major[newV]);
    FillRels(g, s, s', v, newV, i);
    FillOthers(g, s, s', newV, i);
    hide Frame, OldSame;
    OldSameTrans(g, s1, s, s');
    assert s'.fwd[v] == newV;
  }

  lemma FillEnd(g: Snapshot, s: Copy, s1: Copy, s': Copy, v: int, newV: int, i: int)
    requires |s.list| > 0 && s1 == Popped(s) && Filling(g, s1, s', v, newV, i) && i >= |s'.major[newV].fields|
    ensures Core(g, s', {}) && Extends(s.fwd, s'.fwd) && OldSame(g, s, s')
    ensures Left(g, s') < Left(g, s) || (Left(g, s') == Left(g, s) && |s'.list| < |s.list|)
  {
    hide Core, Rel, Ready;
    assert RelBlock(g, s'.fwd, g.young[v].tag, g.young[v].fields, s'.major[newV]) by {
      FillShape(g, s1, s', v, newV, i);
    }
    EndBusy(g, s', {v}, v, {});
  }

  lemma FillShape(g: Snapshot, s1: Copy, s: Copy, v: int, newV: int, i: int)
    requires Filling(g, s1, s, v, newV, i)
    ensures s.major[newV].tag == g.young[v].tag
  {
    ListedNotBusy(g, s, {v}, v);
    assert s.fwd[v] == newV;
  }

  // ---- The roots and the reference table -------------------------------------------------------------------

  /** The first `i` roots are redirected, the others are as before. */
  ghost predicate RootsAt(g: Snapshot, s: Copy, i: int) {
    && |s.roots| == |g.roots|
    && forall j {:trigger s.roots[j]} :: 0 <= j < |g.roots| ==>
         if j < i then Rel(g, s.fwd, g.roots[j], s.roots[j]) else s.roots[j] == g.roots[j]
  }

  predicate CellAt(g: Snapshot, fwd: map<int, int>, v: Value, w: Value) { w == v || Rel(g, fwd, v, w) }

  /** A block that was in the major heap before: its fields are as before, or redirected. */
  ghost predicate BlockAt(g: Snapshot, s: Copy, a: int) {
    && a in g.major && a in s.major && SameShape(g.major[a].tag, g.major[a].fields, s.major[a])
    && if !HoldsValues(g.major[a].tag) then s.major[a].fields == g.major[a].fields
       else forall i {:trigger s.major[a].fields[i]} :: 0 <= i < |g.major[a].fields| ==>
         CellAt(g, s.fwd, g.major[a].fields[i], s.major[a].fields[i])
  }

  ghost predicate CellsAt(g: Snapshot, s: Copy) {
    forall a {:trigger a in g.major} :: a in g.major ==> BlockAt(g, s, a)
  }

  /** The cell of entry `k` of the reference table is redirected. */
  ghost predicate RefAt(g: Snapshot, s: Copy, k: int) {
    && 0 <= k < |g.refs| && RefOk(g.major, g.refs[k])
    && var (a, i) := g.refs[k];
       a in s.major && i < |s.major[a].fields| && Rel(g, s.fwd, g.major[a].fields[i], s.major[a].fields[i])
  }

  ghost predicate RefsAt(g: Snapshot, s: Copy, k: int) {
    forall j {:trigger RefAt(g, s, j)} :: 0 <= j < k ==> RefAt(g, s, j)
  }

  lemma CopyStart(g: Snapshot, s: Copy)
    requires Ready(g) && s == Copy(g.young, g.major, g.roots, 0, map[], [])
    ensures Core(g, s, {}) && RootsAt(g, s, 0) && CellsAt(g, s)
  {
    hide Rel;
    forall a | a in g.major ensures a !in g.young { assert YoungGood(g, a); }
  }

  lemma CopyNothing(g: Snapshot, s: Copy)
    requires Ready(g) && g.young == map[] && s == Copy(g.young, g.major, g.roots, 0, map[], [])
    ensures Promoted(g, map[], g.major, g.roots)
  {
  }

  lemma RootsSize(g: Snapshot, s: Copy, i: int)
    requires RootsAt(g, s, i)
    ensures |s.roots| == |g.roots|
  {
  }

  lemma RefsNone(g: Snapshot, s: Copy)
    ensures RefsAt(g, s, 0)
  {
  }

  lemma RootStart(g: Snapshot, s: Copy, i: nat)
    requires Ready(g) && Core(g, s, {}) && RootsAt(g, s, i) && i < |g.roots|
    ensures s.roots[i] == g.roots[i] && Start(g, s, {}, g.roots[i], Root(i))
  {
    var v := g.roots[i];
    assert v in g.roots && s.roots[i] == v && Proper(g.young, g.major, v);
    assert Open(g, s, {}, Root(i)) by { hide ListState, Contents, FwdState, YoungState; }
    assert InUse(g, v) by {
      if IsYoung(g.young, Skip(g, v)) {
        assert LeadsTo(g, v, Skip(g, v).base);
        assert UsedN(g, Skip(g, v).base, 0);
      }
    }
    hide Core;
  }

  lemma CellMore(g: Snapshot, s: Copy, s': Copy, a: int)
    requires BlockAt(g, s, a) && Extends(s.fwd, s'.fwd) && a in s'.major && s'.major[a] == s.major[a]
    ensures BlockAt(g, s', a)
  {
    hide Rel;
    if HoldsValues(g.major[a].tag) {
      forall i | 0 <= i < |g.major[a].fields| ensures CellAt(g, s'.fwd, g.major[a].fields[i], s'.major[a].fields[i]) {
        var v, w := g.major[a].fields[i], s.major[a].fields[i];
        assert CellAt(g, s.fwd, v, w);
        if Rel(g, s.fwd, v, w) { RelMore(g, s.fwd, s'.fwd, v, w); }
      }
    }
  }

  lemma FrameBlock(g: Snapshot, s: Copy, s': Copy, p: Cell, a: int)
    requires Frame(s, s', p) && a in s.major && (p.Field? ==> p.a != a)
    ensures a in s'.major && s'.major[a] == s.major[a]
  {
    assert s'.major[a].fields == s.major[a].fields;
  }

  lemma RootStep(g: Snapshot, s: Copy, s': Copy, i: nat)
    requires RootsAt(g, s, i) && CellsAt(g, s) && i < |g.roots| && Oldified(g, s, {}, g.roots[i], Root(i), s')
    ensures Core(g, s', {}) && RootsAt(g, s', i + 1) && CellsAt(g, s')
  {
    hide Core, Rel, Open;
    forall a | a in g.major ensures BlockAt(g, s', a) {
      FrameBlock(g, s, s', Root(i), a);
      CellMore(g, s, s', a);
    }
    hide CellsAt, BlockAt;
    forall j | 0 <= j < i ensures Rel(g, s'.fwd, g.roots[j], s'.roots[j]) {
      assert s'.roots[j] == s.roots[j];
      RelMore(g, s.fwd, s'.fwd, g.roots[j], s.roots[j]);
    }
  }

  /** A redirected value is not young. */
  lemma RelNotYoung(g: Snapshot, s: Copy, busy: set<int>, v: Value, w: Value)
    requires Core(g, s, busy) && Rel(g, s.fwd, v, w)
    ensures !IsYoung(g.young, w)
  {
  }

  lemma RefStart(g: Snapshot, s: Copy, k: nat)
    requires Ready(g) && Core(g, s, {}) && CellsAt(g, s) && k < |g.refs|
    ensures RefOk(g.major, g.refs[k]) && RefOk(s.major, g.refs[k])
    ensures var (a, i) := g.refs[k]; Start(g, s, {}, s.major[a].fields[i], Field(a, i))
  {
    var (a, i) := g.refs[k];
    assert g.refs[k] in g.refs && RefOk(g.major, g.refs[k]) && a in g.major && BlockAt(g, s, a);
    var v, w := g.major[a].fields[i], s.major[a].fields[i];
    assert CellAt(g, s.fwd, v, w) && v in g.major[a].fields;
    assert Proper(g.young, g.major, v);
    if w == v {
      if IsYoung(g.young, Skip(g, v)) {
        assert LeadsTo(g, v, Skip(g, v).base);
        assert UsedN(g, Skip(g, v).base, 0);
      }
    } else {
      RelNotYoung(g, s, {}, v, w);
    }
    hide Core;
  }

  /** Redirecting a cell that may have been redirected already. */
  lemma CellAgain(g: Snapshot, s: Copy, s': Copy, v: Value, w: Value, w': Value)
    requires Core(g, s, {}) && CellAt(g, s.fwd, v, w) && Extends(s.fwd, s'.fwd) && Rel(g, s'.fwd, w, w')
    ensures Rel(g, s'.fwd, v, w')
  {
    if w != v { RelNotYoung(g, s, {}, v, w); }
  }

  lemma RefCell(g: Snapshot, s: Copy, s': Copy, k: nat)
    requires Core(g, s, {}) && k < |g.refs| && RefOk(g.major, g.refs[k]) && BlockAt(g, s, g.refs[k].0)
    requires Oldified(g, s, {}, s.major[g.refs[k].0].fields[g.refs[k].1], Field(g.refs[k].0, g.refs[k].1), s')
    ensures RefAt(g, s', k) && BlockAt(g, s', g.refs[k].0)
  {
    var (a, i) := g.refs[k];
    hide Core, Rel, Open;
    assert a in s.major && SameShape(s.major[a].tag, s.major[a].fields, s'.major[a]);
    CellAgain(g, s, s', g.major[a].fields[i], s.major[a].fields[i], s'.major[a].fields[i]);
    forall j | 0 <= j < |g.major[a].fields| ensures CellAt(g, s'.fwd, g.major[a].fields[j], s'.major[a].fields[j]) {
      var v, w := g.major[a].fields[j], s.major[a].fields[j];
      if j != i {
        assert CellAt(g, s.fwd, v, w) && s'.major[a].fields[j] == w;
        if Rel(g, s.fwd, v, w) { RelMore(g, s.fwd, s'.fwd, v, w); }
      }
    }
  }

  lemma RefMore(g: Snapshot, s: Copy, s': Copy, p: Cell, j: int)
    requires RefAt(g, s, j) && Frame(s, s', p) && Extends(s.fwd, s'.fwd) && p != Field(g.refs[j].0, g.refs[j].1)
    ensures RefAt(g, s', j)
  {
    hide Rel;
    var (a, i) := g.refs[j];
    assert a in s.major;
    assert s'.major[a].fields[i] == s.major[a].fields[i];
    RelMore(g, s.fwd, s'.fwd, g.major[a].fields[i], s.major[a].fields[i]);
  }

  lemma RefStep(g: Snapshot, s: Copy, s': Copy, k: nat)
    requires Core(g, s, {}) && RootsAt(g, s, |g.roots|) && CellsAt(g, s) && RefsAt(g, s, k) && k < |g.refs| &&
             RefOk(g.major, g.refs[k]) && RefOk(s.major, g.refs[k])
    requires var (a, i) := g.refs[k]; Oldified(g, s, {}, s.major[a].fields[i], Field(a, i), s')
    ensures Core(g, s', {}) && RootsAt(g, s', |g.roots|) && CellsAt(g, s') && RefsAt(g, s', k + 1)
  {
    var (a, i) := g.refs[k];
    var p := Field(a, i);
    assert BlockAt(g, s, a);
    RefCell(g, s, s', k);
    hide Core, Rel, Open, BlockAt;
    forall b | b in g.major ensures BlockAt(g, s', b) {
      if b != a {
        assert BlockAt(g, s, b) && b in s.major by { BlockIn(g, s, b); }
        FrameBlock(g, s, s', p, b);
        CellMore(g, s, s', b);
      }
    }
    hide CellsAt;
    forall j | 0 <= j < k ensures RefAt(g, s', j) {
      assert RefAt(g, s, j);
      if p != Field(g.refs[j].0, g.refs[j].1) {
        RefMore(g, s, s', p, j);
      } else {
        assert g.refs[j] == g.refs[k];
        RefSame(g, s', k, j);
      }
    }
    hide RefsAt, RefAt;
    forall j | 0 <= j < |g.roots| ensures Rel(g, s'.fwd, g.roots[j], s'.roots[j]) {
      assert s'.roots[j] == s.roots[j];
      RelMore(g, s.fwd, s'.fwd, g.roots[j], s.roots[j]);
    }
  }

  lemma BlockIn(g: Snapshot, s: Copy, a: int)
    requires CellsAt(g, s) && a in g.major
    ensures BlockAt(g, s, a) && a in s.major
  {
  }

  lemma RefSame(g: Snapshot, s: Copy, k: int, j: int)
    requires RefAt(g, s, k) && 0 <= j < |g.refs| && g.refs[j] == g.refs[k]
    ensures RefAt(g, s, j)
  {
  }

  // ---- The end -----------------------------------------------------------------------------------------------

  /** A field that the reference table does not list holds no young pointer, and has not changed. */
  lemma FieldEnd(g: Snapshot, s: Copy, a: int, i: nat)
    requires Ready(g) && BlockAt(g, s, a) && RefsAt(g, s, |g.refs|) && HoldsValues(g.major[a].tag) &&
             i < |g.major[a].fields|
    ensures Rel(g, s.fwd, g.major[a].fields[i], s.major[a].fields[i])
  {
    var v, w := g.major[a].fields[i], s.major[a].fields[i];
    assert CellAt(g, s.fwd, v, w);
    if IsYoung(g.young, v) {
      assert Covered(g.young, g.major, g.refs) && g.major[a].fields[i] == v;
      assert (a, i) in g.refs;
      var k :| 0 <= k < |g.refs| && g.refs[k] == (a, i);
      assert RefAt(g, s, k);
    }
  }

  lemma CopyEnd(g: Snapshot, s: Copy, s': Copy)
    requires Ready(g) && Core(g, s', {}) && s'.list == [] && Extends(s.fwd, s'.fwd) && OldSame(g, s, s')
    requires RootsAt(g, s, |g.roots|) && CellsAt(g, s) && RefsAt(g, s, |g.refs|)
    ensures Promoted(g, s'.fwd, s'.major, s'.roots)
  {
    forall a | a in g.major
      ensures a in s'.major && RelBlock(g, s'.fwd, g.major[a].tag, g.major[a].fields, s'.major[a])
    {
      OldEnd(g, s, s', a);
    }
    forall j | 0 <= j < |g.roots| ensures Rel(g, s'.fwd, g.roots[j], s'.roots[j]) {
      assert s'.roots[j] == s.roots[j];
      RelMore(g, s.fwd, s'.fwd, g.roots[j], s.roots[j]);
    }
    hide RelBlock, Rel, Ready, CellsAt, RefsAt, Used, HalfCopied;
  }

  lemma OldEnd(g: Snapshot, s: Copy, s': Copy, a: int)
    requires Ready(g) && Extends(s.fwd, s'.fwd) && OldSame(g, s, s') && CellsAt(g, s) && RefsAt(g, s, |g.refs|) &&
             a in g.major
    ensures a in s'.major && RelBlock(g, s'.fwd, g.major[a].tag, g.major[a].fields, s'.major[a])
  {
    hide Ready, RefsAt, Rel;
    BlockIn(g, s, a);
    assert s'.major[a] == s.major[a];
    if HoldsValues(g.major[a].tag) {
      forall i | 0 <= i < |g.major[a].fields| ensures Rel(g, s'.fwd, g.major[a].fields[i], s'.major[a].fields[i]) {
        FieldEnd(g, s, a, i);
        RelMore(g, s.fwd, s'.fwd, g.major[a].fields[i], s.major[a].fields[i]);
      }
    }
  }
}
