/** What holds at every point of a minor collection, and the steps that keep it. */
module MinorCopy {
  import opened GcHeap
  import opened MinorSpec

  datatype Cell = Root(i: nat) | Field(a: int, i: nat)

  /** `busy` blocks are being filled in; the others are on the to-do list, or done. */
  ghost predicate Core(g: Snapshot, s: Copy, busy: set<int>) {
    YoungState(g, s) && FwdState(g, s) && MajorState(g, s) && ListState(g, s, busy) && Contents(g, s, busy)
  }

  function YoungNow(g: Snapshot, fwd: map<int, int>, b: int): Young
    requires b in g.young
  {
    if b in fwd && |g.young[b].fields| > 0 then Young(true, g.young[b].tag, g.young[b].fields[0 := Ptr(fwd[b], 0)])
      else g.young[b]
  }

  ghost predicate YoungState(g: Snapshot, s: Copy) {
    s.young.Keys == g.young.Keys && forall b {:trigger s.young[b]} :: b in g.young ==>
      s.young[b] == YoungNow(g, s.fwd, b)
  }

  ghost predicate FwdState(g: Snapshot, s: Copy) {
    && s.fwd.Keys <= g.young.Keys && Injective(s.fwd)
    && forall b {:trigger s.fwd[b]} :: b in s.fwd ==>
         && s.fwd[b] != 0 && s.fwd[b] !in g.young && s.fwd[b] !in g.major && s.fwd[b] in s.major
         && g.young[b].tag != FORWARD_TAG && Used(g, b)
  }

  predicate SameShape(tag: nat, fs: seq<Value>, b: Old) { b.tag == tag && |b.fields| == |fs| }

  ghost predicate MajorState(g: Snapshot, s: Copy) {
    && |s.roots| == |g.roots| && 0 !in s.major
    && (forall a {:trigger a in g.major} :: a in g.major ==>
        a in s.major && SameShape(g.major[a].tag, g.major[a].fields, s.major[a]))
    && (forall a {:trigger a in s.major} :: a in s.major ==>
        a !in g.young && (a in g.major || exists b :: b in s.fwd && s.fwd[b] == a))
  }

  function Head(list: seq<int>): int { if list == [] then 0 else list[0] }

  ghost predicate ListState(g: Snapshot, s: Copy, busy: set<int>) {
    && s.todo == Head(s.list)
    && (forall i, j {:trigger s.list[i], s.list[j]} :: 0 <= i < j < |s.list| ==> s.list[i] != s.list[j])
    && (forall i {:trigger HalfCopied(g, s, i)} :: 0 <= i < |s.list| ==> s.list[i] !in busy && HalfCopied(g, s, i))
  }

  /** Block `i` of the list: its first field is in place, and its second field is the link. */
  predicate HalfCopied(g: Snapshot, s: Copy, i: int) {
    && 0 <= i < |s.list|
    && var b := s.list[i];
    && b in s.fwd && b in g.young && s.fwd[b] in s.major && |g.young[b].fields| > 1 && g.young[b].tag < INFIX_TAG
    && SameShape(g.young[b].tag, g.young[b].fields, s.major[s.fwd[b]])
    && s.major[s.fwd[b]].fields[0] == g.young[b].fields[0]
    && s.major[s.fwd[b]].fields[1] == Ptr(Head(s.list[i+1..]), 0)
  }

  ghost predicate Contents(g: Snapshot, s: Copy, busy: set<int>) {
    && (forall b :: b in busy ==> b in s.fwd)
    && forall b {:trigger s.fwd[b]} :: b in s.fwd && b in g.young && s.fwd[b] in s.major && b !in s.list ==>
      && SameShape(g.young[b].tag, g.young[b].fields, s.major[s.fwd[b]])
      && (b !in busy ==> RelBlock(g, s.fwd, g.young[b].tag, g.young[b].fields, s.major[s.fwd[b]]))
  }

  ghost predicate Extends(f: map<int, int>, f': map<int, int>) {
    forall b {:trigger f[b]} {:trigger f'[b]} :: b in f ==> b in f' && f'[b] == f[b]
  }

  function Content(s: Copy, p: Cell): Value {
    match p
    case Root(i) => if i < |s.roots| then s.roots[i] else Imm(0)
    case Field(a, i) => if a in s.major && i < |s.major[a].fields| then s.major[a].fields[i] else Imm(0)
  }

  predicate CellOk(s: Copy, p: Cell) {
    match p
    case Root(i) => i < |s.roots|
    case Field(a, i) => a in s.major && i < |s.major[a].fields|
  }

  function Stored(s: Copy, p: Cell, w: Value): Copy
    requires CellOk(s, p)
  {
    match p
    case Root(i) => s.(roots := s.roots[i := w])
    case Field(a, i) => s.(major := s.major[a := s.major[a].(fields := s.major[a].fields[i := w])])
  }

  /** A cell that the collector may write: a root, a field of an old block, or of a block being filled in. */
  ghost predicate Open(g: Snapshot, s: Copy, busy: set<int>, p: Cell) {
    && CellOk(s, p)
    && (p.Field? ==> p.a in g.major || exists b :: b in busy && b in s.fwd && s.fwd[b] == p.a)
  }

  /** Everything but cell `p` keeps its contents. */
  ghost predicate Frame(s: Copy, s': Copy, p: Cell) {
    && |s'.roots| == |s.roots|
    && (forall i {:trigger s'.roots[i]} :: 0 <= i < |s.roots| && p != Root(i) ==> s'.roots[i] == s.roots[i])
    && (forall a {:trigger a in s.major} :: a in s.major ==>
        a in s'.major && SameShape(s.major[a].tag, s.major[a].fields, s'.major[a]))
    && (forall a, i {:trigger s'.major[a].fields[i]} ::
        a in s.major && a in s'.major && 0 <= i < |s.major[a].fields| == |s'.major[a].fields| && p != Field(a, i) ==>
          s'.major[a].fields[i] == s.major[a].fields[i])
  }

  lemma FrameTrans(a: Copy, b: Copy, c: Copy, p: Cell)
    requires Frame(a, b, p) && Frame(b, c, p)
    ensures Frame(a, c, p)
  {
  }

  lemma RelMore(g: Snapshot, fwd: map<int, int>, fwd': map<int, int>, v: Value, w: Value)
    requires Extends(fwd, fwd') && Rel(g, fwd, v, w)
    ensures Rel(g, fwd', v, w)
  {
  }

  lemma RelBlockMore(g: Snapshot, fwd: map<int, int>, fwd': map<int, int>, tag: nat, vs: seq<Value>, b: Old)
    requires Extends(fwd, fwd') && RelBlock(g, fwd, tag, vs, b)
    ensures RelBlock(g, fwd', tag, vs, b)
  {
    hide Rel;
    if HoldsValues(tag) {
      forall i | 0 <= i < |vs| ensures Rel(g, fwd', vs[i], b.fields[i]) {
        RelMore(g, fwd, fwd', vs[i], b.fields[i]);
      }
    }
  }

  // ---- Writing a cell -----------------------------------------------------------------------------

  lemma StoreFrame(s: Copy, p: Cell, w: Value)
    requires CellOk(s, p)
    ensures Frame(s, Stored(s, p, w), p) && Content(Stored(s, p, w), p) == w
  {
  }

  lemma StoreHeaps(g: Snapshot, s: Copy, busy: set<int>, p: Cell, w: Value)
    requires Core(g, s, busy) && Open(g, s, busy, p)
    ensures var s' := Stored(s, p, w); YoungState(g, s') && FwdState(g, s') && MajorState(g, s')
  {
    hide ListState, Contents, Used, Injective, YoungNow;
  }

  /** A cell that may be written belongs to no block that is on the list or done. */
  lemma OpenApart(g: Snapshot, s: Copy, busy: set<int>, p: Cell, b: int)
    requires FwdState(g, s) && Open(g, s, busy, p) && p.Field? && b in s.fwd && b !in busy
    ensures s.fwd[b] != p.a
  {
    if p.a !in g.major {
      var c :| c in busy && c in s.fwd && s.fwd[c] == p.a;
    }
  }

  lemma StoreList(g: Snapshot, s: Copy, busy: set<int>, p: Cell, w: Value)
    requires Core(g, s, busy) && Open(g, s, busy, p)
    ensures ListState(g, Stored(s, p, w), busy)
  {
    var s' := Stored(s, p, w);
    hide Contents, FwdState, MajorState, YoungState, Open;
    forall i | 0 <= i < |s.list| ensures s.list[i] !in busy && HalfCopied(g, s', i) {
      assert HalfCopied(g, s, i);
      hide ListState;
      if p.Field? { OpenApart(g, s, busy, p, s.list[i]); }
    }
  }

  lemma StoreContents(g: Snapshot, s: Copy, busy: set<int>, p: Cell, w: Value)
    requires Core(g, s, busy) && Open(g, s, busy, p)
    ensures Contents(g, Stored(s, p, w), busy)
  {
    var s' := Stored(s, p, w);
    hide RelBlock, FwdState, MajorState, YoungState, ListState, Open;
    forall b | b in s.fwd && b in g.young && s.fwd[b] in s'.major && b !in s.list
      ensures SameShape(g.young[b].tag, g.young[b].fields, s'.major[s.fwd[b]])
      ensures b !in busy ==> RelBlock(g, s.fwd, g.young[b].tag, g.young[b].fields, s'.major[s.fwd[b]])
    {
      if p.Field? && b !in busy { OpenApart(g, s, busy, p, b); }
    }
  }

  lemma StoreCore(g: Snapshot, s: Copy, busy: set<int>, p: Cell, w: Value)
    requires Core(g, s, busy) && Open(g, s, busy, p)
    ensures Core(g, Stored(s, p, w), busy) && Frame(s, Stored(s, p, w), p) && Content(Stored(s, p, w), p) == w
  {
    StoreFrame(s, p, w);
    StoreHeaps(g, s, busy, p, w);
    StoreList(g, s, busy, p, w);
    StoreContents(g, s, busy, p, w);
    hide YoungState, FwdState, MajorState, ListState, Contents, Stored, Frame;
  }

  lemma EndBusy(g: Snapshot, s: Copy, busy: set<int>, b: int, busy': set<int>)
    requires Core(g, s, busy) && b in s.fwd
    requires forall c :: c in busy' ==> c in busy
    requires forall c :: c in busy && c != b ==> c in busy'
    requires b in g.young && s.fwd[b] in s.major &&
             RelBlock(g, s.fwd, g.young[b].tag, g.young[b].fields, s.major[s.fwd[b]])
    ensures Core(g, s, busy')
  {
    hide RelBlock, Used, YoungState, FwdState, MajorState;
    forall i | 0 <= i < |s.list| ensures s.list[i] !in busy' && HalfCopied(g, s, i) { assert HalfCopied(g, s, i); }
    assert Contents(g, s, busy') by { hide ListState; }
  }

  // ---- Moving a block -----------------------------------------------------------------------------

  /** Block `b` now lives at `r`, with fields `nf`; if `push`, it is on the to-do list. */
  function Moved(g: Snapshot, s: Copy, b: int, r: int, nf: seq<Value>, push: bool): Copy
    requires b in g.young
  {
    s.(young := s.young[b := YoungNow(g, s.fwd[b := r], b)],
       major := s.major[r := Old(g.young[b].tag, nf)],
       fwd := s.fwd[b := r],
       todo := if push then b else s.todo,
       list := if push then [b] + s.list else s.list)
  }

  ghost predicate Movable(g: Snapshot, s: Copy, b: int, r: int, nf: seq<Value>) {
    && b in g.young && b !in s.fwd && g.young[b].tag != FORWARD_TAG && Used(g, b)
    && r != 0 && r !in g.young && r !in s.major && |nf| == |g.young[b].fields| > 0
  }

  lemma MoveHeaps(g: Snapshot, s: Copy, busy: set<int>, b: int, r: int, nf: seq<Value>, push: bool)
    requires Core(g, s, busy) && Movable(g, s, b, r, nf)
    ensures var s' := Moved(g, s, b, r, nf, push); YoungState(g, s') && FwdState(g, s')
  {
    hide ListState, Contents, Used;
  }

  lemma MoveMajor(g: Snapshot, s: Copy, busy: set<int>, b: int, r: int, nf: seq<Value>, push: bool)
    requires Core(g, s, busy) && Movable(g, s, b, r, nf)
    ensures MajorState(g, Moved(g, s, b, r, nf, push))
  {
    var s' := Moved(g, s, b, r, nf, push);
    hide ListState, Contents, Used, YoungState, YoungNow;
    forall a | a in s'.major ensures a in g.major || exists c :: c in s'.fwd && s'.fwd[c] == a {
      if a == r {
        assert s'.fwd[b] == r;
      } else if a !in g.major {
        var c :| c in s.fwd && s.fwd[c] == a;
        assert s'.fwd[c] == a;
      }
    }
  }

  lemma MoveListed(g: Snapshot, s: Copy, b: int, r: int, nf: seq<Value>, push: bool, i: nat)
    requires Movable(g, s, b, r, nf) && i < |s.list| && HalfCopied(g, s, i)
    ensures var s' := Moved(g, s, b, r, nf, push);
            var j := if push then i + 1 else i;
            HalfCopied(g, s', j) && s'.list[j] == s.list[i]
  {
    var s' := Moved(g, s, b, r, nf, push);
    hide YoungNow, Used;
    if push { assert s'.list[i+2..] == s.list[i+1..]; }
  }

  lemma MovePushed(g: Snapshot, s: Copy, b: int, r: int, nf: seq<Value>)
    requires Movable(g, s, b, r, nf) && s.todo == Head(s.list)
    requires g.young[b].tag < INFIX_TAG && |nf| > 1 && nf[0] == g.young[b].fields[0] && nf[1] == Ptr(s.todo, 0)
    ensures HalfCopied(g, Moved(g, s, b, r, nf, true), 0)
  {
    var s' := Moved(g, s, b, r, nf, true);
    hide YoungNow, Used;
    assert s'.list[1..] == s.list;
  }

  lemma MoveList(g: Snapshot, s: Copy, busy: set<int>, b: int, r: int, nf: seq<Value>, push: bool, busy': set<int>)
    requires Core(g, s, busy) && Movable(g, s, b, r, nf) && forall c :: c in busy' ==> c in busy || c == b
    requires push ==>
             g.young[b].tag < INFIX_TAG && |nf| > 1 && nf[0] == g.young[b].fields[0] && nf[1] == Ptr(s.todo, 0) &&
             b !in busy'
    ensures ListState(g, Moved(g, s, b, r, nf, push), busy')
  {
    var s' := Moved(g, s, b, r, nf, push);
    hide Contents, Used, FwdState, MajorState, YoungState, YoungNow;
    forall i | 0 <= i < |s.list| ensures s.list[i] != b && s.list[i] !in busy' { assert HalfCopied(g, s, i); }
    if push { MovePushed(g, s, b, r, nf); }
    assert s'.list == (if push then [b] else []) + s.list;
    hide Moved;
    forall i | 0 <= i < |s'.list| ensures s'.list[i] !in busy' && HalfCopied(g, s', i) {
      var j := if push then i - 1 else i;
      if j >= 0 { assert HalfCopied(g, s, j); MoveListed(g, s, b, r, nf, push, j); }
    }
  }

  lemma MoveContents(g: Snapshot, s: Copy, busy: set<int>, b: int, r: int, nf: seq<Value>, push: bool, busy': set<int>)
    requires Core(g, s, busy) && Movable(g, s, b, r, nf) && b !in busy
    requires (forall c :: c in busy ==> c in busy') && (forall c :: c in busy' ==> c in busy || c == b)
    requires push || b in busy' || (!HoldsValues(g.young[b].tag) && nf == g.young[b].fields)
    ensures Contents(g, Moved(g, s, b, r, nf, push), busy')
  {
    var s' := Moved(g, s, b, r, nf, push);
    assert Extends(s.fwd, s'.fwd);
    hide RelSeq, Used, FwdState, MajorState, YoungState, ListState, YoungNow, Extends;
    forall c | c in s'.fwd && c in g.young && s'.fwd[c] in s'.major && c !in s'.list
      ensures SameShape(g.young[c].tag, g.young[c].fields, s'.major[s'.fwd[c]])
      ensures c !in busy' ==> RelBlock(g, s'.fwd, g.young[c].tag, g.young[c].fields, s'.major[s'.fwd[c]])
    {
      if c != b {
        assert c !in s.list;
        if c !in busy' { RelBlockMore(g, s.fwd, s'.fwd, g.young[c].tag, g.young[c].fields, s'.major[s'.fwd[c]]); }
      }
    }
  }

  lemma MoveCore(g: Snapshot, s: Copy, busy: set<int>, b: int, r: int, nf: seq<Value>, push: bool, busy': set<int>)
    requires Core(g, s, busy) && Movable(g, s, b, r, nf) && b !in busy
    requires (forall c :: c in busy ==> c in busy') && (forall c :: c in busy' ==> c in busy || c == b)
    requires push ==>
             g.young[b].tag < INFIX_TAG && |nf| > 1 && nf[0] == g.young[b].fields[0] && nf[1] == Ptr(s.todo, 0) &&
             b !in busy'
    requires push || b in busy' || (!HoldsValues(g.young[b].tag) && nf == g.young[b].fields)
    ensures Core(g, Moved(g, s, b, r, nf, push), busy')
  {
    MoveHeaps(g, s, busy, b, r, nf, push);
    MoveMajor(g, s, busy, b, r, nf, push);
    MoveList(g, s, busy, b, r, nf, push, busy');
    MoveContents(g, s, busy, b, r, nf, push, busy');
    hide YoungState, FwdState, MajorState, ListState, Contents, Moved, Movable;
  }

  lemma MoveFrame(g: Snapshot, s: Copy, b: int, r: int, nf: seq<Value>, push: bool, p: Cell)
    requires b in g.young && b !in s.fwd && r !in s.major
    ensures Frame(s, Moved(g, s, b, r, nf, push), p) && Extends(s.fwd, Moved(g, s, b, r, nf, push).fwd)
  {
  }

  // ---- Taking a block off the list ------------------------------------------------------------------

  function Popped(s: Copy): Copy
    requires |s.list| > 0
  {
    s.(todo := Head(s.list[1..]), list := s.list[1..])
  }

  lemma PopFacts(g: Snapshot, s: Copy)
    requires Core(g, s, {}) && |s.list| > 0
    ensures HalfCopied(g, s, 0) && s.todo == s.list[0] && s.todo in s.fwd && s.todo in s.young && s.todo in g.young
    ensures s.young[s.todo].fields == g.young[s.todo].fields[0 := Ptr(s.fwd[s.todo], 0)]
  {
    assert HalfCopied(g, s, 0);
    assert s.young[s.todo] == YoungNow(g, s.fwd, s.todo);
  }

  lemma PopCore(g: Snapshot, s: Copy)
    requires Core(g, s, {}) && |s.list| > 0
    ensures Core(g, Popped(s), {s.list[0]})
  {
    var s', b := Popped(s), s.list[0];
    hide RelBlock, Used, YoungNow, FwdState, YoungState, MajorState;
    assert HalfCopied(g, s, 0);
    forall i | 0 <= i < |s'.list| ensures s'.list[i] != b && HalfCopied(g, s', i) {
      assert HalfCopied(g, s, i + 1);
      assert s'.list[i] == s.list[i + 1] && s'.list[i+1..] == s.list[i+2..];
    }
    assert ListState(g, s', {b});
    assert forall c :: c in s.list ==> c in s'.list || c == b;
    assert Contents(g, s', {b}) by { hide ListState; }
    assert YoungState(g, s') && FwdState(g, s') && MajorState(g, s') by { SameHeaps(g, s, s'); }
  }

  lemma SameHeaps(g: Snapshot, s: Copy, s': Copy)
    requires YoungState(g, s) && FwdState(g, s) && MajorState(g, s)
    requires s' == s.(todo := s'.todo, list := s'.list)
    ensures YoungState(g, s') && FwdState(g, s') && MajorState(g, s')
  {
  }
}
