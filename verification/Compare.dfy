/** Structural comparison as it runs, with its own stack of fields still to compare. */
module Compare {
  import opened CompareSpec
  import opened CompareOrder

  const COMPARE_STACK_INIT_SIZE: nat := 256
  const COMPARE_STACK_MAX_SIZE: nat := 1024 * 1024

  /** The fields from number `i` on of two blocks of the same size. */
  datatype Item = Item(a1: int, a2: int, i: nat)

  datatype Outcome = Overflow | Order(x: int)

  predicate ItemOk(h: Heap, it: Item) {
    && it.a1 in h.mem && h.mem[it.a1].Fields? && it.a2 in h.mem && h.mem[it.a2].Fields?
    && |h.mem[it.a1].vals| == |h.mem[it.a2].vals| && it.i < |h.mem[it.a1].vals|
  }

  ghost predicate StackOk(h: Heap, s: seq<Item>) { forall k {:trigger s[k]} :: 0 <= k < |s| ==> ItemOk(h, s[k]) }

  /** What an item of the stack still has to say. */
  ghost function ItemOrder(h: Heap, it: Item): int
    requires Acyclic(h) && ItemOk(h, it)
  {
    CmpFrom(TreeOf(h, Ptr(it.a1)), TreeOf(h, Ptr(it.a2)), it.i)
  }

  /** What the stack has to say, from its top, which is its last item. */
  ghost function Pending(h: Heap, s: seq<Item>): int
    requires Acyclic(h) && StackOk(h, s)
  {
    if s == [] then 0 else Then(ItemOrder(h, s[|s| - 1]), Pending(h, s[..|s| - 1]))
  }

  // ---- Work left: the loop ends ---------------------------------------------------------------------------------

  ghost function Work(h: Heap, v: Val): nat
    requires Acyclic(h) && Known(h, v)
    decreases RankOf(h, v), 1, 0
  {
    match v
    case Int(_) => 1
    case Ptr(a) =>
      assert BlockOk(h, a);
      match h.mem[a]
      case Bytes(_) => 1
      case Forward(w) => 1 + Work(h, w)
      case Fields(_, vals) => 1 + WorkFrom(h, a, 0)
  }

  ghost function WorkFrom(h: Heap, a: int, i: nat): nat
    requires Acyclic(h) && a in h.mem && h.mem[a].Fields?
    decreases RankOf(h, Ptr(a)), 0, |h.mem[a].vals| - i
  {
    assert BlockOk(h, a);
    if i < |h.mem[a].vals| then Work(h, h.mem[a].vals[i]) + WorkFrom(h, a, i + 1) else 0
  }

  ghost function StackWork(h: Heap, s: seq<Item>): nat
    requires Acyclic(h) && StackOk(h, s)
  {
    if s == [] then 0 else
      var it := s[|s| - 1];
      WorkFrom(h, it.a1, it.i) + WorkFrom(h, it.a2, it.i) + StackWork(h, s[..|s| - 1])
  }

  ghost function Left(h: Heap, v1: Val, v2: Val, s: seq<Item>): nat
    requires Acyclic(h) && Known(h, v1) && Known(h, v2) && StackOk(h, s)
  {
    Work(h, v1) + Work(h, v2) + StackWork(h, s)
  }

  /** What the comparison of `v1` and `v2`, and then of the stack, gives. */
  ghost function Total(h: Heap, v1: Val, v2: Val, s: seq<Item>): int
    requires Acyclic(h) && Known(h, v1) && Known(h, v2) && StackOk(h, s)
  {
    Then(Cmp(TreeOf(h, v1), TreeOf(h, v2)), Pending(h, s))
  }

  // ---- Pending items --------------------------------------------------------------------------------------------

  function Max(x: nat, y: nat): nat { if x >= y then x else y }

  /** Two blocks whose fields are compared one by one. */
  predicate Alike(h: Heap, v1: Val, v2: Val) {
    && v1.Ptr? && v2.Ptr? && v1.a in h.mem && v2.a in h.mem && h.mem[v1.a].Fields? && h.mem[v2.a].Fields?
    && h.mem[v1.a].tag == h.mem[v2.a].tag && 0 < |h.mem[v1.a].vals| == |h.mem[v2.a].vals|
  }

  /**
   * The largest number of items that wait while `v1` and `v2` are compared: a pair of blocks waits while all its
   * fields but the last are compared, as far as they are the same.
   */
  ghost function Peak(h: Heap, v1: Val, v2: Val): nat
    requires Acyclic(h) && Known(h, v1) && Known(h, v2)
    decreases Work(h, v1) + Work(h, v2), 0
  {
    if v1 == v2 || (v1.Int? && v2.Int?) then 0
    else if v1.Ptr? && h.mem[v1.a].Forward? then
      ForwardStep(h, v1);
      Peak(h, h.mem[v1.a].v, v2)
    else if v2.Ptr? && h.mem[v2.a].Forward? then
      ForwardStep(h, v2);
      Peak(h, v1, h.mem[v2.a].v)
    else if Alike(h, v1, v2) then PeakFrom(h, v1.a, v2.a, 0)
    else 0
  }

  /** The same from field `i` on. */
  ghost function PeakFrom(h: Heap, a1: int, a2: int, i: nat): nat
    requires Acyclic(h) && ItemOk(h, Item(a1, a2, i))
    decreases WorkFrom(h, a1, i) + WorkFrom(h, a2, i), 1
  {
    assert BlockOk(h, a1) && BlockOk(h, a2);
    var w1, w2 := h.mem[a1].vals[i], h.mem[a2].vals[i];
    WorkPositive(h, w1);
    if i + 1 == |h.mem[a1].vals| then Peak(h, w1, w2)
    else Max(1 + Peak(h, w1, w2), if Cmp(TreeOf(h, w1), TreeOf(h, w2)) == 0 then PeakFrom(h, a1, a2, i + 1) else 0)
  }

  /** The largest number of items on the stack, its own included, until its items are compared or differ. */
  ghost function StackPeak(h: Heap, s: seq<Item>): nat
    requires Acyclic(h) && StackOk(h, s)
  {
    if s == [] then 0 else
      var n, it := |s| - 1, s[|s| - 1];
      Max(n + PeakFrom(h, it.a1, it.a2, it.i), if ItemOrder(h, it) == 0 then StackPeak(h, s[..n]) else 0)
  }

  /** The largest number of items on the stack from here on. */
  ghost function TotalPeak(h: Heap, v1: Val, v2: Val, s: seq<Item>): nat
    requires Acyclic(h) && Known(h, v1) && Known(h, v2) && StackOk(h, s)
  {
    Max(|s| + Peak(h, v1, v2), if Cmp(TreeOf(h, v1), TreeOf(h, v2)) == 0 then StackPeak(h, s) else 0)
  }

  /** No more items wait than the first value is high. */
  lemma {:induction false} PeakLow(h: Heap, v1: Val, v2: Val)
    requires Acyclic(h) && Known(h, v1) && Known(h, v2)
    ensures Peak(h, v1, v2) <= HeightOf(h, v1)
    decreases Work(h, v1) + Work(h, v2), 0
  {
    hide Height, Cmp;
    if v1 == v2 || (v1.Int? && v2.Int?) {
    } else if v1.Ptr? && h.mem[v1.a].Forward? {
      ForwardStep(h, v1);
      PeakLow(h, h.mem[v1.a].v, v2);
    } else if v2.Ptr? && h.mem[v2.a].Forward? {
      ForwardStep(h, v2);
      PeakLow(h, v1, h.mem[v2.a].v);
    } else if Alike(h, v1, v2) {
      PeakFromLow(h, v1.a, v2.a, 0);
    }
  }

  lemma {:induction false} PeakFromLow(h: Heap, a1: int, a2: int, i: nat)
    requires Acyclic(h) && ItemOk(h, Item(a1, a2, i))
    ensures PeakFrom(h, a1, a2, i) <= HeightOf(h, Ptr(a1))
    decreases WorkFrom(h, a1, i) + WorkFrom(h, a2, i), 1
  {
    hide Height, Cmp;
    assert BlockOk(h, a1) && BlockOk(h, a2);
    var w1, w2 := h.mem[a1].vals[i], h.mem[a2].vals[i];
    WorkPositive(h, w1);
    FieldLower(h, a1, i);
    PeakLow(h, w1, w2);
    if i + 1 < |h.mem[a1].vals| { PeakFromLow(h, a1, a2, i + 1); }
  }

  // ---- Facts about single steps -----------------------------------------------------------------------------------

  lemma {:induction false} TreeProper(h: Heap, v: Val)
    requires Acyclic(h) && Known(h, v)
    ensures Proper(TreeOf(h, v))
    decreases RankOf(h, v)
  {
    if v.Ptr? {
      assert BlockOk(h, v.a);
      match h.mem[v.a]
      case Bytes(_) =>
      case Forward(w) => TreeProper(h, w);
      case Fields(tag, vals) =>
        var t := TreeOf(h, v);
        forall i | 0 <= i < |t.kids| ensures Proper(t.kids[i]) { TreeProper(h, vals[i]); }
    }
  }

  /** The shortcut on physical equality never changes the answer. */
  lemma SameValue(h: Heap, v: Val)
    requires Acyclic(h) && Known(h, v)
    ensures Cmp(TreeOf(h, v), TreeOf(h, v)) == 0
  {
    TreeProper(h, v);
    Zero(TreeOf(h, v), TreeOf(h, v));
  }

  lemma ForwardStep(h: Heap, v: Val)
    requires Acyclic(h) && v.Ptr? && v.a in h.mem && h.mem[v.a].Forward?
    ensures Known(h, h.mem[v.a].v) && TreeOf(h, h.mem[v.a].v) == TreeOf(h, v) && Work(h, h.mem[v.a].v) < Work(h, v)
  {
    assert BlockOk(h, v.a);
  }

  lemma WorkPositive(h: Heap, v: Val)
    requires Acyclic(h) && Known(h, v)
    ensures Work(h, v) >= 1
  {
  }

  /** The last field of an item, or one of the others. */
  lemma PopItem(h: Heap, s: seq<Item>)
    requires Acyclic(h) && StackOk(h, s) && |s| > 0
    ensures var it := s[|s| - 1];
            var w1, w2 := h.mem[it.a1].vals[it.i], h.mem[it.a2].vals[it.i];
            var rest := s[..|s| - 1];
            var s' := if it.i + 1 < |h.mem[it.a1].vals| then rest + [it.(i := it.i + 1)] else rest;
            && Known(h, w1) && Known(h, w2) && StackOk(h, s')
            && Total(h, w1, w2, s') == Pending(h, s) && Left(h, w1, w2, s') == StackWork(h, s)
  {
    hide PeakFrom, Peak, StackPeak;
    var it := s[|s| - 1];
    assert ItemOk(h, it) && BlockOk(h, it.a1) && BlockOk(h, it.a2);
    var rest := s[..|s| - 1];
    var s' := if it.i + 1 < |h.mem[it.a1].vals| then rest + [it.(i := it.i + 1)] else rest;
    assert StackOk(h, rest);
    if it.i + 1 < |h.mem[it.a1].vals| { assert s'[..|s'| - 1] == rest; }
    var t1, t2 := TreeOf(h, Ptr(it.a1)), TreeOf(h, Ptr(it.a2));
    assert CmpFrom(t1, t2, it.i) == Then(Cmp(t1.kids[it.i], t2.kids[it.i]), CmpFrom(t1, t2, it.i + 1));
    assert WorkFrom(h, it.a1, it.i) == Work(h, h.mem[it.a1].vals[it.i]) + WorkFrom(h, it.a1, it.i + 1);
    assert WorkFrom(h, it.a2, it.i) == Work(h, h.mem[it.a2].vals[it.i]) + WorkFrom(h, it.a2, it.i + 1);
    assert StackWork(h, s') == WorkFrom(h, it.a1, it.i + 1) + WorkFrom(h, it.a2, it.i + 1) + StackWork(h, rest);
  }

  /** Going down into two blocks of the same tag and size. */
  lemma Descend(h: Heap, v1: Val, v2: Val, s: seq<Item>)
    requires Acyclic(h) && Known(h, v1) && Known(h, v2) && StackOk(h, s) && Alike(h, v1, v2)
    ensures var w1, w2 := h.mem[v1.a].vals[0], h.mem[v2.a].vals[0];
            var s' := if |h.mem[v1.a].vals| > 1 then s + [Item(v1.a, v2.a, 1)] else s;
            && Known(h, w1) && Known(h, w2) && StackOk(h, s')
            && Total(h, w1, w2, s') == Total(h, v1, v2, s) && Left(h, w1, w2, s') < Left(h, v1, v2, s)
  {
    hide PeakFrom, Peak, StackPeak;
    var n := |h.mem[v1.a].vals|;
    assert BlockOk(h, v1.a) && BlockOk(h, v2.a);
    var s' := if n > 1 then s + [Item(v1.a, v2.a, 1)] else s;
    if n > 1 { assert s'[..|s'| - 1] == s; }
    var t1, t2 := TreeOf(h, v1), TreeOf(h, v2);
    assert CmpFrom(t1, t2, 0) == Then(Cmp(t1.kids[0], t2.kids[0]), CmpFrom(t1, t2, 1));
    assert WorkFrom(h, v1.a, 0) == Work(h, h.mem[v1.a].vals[0]) + WorkFrom(h, v1.a, 1);
    assert WorkFrom(h, v2.a, 0) == Work(h, h.mem[v2.a].vals[0]) + WorkFrom(h, v2.a, 1);
  }

  /** Taking an item off the stack: what may wait is as before, but for the items that wait now. */
  lemma PopPeak(h: Heap, s: seq<Item>)
    requires Acyclic(h) && StackOk(h, s) && |s| > 0
    ensures var it := s[|s| - 1];
            var w1, w2 := h.mem[it.a1].vals[it.i], h.mem[it.a2].vals[it.i];
            var rest := s[..|s| - 1];
            var s' := if it.i + 1 < |h.mem[it.a1].vals| then rest + [it.(i := it.i + 1)] else rest;
            Known(h, w1) && Known(h, w2) && StackOk(h, s') && TotalPeak(h, w1, w2, s') == StackPeak(h, s)
  {
    hide Work, WorkFrom, Peak, PeakFrom, Cmp, TreeOf, Acyclic, ItemOrder, Total, Left;
    var it := s[|s| - 1];
    var rest := s[..|s| - 1];
    ItemPeak(h, it);
    if it.i + 1 < |h.mem[it.a1].vals| { assert (rest + [it.(i := it.i + 1)])[..|rest|] == rest; }
  }

  /** What the fields of an item may keep waiting, and how they compare. */
  lemma ItemPeak(h: Heap, it: Item)
    requires Acyclic(h) && ItemOk(h, it)
    ensures var w1, w2 := h.mem[it.a1].vals[it.i], h.mem[it.a2].vals[it.i];
            var more := it.i + 1 < |h.mem[it.a1].vals|;
            && Known(h, w1) && Known(h, w2)
            && var c := Cmp(TreeOf(h, w1), TreeOf(h, w2));
            && ItemOrder(h, it) == Then(c, if more then ItemOrder(h, it.(i := it.i + 1)) else 0)
            && PeakFrom(h, it.a1, it.a2, it.i) ==
               if !more then Peak(h, w1, w2)
               else Max(1 + Peak(h, w1, w2), if c == 0 then PeakFrom(h, it.a1, it.a2, it.i + 1) else 0)
  {
    assert BlockOk(h, it.a1) && BlockOk(h, it.a2);
    var t1, t2 := TreeOf(h, Ptr(it.a1)), TreeOf(h, Ptr(it.a2));
    assert CmpFrom(t1, t2, it.i) == Then(Cmp(t1.kids[it.i], t2.kids[it.i]), CmpFrom(t1, t2, it.i + 1));
  }

  /** Two blocks compare as their fields, and keep as many items waiting. */
  lemma AlikePeak(h: Heap, v1: Val, v2: Val)
    requires Acyclic(h) && Known(h, v1) && Known(h, v2) && v1 != v2 && Alike(h, v1, v2)
    ensures Peak(h, v1, v2) == PeakFrom(h, v1.a, v2.a, 0)
    ensures Cmp(TreeOf(h, v1), TreeOf(h, v2)) == ItemOrder(h, Item(v1.a, v2.a, 0))
  {
    assert BlockOk(h, v1.a) && BlockOk(h, v2.a);
  }

  /** Going down into two blocks keeps what may wait. */
  lemma DescendPeak(h: Heap, v1: Val, v2: Val, s: seq<Item>)
    requires Acyclic(h) && Known(h, v1) && Known(h, v2) && StackOk(h, s) && v1 != v2 && Alike(h, v1, v2)
    ensures var w1, w2 := h.mem[v1.a].vals[0], h.mem[v2.a].vals[0];
            var s' := if |h.mem[v1.a].vals| > 1 then s + [Item(v1.a, v2.a, 1)] else s;
            Known(h, w1) && Known(h, w2) && StackOk(h, s') && TotalPeak(h, w1, w2, s') == TotalPeak(h, v1, v2, s)
  {
    hide Work, WorkFrom, Peak, PeakFrom, Cmp, TreeOf, Acyclic, ItemOrder, Total, Left;
    AlikePeak(h, v1, v2);
    var it := Item(v1.a, v2.a, 0);
    ItemPeak(h, it);
    if |h.mem[v1.a].vals| > 1 { assert (s + [it.(i := 1)])[..|s|] == s; }
  }

  /** Byte by byte, then by length. */
  method CompareBytes(a: seq<int>, b: seq<int>) returns (x: int)
    ensures Sign(x) == CmpBytes(a, b)
    ensures (x < 0 <==> BytesPrecede(a, b)) && (x == 0 <==> a == b) && (x > 0 <==> BytesPrecede(b, a))
  {
    BytesOrder(a, b);
    BytesOrder(b, a);
    BytesZero(a, b);
    BytesFlip(a, b);
    var i := 0;
    assert a[0..] == a && b[0..] == b;
    while i < |a| && i < |b|
      invariant 0 <= i <= |a| && i <= |b| && CmpBytes(a[i..], b[i..]) == CmpBytes(a, b)
    {
      assert a[i..][1..] == a[i + 1..] && b[i..][1..] == b[i + 1..];
      if a[i] != b[i] {
        return a[i] - b[i];
      }
      i := i + 1;
    }
    return |a| - |b|;
  }

  datatype Verdict = Differ(x: int) | Same | Follow(w1: Val, w2: Val) | Inside

  function Tag(b: Block): int { if b.Fields? then b.tag else STRING_TAG }

  /** What a turn of the loop finds out about the order of `v1` and `v2`. */
  ghost predicate Decides(h: Heap, v1: Val, v2: Val, r: Verdict)
    requires Acyclic(h) && Known(h, v1) && Known(h, v2)
  {
    var c := Cmp(TreeOf(h, v1), TreeOf(h, v2));
    match r
    case Differ(x) => c == Sign(x) != 0 && Peak(h, v1, v2) == 0
    case Same => c == 0 && Peak(h, v1, v2) == 0
    case Follow(w1, w2) =>
      && Known(h, w1) && Known(h, w2) && TreeOf(h, w1) == TreeOf(h, v1) && TreeOf(h, w2) == TreeOf(h, v2)
      && Work(h, w1) + Work(h, w2) < Work(h, v1) + Work(h, v2) && Peak(h, w1, w2) == Peak(h, v1, v2)
    case Inside => v1 != v2 && Alike(h, v1, v2)
  }

  /** One turn of the loop: the two values differ, are the same, lead to other values, or have to be entered. */
  method CompareOne(h: Heap, v1: Val, v2: Val) returns (r: Verdict)
    requires Acyclic(h) && Known(h, v1) && Known(h, v2)
    ensures Decides(h, v1, v2, r)
  {
    if v1 == v2 {
      SameValue(h, v1);
      return Same;
    }
    if v1.Int? && v2.Int? {
      return Differ(v1.n - v2.n);
    }
    if v1.Ptr? && h.mem[v1.a].Forward? {
      ForwardStep(h, v1);
      return Follow(h.mem[v1.a].v, v2);
    }
    if v2.Ptr? && h.mem[v2.a].Forward? {
      ForwardStep(h, v2);
      return Follow(v1, h.mem[v2.a].v);
    }
    if v1.Int? {
      return Differ(-1);
    }
    if v2.Int? {
      return Differ(1);
    }
    var b1, b2 := h.mem[v1.a], h.mem[v2.a];
    assert BlockOk(h, v1.a) && BlockOk(h, v2.a);
    if Tag(b1) != Tag(b2) {
      return Differ(Tag(b1) - Tag(b2));
    }
    if b1.Bytes? {
      var x := CompareBytes(b1.bytes, b2.bytes);
      return if x == 0 then Same else Differ(x);
    }
    if |b1.vals| != |b2.vals| {
      return Differ(|b1.vals| - |b2.vals|);
    }
    return if |b1.vals| == 0 then Same else Inside;
  }

  // ---- Depth: when the stack overflows ---------------------------------------------------------------------------

  function Height(t: Tree): nat
    decreases t, 1, 0
  {
    if t.Node? then 1 + HeightFrom(t, 0) else 0
  }

  function HeightFrom(t: Tree, i: nat): nat
    requires t.Node?
    decreases t, 0, |t.kids| - i
  {
    if i >= |t.kids| then 0
    else
      var x, y := Height(t.kids[i]), HeightFrom(t, i + 1);
      if x > y then x else y
  }

  lemma {:induction false} KidLower(t: Tree, i: nat, j: nat)
    requires t.Node? && i <= j < |t.kids|
    ensures Height(t.kids[j]) <= HeightFrom(t, i) && Height(t.kids[j]) < Height(t)
    decreases j - i, 1
  {
    if i < j { KidLower(t, i + 1, j); }
    if i > 0 { KidUp(t, i); }
  }

  lemma {:induction false} KidUp(t: Tree, i: nat)
    requires t.Node?
    ensures HeightFrom(t, i) <= HeightFrom(t, 0)
    decreases i
  {
    if 0 < i {
      KidUp(t, i - 1);
    }
  }

  ghost function HeightOf(h: Heap, v: Val): nat
    requires Acyclic(h) && Known(h, v)
  {
    Height(TreeOf(h, v))
  }

  lemma FieldLower(h: Heap, a: int, i: nat)
    requires Acyclic(h) && a in h.mem && h.mem[a].Fields? && i < |h.mem[a].vals|
    ensures Known(h, Ptr(a)) && Known(h, h.mem[a].vals[i]) && HeightOf(h, h.mem[a].vals[i]) < HeightOf(h, Ptr(a))
  {
    hide Height;
    assert BlockOk(h, a);
    KidLower(TreeOf(h, Ptr(a)), i, i);
  }

  /** The sizes that the stack may have. */
  predicate Size(limit: int) {
    limit in {256, 512, 1024, 2048, 4096, 8192, 16384, 32768, 65536, 131072, 262144, 524288}
  }

  /** How many items the stack takes at most; `memory` says whether there is memory for it to grow. */
  function Room(memory: bool): nat { if memory then COMPARE_STACK_MAX_SIZE / 2 else COMPARE_STACK_INIT_SIZE }

  /**
   * `compare_val`: the result is negative, null or positive as the first value precedes the second, is equal to it or
   * follows, unless the stack overflows. It overflows if and only if too many items wait at some point, and then the
   * first value is nested at least as deep.
   */
  method CompareVal(h: Heap, a: Val, b: Val, memory: bool) returns (r: Outcome)
    requires Acyclic(h) && Known(h, a) && Known(h, b)
    ensures r.Order? ==> (r.x < 0 <==> Precedes(TreeOf(h, a), TreeOf(h, b)))
    ensures r.Order? ==> (r.x == 0 <==> TreeOf(h, a) == TreeOf(h, b))
    ensures r.Order? ==> (r.x > 0 <==> Precedes(TreeOf(h, b), TreeOf(h, a)))
    ensures r.Overflow? <==> Peak(h, a, b) >= Room(memory)
    ensures r.Overflow? ==> HeightOf(h, a) >= Room(memory)
  {
    hide Cmp, TreeOf, Work, WorkFrom, Pending, StackWork, HeightOf, Acyclic, Peak, PeakFrom, StackPeak, Precedes;
    TreeProper(h, a);
    TreeProper(h, b);
    Trichotomy(TreeOf(h, a), TreeOf(h, b));
    var v1, v2, stack, limit := a, b, [], COMPARE_STACK_INIT_SIZE;
    EmptyStack(h, a, b);
    PeakLow(h, a, b);
    ghost var peak := Peak(h, a, b);
    while true
      invariant Known(h, v1) && Known(h, v2) && StackOk(h, stack)
      invariant Total(h, v1, v2, stack) == Cmp(TreeOf(h, a), TreeOf(h, b))
      invariant |stack| < limit && Size(limit) && (!memory ==> limit == COMPARE_STACK_INIT_SIZE)
      invariant TotalPeak(h, v1, v2, stack) == peak || TotalPeak(h, v1, v2, stack) <= peak < limit
      decreases Left(h, v1, v2, stack)
    {
      var v := CompareOne(h, v1, v2);
      match v
      case Differ(x) => return Order(x);
      case Follow(w1, w2) => v1, v2 := w1, w2;
      case Inside =>
        Descend(h, v1, v2, stack);
        DescendPeak(h, v1, v2, stack);
        if |h.mem[v1.a].vals| > 1 {
          if |stack| + 1 >= limit {
            if 2 * limit >= COMPARE_STACK_MAX_SIZE { return Overflow; }
            if !memory { return Overflow; }
            limit := 2 * limit;
          }
          stack := stack + [Item(v1.a, v2.a, 1)];
        }
        v1, v2 := h.mem[v1.a].vals[0], h.mem[v2.a].vals[0];
      case Same =>
        WorkPositive(h, v1);
        if stack == [] {
          EmptyStack(h, v1, v2);
          return Order(0);
        }
        PopItem(h, stack);
        PopPeak(h, stack);
        var it := stack[|stack| - 1];
        stack := stack[..|stack| - 1];
        if it.i + 1 < |h.mem[it.a1].vals| {
          stack := stack + [it.(i := it.i + 1)];
        }
        v1, v2 := h.mem[it.a1].vals[it.i], h.mem[it.a2].vals[it.i];
    }
  }

  lemma EmptyStack(h: Heap, v1: Val, v2: Val)
    requires Acyclic(h) && Known(h, v1) && Known(h, v2)
    ensures StackOk(h, []) && Total(h, v1, v2, []) == Cmp(TreeOf(h, v1), TreeOf(h, v2))
    ensures TotalPeak(h, v1, v2, []) == Peak(h, v1, v2)
  {
  }
}
