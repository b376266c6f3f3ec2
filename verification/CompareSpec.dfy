/** The structural order on values, as trees. */
module CompareSpec {
  const STRING_TAG: int := 252

  datatype Tree = Leaf(n: int) | Str(bytes: seq<int>) | Node(tag: int, kids: seq<Tree>)

  function Sign(x: int): int { if x < 0 then -1 else if x > 0 then 1 else 0 }

  /** The first comparison decides, unless it finds no difference. */
  function Then(a: int, b: int): int { if a != 0 then a else b }

  function TagOf(t: Tree): int { if t.Str? then STRING_TAG else if t.Node? then t.tag else 0 }

  function CmpBytes(a: seq<int>, b: seq<int>): int {
    if a == [] || b == [] then Sign(|a| - |b|) else Then(Sign(a[0] - b[0]), CmpBytes(a[1..], b[1..]))
  }

  /** Integers come before blocks; blocks go by tag, then by size, then field by field. */
  function Cmp(a: Tree, b: Tree): int
    decreases a, 1, 0
  {
    if a.Leaf? then (if b.Leaf? then Sign(a.n - b.n) else -1)
    else if b.Leaf? then 1
    else if TagOf(a) != TagOf(b) then Sign(TagOf(a) - TagOf(b))
    else if a.Str? && b.Str? then CmpBytes(a.bytes, b.bytes)
    else if a.Node? && b.Node? then (if |a.kids| != |b.kids| then Sign(|a.kids| - |b.kids|) else CmpFrom(a, b, 0))
    else 0
  }

  /** Fields `i` and after. */
  function CmpFrom(a: Tree, b: Tree, i: nat): int
    requires a.Node? && b.Node? && |a.kids| == |b.kids|
    decreases a, 0, |a.kids| - i
  {
    if i >= |a.kids| then 0 else Then(Cmp(a.kids[i], b.kids[i]), CmpFrom(a, b, i + 1))
  }

  /** No block of values has the tag of strings. */
  predicate Proper(t: Tree)
    decreases t
  {
    t.Node? ==> t.tag != STRING_TAG && forall i :: 0 <= i < |t.kids| ==> Proper(t.kids[i])
  }

  // ---- It is a total order ------------------------------------------------------------------------------------

  lemma {:induction false} BytesFlip(a: seq<int>, b: seq<int>)
    ensures CmpBytes(a, b) == -CmpBytes(b, a)
  {
    if a != [] && b != [] { BytesFlip(a[1..], b[1..]); }
  }

  lemma {:induction false} BytesZero(a: seq<int>, b: seq<int>)
    ensures CmpBytes(a, b) == 0 <==> a == b
  {
    if a != [] && b != [] {
      BytesZero(a[1..], b[1..]);
      assert a == [a[0]] + a[1..] && b == [b[0]] + b[1..];
    }
  }

  lemma {:induction false} BytesTrans(a: seq<int>, b: seq<int>, c: seq<int>)
    requires CmpBytes(a, b) <= 0 && CmpBytes(b, c) <= 0
    ensures CmpBytes(a, c) <= 0
    ensures CmpBytes(a, c) == 0 ==> CmpBytes(a, b) == 0 && CmpBytes(b, c) == 0
  {
    if a != [] && b != [] && c != [] {
      if a[0] == b[0] && b[0] == c[0] { BytesTrans(a[1..], b[1..], c[1..]); }
    }
  }

  /** Swapping the arguments changes the sign. */
  lemma {:induction false} Flip(a: Tree, b: Tree)
    ensures Cmp(a, b) == -Cmp(b, a)
    decreases a, 1, 0
  {
    if a.Str? && b.Str? { BytesFlip(a.bytes, b.bytes); }
    if a.Node? && b.Node? && |a.kids| == |b.kids| { FlipFrom(a, b, 0); }
  }

  lemma {:induction false} FlipFrom(a: Tree, b: Tree, i: nat)
    requires a.Node? && b.Node? && |a.kids| == |b.kids|
    ensures CmpFrom(a, b, i) == -CmpFrom(b, a, i)
    decreases a, 0, |a.kids| - i
  {
    if i < |a.kids| {
      Flip(a.kids[i], b.kids[i]);
      FlipFrom(a, b, i + 1);
    }
  }

  /** Only equal values compare equal. */
  lemma {:induction false} Zero(a: Tree, b: Tree)
    requires Proper(a) && Proper(b)
    ensures Cmp(a, b) == 0 <==> a == b
    decreases a, 1, 0
  {
    if a.Str? && b.Str? { BytesZero(a.bytes, b.bytes); }
    if a.Node? && b.Node? && |a.kids| == |b.kids| && a.tag == b.tag {
      ZeroFrom(a, b, 0);
      assert (forall j :: 0 <= j < |a.kids| ==> a.kids[j] == b.kids[j]) <==> a.kids == b.kids;
    }
  }

  lemma {:induction false} ZeroFrom(a: Tree, b: Tree, i: nat)
    requires a.Node? && b.Node? && |a.kids| == |b.kids| && Proper(a) && Proper(b) && i <= |a.kids|
    ensures CmpFrom(a, b, i) == 0 <==> forall j :: i <= j < |a.kids| ==> a.kids[j] == b.kids[j]
    decreases a, 0, |a.kids| - i
  {
    if i < |a.kids| {
      Zero(a.kids[i], b.kids[i]);
      ZeroFrom(a, b, i + 1);
    }
  }

  /** The order is transitive. */
  lemma {:induction false} Trans(a: Tree, b: Tree, c: Tree)
    requires Proper(a) && Proper(b) && Proper(c) && Cmp(a, b) <= 0 && Cmp(b, c) <= 0
    ensures Cmp(a, c) <= 0
    ensures Cmp(a, c) == 0 ==> Cmp(a, b) == 0 && Cmp(b, c) == 0
    decreases a, 1, 0
  {
    if a.Str? && b.Str? && c.Str? { BytesTrans(a.bytes, b.bytes, c.bytes); }
    if a.Node? && b.Node? && c.Node? && a.tag == b.tag == c.tag && |a.kids| == |b.kids| == |c.kids| {
      TransFrom(a, b, c, 0);
    }
  }

  lemma {:induction false} TransFrom(a: Tree, b: Tree, c: Tree, i: nat)
    requires a.Node? && b.Node? && c.Node? && |a.kids| == |b.kids| == |c.kids| && Proper(a) && Proper(b) && Proper(c)
    requires CmpFrom(a, b, i) <= 0 && CmpFrom(b, c, i) <= 0
    ensures CmpFrom(a, c, i) <= 0
    ensures CmpFrom(a, c, i) == 0 ==> CmpFrom(a, b, i) == 0 && CmpFrom(b, c, i) == 0
    decreases a, 0, |a.kids| - i
  {
    if i < |a.kids| {
      Trans(a.kids[i], b.kids[i], c.kids[i]);
      if Cmp(a.kids[i], b.kids[i]) == 0 && Cmp(b.kids[i], c.kids[i]) == 0 { TransFrom(a, b, c, i + 1); }
    }
  }

  // ---- Values in memory ---------------------------------------------------------------------------------------

  datatype Val = Int(n: int) | Ptr(a: int)
  datatype Block = Fields(tag: int, vals: seq<Val>) | Bytes(bytes: seq<int>) | Forward(v: Val)
  type Memory = map<int, Block>

  /** `rank` decreases from a block to its fields: the values are not cyclic. */
  datatype Heap = Heap(mem: Memory, rank: map<int, nat>)

  function RankOf(h: Heap, v: Val): nat { if v.Ptr? && v.a in h.rank then h.rank[v.a] + 1 else 0 }

  predicate Known(h: Heap, v: Val) { v.Ptr? ==> v.a in h.mem }

  predicate Below(h: Heap, v: Val, a: int) { Known(h, v) && RankOf(h, v) < RankOf(h, Ptr(a)) }

  predicate BlockOk(h: Heap, a: int)
    requires a in h.mem
  {
    match h.mem[a]
    case Fields(tag, vals) => tag != STRING_TAG && forall i {:trigger vals[i]} :: 0 <= i < |vals| ==>
      Below(h, vals[i], a)
    case Bytes(_) => true
    case Forward(v) => Below(h, v, a)
  }

  ghost predicate Acyclic(h: Heap) { forall a {:trigger h.mem[a]} :: a in h.mem ==> BlockOk(h, a) }

  /** The tree that a value stands for; forwarding blocks are skipped. */
  ghost function TreeOf(h: Heap, v: Val): Tree
    requires Acyclic(h) && Known(h, v)
    decreases RankOf(h, v)
  {
    match v
    case Int(n) => Leaf(n)
    case Ptr(a) =>
      assert BlockOk(h, a);
      match h.mem[a]
      case Bytes(b) => Str(b)
      case Forward(w) => TreeOf(h, w)
      case Fields(tag, vals) => Node(tag, seq(|vals|, i requires 0 <= i < |vals| => TreeOf(h, vals[i])))
  }
}
