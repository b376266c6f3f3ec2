/** Which order the structural comparison is, said of the values themselves. */
module CompareOrder {
  import opened CompareSpec

  /** A proper prefix, or smaller at the first byte that differs. */
  ghost predicate BytesPrecede(a: seq<int>, b: seq<int>) {
    exists k :: BytesPrecedeAt(a, b, k)
  }

  ghost predicate BytesPrecedeAt(a: seq<int>, b: seq<int>, k: int) {
    0 <= k <= |a| && k < |b| && a[..k] == b[..k] && (k == |a| || a[k] < b[k])
  }

  /**
   * Integers precede blocks, and each other as numbers do; the tag of a string is 252. Blocks of equal tags precede by
   * their number of fields, and then by the first field that differs.
   */
  ghost predicate Precedes(a: Tree, b: Tree)
    decreases a
  {
    match (a, b)
    case (Leaf(m), Leaf(n)) => m < n
    case (Leaf(_), _) => true
    case (_, Leaf(_)) => false
    case (Str(s), Str(t)) => BytesPrecede(s, t)
    case (Str(_), Node(tag, _)) => 252 < tag
    case (Node(tag, _), Str(_)) => tag < 252
    case (Node(tag1, kids1), Node(tag2, kids2)) =>
      || tag1 < tag2
      || (tag1 == tag2 && |kids1| < |kids2|)
      || (tag1 == tag2 && |kids1| == |kids2| &&
          exists k :: 0 <= k < |kids1| && kids1[..k] == kids2[..k] && Precedes(kids1[k], kids2[k]))
  }

  lemma {:induction false} BytesOrder(a: seq<int>, b: seq<int>)
    ensures CmpBytes(a, b) < 0 <==> BytesPrecede(a, b)
  {
    if a == [] || b == [] {
      assert a == [] && b != [] ==> BytesPrecedeAt(a, b, 0);
    } else if a[0] != b[0] {
      assert a[0] < b[0] ==> BytesPrecedeAt(a, b, 0);
      forall k | BytesPrecedeAt(a, b, k)
        ensures a[0] < b[0]
      {
        assert k > 0 ==> a[..k][0] == b[..k][0];
      }
    } else {
      BytesOrder(a[1..], b[1..]);
      BytesShift(a, b);
    }
  }

  lemma BytesShift(a: seq<int>, b: seq<int>)
    requires a != [] && b != [] && a[0] == b[0]
    ensures BytesPrecede(a, b) <==> BytesPrecede(a[1..], b[1..])
  {
    if BytesPrecede(a, b) {
      var k :| BytesPrecedeAt(a, b, k);
      assert a[1..][..k - 1] == a[..k][1..] && b[1..][..k - 1] == b[..k][1..];
      assert BytesPrecedeAt(a[1..], b[1..], k - 1);
    }
    if BytesPrecede(a[1..], b[1..]) {
      var k :| BytesPrecedeAt(a[1..], b[1..], k);
      assert a[..k + 1] == [a[0]] + a[1..][..k] && b[..k + 1] == [b[0]] + b[1..][..k];
      assert BytesPrecedeAt(a, b, k + 1);
    }
  }

  /** From field `i` on, all before being the same. */
  ghost predicate FieldsPrecede(a: Tree, b: Tree, i: nat)
    requires a.Node? && b.Node? && |a.kids| == |b.kids|
  {
    exists k :: FieldsPrecedeAt(a, b, i, k)
  }

  ghost predicate FieldsPrecedeAt(a: Tree, b: Tree, i: nat, k: int)
    requires a.Node? && b.Node? && |a.kids| == |b.kids|
  {
    && i <= k < |a.kids| && Precedes(a.kids[k], b.kids[k])
    && forall j {:trigger a.kids[j]} :: i <= j < k ==> a.kids[j] == b.kids[j]
  }

  /** The comparison is negative, null or positive as the first value precedes the second, is equal, or follows. */
  lemma {:induction false} OrderIs(a: Tree, b: Tree)
    requires Proper(a) && Proper(b)
    ensures Cmp(a, b) < 0 <==> Precedes(a, b)
    decreases a, 1, 0
  {
    if a.Str? && b.Str? { BytesOrder(a.bytes, b.bytes); }
    if a.Node? && b.Node? && a.tag == b.tag && |a.kids| == |b.kids| {
      FieldsOrder(a, b, 0);
      FieldsFromFirst(a, b);
    }
  }

  lemma {:induction false} FieldsOrder(a: Tree, b: Tree, i: nat)
    requires a.Node? && b.Node? && |a.kids| == |b.kids| && Proper(a) && Proper(b) && i <= |a.kids|
    ensures CmpFrom(a, b, i) < 0 <==> FieldsPrecede(a, b, i)
    decreases a, 0, |a.kids| - i
  {
    if i < |a.kids| {
      OrderIs(a.kids[i], b.kids[i]);
      Zero(a.kids[i], b.kids[i]);
      FieldsOrder(a, b, i + 1);
      hide Cmp, CmpFrom, Precedes;
      FieldsStep(a, b, i);
      assert CmpFrom(a, b, i) == Then(Cmp(a.kids[i], b.kids[i]), CmpFrom(a, b, i + 1)) by { FromIs(a, b, i); }
    }
  }

  lemma FromIs(a: Tree, b: Tree, i: nat)
    requires a.Node? && b.Node? && |a.kids| == |b.kids| && i < |a.kids|
    ensures CmpFrom(a, b, i) == Then(Cmp(a.kids[i], b.kids[i]), CmpFrom(a, b, i + 1))
  {
  }

  lemma FieldsStep(a: Tree, b: Tree, i: nat)
    requires a.Node? && b.Node? && |a.kids| == |b.kids| && i < |a.kids|
    ensures FieldsPrecede(a, b, i) <==>
            Precedes(a.kids[i], b.kids[i]) || (a.kids[i] == b.kids[i] && FieldsPrecede(a, b, i + 1))
  {
    hide Precedes;
    if Precedes(a.kids[i], b.kids[i]) { assert FieldsPrecedeAt(a, b, i, i); }
    if a.kids[i] == b.kids[i] && FieldsPrecede(a, b, i + 1) {
      var k :| FieldsPrecedeAt(a, b, i + 1, k);
      assert FieldsPrecedeAt(a, b, i, k);
    }
    if FieldsPrecede(a, b, i) {
      var k :| FieldsPrecedeAt(a, b, i, k);
      if k > i {
        assert a.kids[i] == b.kids[i];
        assert FieldsPrecedeAt(a, b, i + 1, k);
      }
    }
  }

  lemma FieldsFromFirst(a: Tree, b: Tree)
    requires a.Node? && b.Node? && a.tag == b.tag && |a.kids| == |b.kids|
    ensures Precedes(a, b) <==> FieldsPrecede(a, b, 0)
  {
    if Precedes(a, b) {
      var k :| 0 <= k < |a.kids| && a.kids[..k] == b.kids[..k] && Precedes(a.kids[k], b.kids[k]);
      forall j | 0 <= j < k
        ensures a.kids[j] == b.kids[j]
      {
        assert a.kids[..k][j] == b.kids[..k][j];
      }
      assert FieldsPrecedeAt(a, b, 0, k);
    }
    if FieldsPrecede(a, b, 0) {
      var k :| FieldsPrecedeAt(a, b, 0, k);
      assert a.kids[..k] == b.kids[..k];
    }
  }

  /** Both directions and equality at once. */
  lemma Trichotomy(a: Tree, b: Tree)
    requires Proper(a) && Proper(b)
    ensures (Cmp(a, b) < 0 <==> Precedes(a, b)) && (Cmp(a, b) == 0 <==> a == b) && (Cmp(a, b) > 0 <==> Precedes(b, a))
  {
    hide Precedes, Cmp;
    OrderIs(a, b);
    OrderIs(b, a);
    Zero(a, b);
    Flip(a, b);
  }

  // ---- Trees and memory ---------------------------------------------------------------------------------------------

  /** What is found at a place: a number, a string, a block with its tag and size, or no such place. */
  datatype Sight = Number(n: int) | Text(bytes: seq<int>) | Block(tag: int, size: nat) | Nothing

  /** Following field numbers in memory, through forwarding blocks. */
  ghost function Read(h: Heap, v: Val, path: seq<nat>): Sight
    requires Acyclic(h) && Known(h, v)
    decreases RankOf(h, v)
  {
    if v.Int? then (if path == [] then Number(v.n) else Nothing)
    else
      assert BlockOk(h, v.a);
      match h.mem[v.a]
      case Forward(w) => Read(h, w, path)
      case Bytes(b) => if path == [] then Text(b) else Nothing
      case Fields(tag, vals) =>
        if path == [] then Block(tag, |vals|) else if path[0] < |vals| then Read(h, vals[path[0]], path[1..])
          else Nothing
  }

  /** Following child numbers in a tree. */
  function Look(t: Tree, path: seq<nat>): Sight
    decreases t
  {
    match t
    case Leaf(n) => if path == [] then Number(n) else Nothing
    case Str(b) => if path == [] then Text(b) else Nothing
    case Node(tag, kids) =>
      if path == [] then Block(tag, |kids|) else if path[0] < |kids| then Look(kids[path[0]], path[1..]) else Nothing
  }

  /** The tree of a value is what one reads in memory, along any path. */
  lemma {:induction false} TreeReads(h: Heap, v: Val, path: seq<nat>)
    requires Acyclic(h) && Known(h, v)
    ensures Read(h, v, path) == Look(TreeOf(h, v), path)
    decreases RankOf(h, v)
  {
    if v.Ptr? {
      assert BlockOk(h, v.a);
      match h.mem[v.a]
      case Bytes(_) =>
      case Forward(w) => TreeReads(h, w, path);
      case Fields(_, vals) =>
        if path != [] && path[0] < |vals| { TreeReads(h, vals[path[0]], path[1..]); }
    }
  }

  /** Trees that look the same along every path are the same. */
  lemma {:induction false} LooksSame(t: Tree, u: Tree)
    requires forall path {:trigger Look(t, path)} :: Look(t, path) == Look(u, path)
    ensures t == u
    decreases t
  {
    assert Look(t, []) == Look(u, []);
    if t.Node? {
      assert |t.kids| == |u.kids| && t.tag == u.tag;
      forall i | 0 <= i < |t.kids|
        ensures t.kids[i] == u.kids[i]
      {
        forall path: seq<nat>
          ensures Look(t.kids[i], path) == Look(u.kids[i], path)
        {
          assert ([i] + path)[1..] == path;
          assert Look(t, [i] + path) == Look(u, [i] + path);
        }
        LooksSame(t.kids[i], u.kids[i]);
      }
    }
  }

  ghost predicate SameReads(h: Heap, v: Val, w: Val)
    requires Acyclic(h) && Known(h, v) && Known(h, w)
  {
    forall path {:trigger Read(h, v, path)} :: Read(h, v, path) == Read(h, w, path)
  }

  /** Two values are structurally equal if and only if the same is read in both along every path. */
  lemma EqualReads(h: Heap, v: Val, w: Val)
    requires Acyclic(h) && Known(h, v) && Known(h, w)
    ensures TreeOf(h, v) == TreeOf(h, w) <==> SameReads(h, v, w)
  {
    hide TreeOf, Read, Look;
    if TreeOf(h, v) == TreeOf(h, w) {
      forall path: seq<nat>
        ensures Read(h, v, path) == Read(h, w, path)
      {
        TreeReads(h, v, path);
        TreeReads(h, w, path);
      }
    }
    if SameReads(h, v, w) {
      forall path: seq<nat>
        ensures Look(TreeOf(h, v), path) == Look(TreeOf(h, w), path)
      {
        TreeReads(h, v, path);
        TreeReads(h, w, path);
        assert Read(h, v, path) == Read(h, w, path);
      }
      LooksSame(TreeOf(h, v), TreeOf(h, w));
    }
  }
}
