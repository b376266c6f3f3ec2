/** The major heap as the collector colours it: allocated blocks, references, tricolour protection. */
module GcHeap {

  const FORWARD_TAG: nat := 250
  const NO_SCAN_TAG: nat := 251
  const ABSTRACT_TAG: nat := 251

  datatype Color = White | Gray | Black

  /** A word: an immediate (or a pointer out of the heap), or a pointer to offset `ofs` of a block. */
  datatype Value = Imm(n: int) | Ptr(base: int, ofs: nat)

  datatype Block = Block(color: Color, tag: nat, fields: seq<Value>)

  /** The allocated blocks by address; free memory is not in the map. */
  type Heap = map<int, Block>

  /** The blocks that a block refers to, as the marker follows them. */
  function Refs(b: Block): set<int> {
    if b.tag >= NO_SCAN_TAG then {} else Bases(b.fields)
  }

  function Bases(vs: seq<Value>): set<int> {
    set v | v in vs && v.Ptr? :: v.base
  }

  predicate IsWhite(h: Heap, a: int) { a in h && h[a].color.White? }
  predicate IsGray(h: Heap, a: int) { a in h && h[a].color.Gray? }
  predicate IsBlack(h: Heap, a: int) { a in h && h[a].color.Black? }

  predicate Edge(h: Heap, a: int, b: int) { a in h && b in Refs(h[a]) }

  /** `a` is `n` edges away from a set of blocks. */
  ghost predicate ReachN(h: Heap, from: set<int>, a: int, n: nat)
    decreases n
  {
    if n == 0 then a in from else exists b :: ReachN(h, from, b, n - 1) && Edge(h, b, a)
  }

  ghost predicate Reach(h: Heap, from: set<int>, a: int) {
    exists n: nat :: ReachN(h, from, a, n)
  }

  /** `a` is gray, or white and `n` edges away from a gray block through white blocks only. */
  ghost predicate ProtN(h: Heap, a: int, n: nat)
    decreases n
  {
    if n == 0 then IsGray(h, a) else IsWhite(h, a) && exists b :: ProtN(h, b, n - 1) && Edge(h, b, a)
  }

  ghost predicate Prot(h: Heap, a: int) {
    exists n: nat :: ProtN(h, a, n)
  }

  /** The marker has reached `a` or is bound to. */
  ghost predicate Safe(h: Heap, a: int) {
    IsBlack(h, a) || Prot(h, a)
  }

  lemma SafeAllocated(h: Heap, a: int)
    requires Safe(h, a)
    ensures a in h
  {
    if Prot(h, a) {
      var n: nat :| ProtN(h, a, n);
    }
  }

  lemma GraySafe(h: Heap, a: int)
    requires IsGray(h, a)
    ensures Safe(h, a)
  {
    assert ProtN(h, a, 0);
  }

  /** Once no block is gray, the blocks that the marker was bound to reach are black. */
  lemma {:induction false} NoGrayNoProt(h: Heap, a: int, n: nat)
    requires forall b :: !IsGray(h, b)
    ensures !ProtN(h, a, n)
    decreases n
  {
    if ProtN(h, a, n) {
      if n > 0 {
        var b :| ProtN(h, b, n - 1) && Edge(h, b, a);
        NoGrayNoProt(h, b, n - 1);
      }
    }
  }

  /** What an edge from a safe block leads to, when black blocks refer to safe blocks only. */
  lemma EdgeSafe(h: Heap, a: int, b: int)
    requires Safe(h, a) && Edge(h, a, b) && b in h
    requires IsBlack(h, a) ==> Safe(h, b)
    ensures Safe(h, b)
  {
    if !IsBlack(h, a) {
      var n: nat :| ProtN(h, a, n);
      if IsWhite(h, b) {
        assert ProtN(h, b, n + 1);
      } else if IsGray(h, b) {
        GraySafe(h, b);
      }
    }
  }

  /**
   * A step from `h` to `h'` respects the marker: colours only get darker, a block turns black only
   * when none of its references is white any more, and a reference taken out of a block that is not
   * black is white no more (the deletion barrier).
   */
  ghost predicate Respects(h: Heap, h': Heap) {
    && (forall a {:trigger h'[a]} {:trigger a in h'} :: a in h ==>
          a in h' && (h[a].color.Black? ==> h'[a].color.Black?) && (h[a].color.Gray? ==> !h'[a].color.White?)
          && (h[a].color.White? ==> !h'[a].color.Black?))
    && (forall a, b {:trigger Edge(h, a, b)} :: Edge(h, a, b) && b in h && !h[a].color.Black? && IsWhite(h', b) ==>
          !IsBlack(h', a) && Edge(h', a, b))
  }

  /** Protection survives every step that respects the marker. */
  lemma {:induction false} ProtKept(h: Heap, h': Heap, a: int, n: nat)
    requires Respects(h, h') && ProtN(h, a, n)
    ensures Safe(h', a)
    decreases n
  {
    if n == 0 {
      assert a in h';
      if !IsBlack(h', a) { GraySafe(h', a); }
    } else {
      var b :| ProtN(h, b, n - 1) && Edge(h, b, a);
      ProtKept(h, h', b, n - 1);
      assert a in h' && b in h';
      if IsWhite(h', a) {
        assert !h[b].color.Black?;
        EdgeSafe(h', b, a);
      } else if IsGray(h', a) {
        GraySafe(h', a);
      }
    }
  }

  lemma SafeKept(h: Heap, h': Heap, a: int)
    requires Respects(h, h') && Safe(h, a)
    ensures Safe(h', a)
  {
    if IsBlack(h, a) {
      assert a in h';
    } else {
      var n: nat :| ProtN(h, a, n);
      ProtKept(h, h', a, n);
    }
  }
}
