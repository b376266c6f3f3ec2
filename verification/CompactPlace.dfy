/** `compact_allocate`: where passes 3 and 4 put the live blocks. */
module CompactPlace {
  import opened HeapWords
  import opened CompactLayout

  /** Words handed out in each chunk, and the chunk where the search starts. */
  datatype Alloc = Alloc(used: seq<nat>, fl: nat)

  function Room(chunks: seq<Chunk>, used: seq<nat>, j: nat): int
    requires j < |chunks| && |used| == |chunks|
  {
    chunks[j].size - used[j]
  }

  /** The search start moves past chunks with room for at most three fields, as long as the next one is as full. */
  function SkipFull(chunks: seq<Chunk>, used: seq<nat>, j: nat): (r: nat)
    requires j < |chunks| && |used| == |chunks|
    ensures j <= r < |chunks|
    decreases |chunks| - j
  {
    if j + 1 < |chunks| && Room(chunks, used, j) <= 4 && Room(chunks, used, j + 1) <= 4
    then SkipFull(chunks, used, j + 1) else j
  }

  /** The search reads the size of the chunk after the last one: the code tests no end of list here. */
  predicate SkipReadsPastEnd(chunks: seq<Chunk>, used: seq<nat>, j: nat)
    requires j < |chunks| && |used| == |chunks|
    decreases |chunks| - j
  {
    Room(chunks, used, j) <= 4 &&
    (j + 1 == |chunks| || (Room(chunks, used, j + 1) <= 4 && SkipReadsPastEnd(chunks, used, j + 1)))
  }

  /** It happens exactly when every chunk from the search start on has room for at most three fields. */
  lemma {:induction false} SkipReadsPastEndIff(chunks: seq<Chunk>, used: seq<nat>, j: nat)
    requires j < |chunks| && |used| == |chunks|
    ensures SkipReadsPastEnd(chunks, used, j) <==> forall i :: j <= i < |chunks| ==> Room(chunks, used, i) <= 4
    decreases |chunks| - j
  {
    if j + 1 < |chunks| {
      SkipReadsPastEndIff(chunks, used, j + 1);
    }
  }

  /** The first chunk from `j` with room for `size` words, or `|chunks|`. */
  function FindRoom(chunks: seq<Chunk>, used: seq<nat>, j: nat, size: nat): (r: nat)
    requires j <= |chunks| && |used| == |chunks|
    ensures j <= r <= |chunks|
    ensures r < |chunks| ==> Room(chunks, used, r) >= size
    decreases |chunks| - j
  {
    if j < |chunks| && Room(chunks, used, j) < size then FindRoom(chunks, used, j + 1, size) else j
  }

  /** The chunk that an allocation of `size` words is taken from. */
  function Chosen(chunks: seq<Chunk>, a: Alloc, size: nat): nat
    requires |a.used| == |chunks| && a.fl < |chunks|
  {
    FindRoom(chunks, a.used, SkipFull(chunks, a.used, a.fl), size)
  }

  function AllocStep(chunks: seq<Chunk>, a: Alloc, size: nat): (r: Alloc)
    requires |a.used| == |chunks| && a.fl < |chunks| && Chosen(chunks, a, size) < |chunks|
    ensures |r.used| == |chunks| && r.fl < |chunks|
  {
    var j := Chosen(chunks, a, size);
    Alloc(a.used[j := a.used[j] + size], SkipFull(chunks, a.used, a.fl))
  }

  function AllocAddr(chunks: seq<Chunk>, a: Alloc, size: nat): int
    requires |a.used| == |chunks| && a.fl < |chunks| && Chosen(chunks, a, size) < |chunks|
  {
    chunks[Chosen(chunks, a, size)].start + a.used[Chosen(chunks, a, size)]
  }

  /** The allocator of the compactor: per-chunk counters and `compact_fl`. */
  class Allocator {
    const chunks: seq<Chunk>
    var used: seq<nat>
    var fl: nat

    /** Some search has read the size of the chunk after the last one. */
    var pastEnd: bool

    ghost predicate Valid() reads this { |used| == |chunks| && fl < |chunks| }
    function State(): Alloc reads this { Alloc(used, fl) }

    /** `init_compact_allocate` */
    constructor (chunks: seq<Chunk>)
      requires |chunks| > 0
      ensures Valid() && this.chunks == chunks && State() == Alloc(seq(|chunks|, _ => 0), 0) && !pastEnd
    {
      this.chunks := chunks;
      used := seq(|chunks|, _ => 0);
      fl, pastEnd := 0, false;
    }

    /** `compact_allocate`; what the search finds past the last chunk is taken not to be a full chunk. */
    method Allocate(size: nat) returns (adr: int)
      requires Valid() && Chosen(chunks, State(), size) < |chunks|
      modifies this
      ensures Valid()
      ensures State() == AllocStep(chunks, old(State()), size)
      ensures adr == AllocAddr(chunks, old(State()), size)
      ensures pastEnd <==> old(pastEnd) || SkipReadsPastEnd(chunks, old(used), old(fl))
    {
      ghost var before := SkipReadsPastEnd(chunks, used, fl);
      while Room(chunks, used, fl) <= 4
        invariant Valid() && used == old(used) && pastEnd == old(pastEnd)
        invariant SkipFull(chunks, used, fl) == SkipFull(chunks, old(used), old(fl))
        invariant SkipReadsPastEnd(chunks, used, fl) == before
        decreases |chunks| - fl
      {
        if fl + 1 == |chunks| {
          pastEnd := true;
          break;
        }
        if Room(chunks, used, fl + 1) > 4 { break; }
        fl := fl + 1;
      }
      var j := fl;
      while Room(chunks, used, j) < size
        invariant fl <= j < |chunks|
        invariant FindRoom(chunks, used, j, size) == FindRoom(chunks, used, fl, size)
        decreases |chunks| - j
      {
        j := j + 1;
      }
      adr := chunks[j].start + used[j];
      used := used[j := used[j] + size];
    }
  }

  // ---- What the sequence of allocations guarantees -----------------------------------------

  /** When the walk is at `p` in chunk `j`: nothing handed out beyond `p`, nothing at all in later chunks. */
  ghost predicate Behind(h: Heap, a: Alloc, j: int, p: int) {
    && |a.used| == |h.chunks| && a.fl <= j < |h.chunks|
    && a.used[j] <= p - h.chunks[j].start && p <= h.chunks[j].End()
    && (forall i :: 0 <= i < j ==> a.used[i] <= h.chunks[i].size)
    && (forall i :: j < i < |h.chunks| ==> a.used[i] == 0)
  }

  lemma {:induction false} SkipStays(h: Heap, a: Alloc, j: int, p: int, f: nat)
    requires ChunksOk(h) && Behind(h, a, j, p) && f <= j
    ensures SkipFull(h.chunks, a.used, f) <= j
    decreases j - f
  {
    if f < j {
      SkipStays(h, a, j, p, f + 1);
    }
  }

  lemma {:induction false} FindStops(chunks: seq<Chunk>, used: seq<nat>, f: nat, j: nat, size: nat)
    requires f <= j < |chunks| && |used| == |chunks| && Room(chunks, used, j) >= size
    ensures FindRoom(chunks, used, f, size) <= j
    decreases j - f
  {
    if f < j {
      FindStops(chunks, used, f + 1, j, size);
    }
  }

  /**
   * The search never runs off the chunk list, the address is at or below the block's own,
   * and the walk stays ahead of the allocator.
   */
  lemma AllocStaysBehind(h: Heap, a: Alloc, j: int, p: int, size: nat)
    requires ChunksOk(h) && Behind(h, a, j, p) && p + size <= h.chunks[j].End()
    ensures Chosen(h.chunks, a, size) <= j
    ensures AllocAddr(h.chunks, a, size) <= p
    ensures Behind(h, AllocStep(h.chunks, a, size), j, p + size)
  {
    SkipStays(h, a, j, p, a.fl);
    var f := SkipFull(h.chunks, a.used, a.fl);
    FindStops(h.chunks, a.used, f, j, size);
    var i := Chosen(h.chunks, a, size);
    if i < j {
      assert h.chunks[i].End() <= h.chunks[j].start;
    }
  }

  /** The allocator after it has served those of the first `k` blocks that are live. */
  ghost function Placed(h: Heap, live: seq<bool>, k: nat): Alloc
    requires k <= |h.blocks| == |live|
  {
    if k == 0 then Alloc(seq(|h.chunks|, _ => 0), 0)
    else
      PlaceOne(h, Placed(h, live, k - 1), live[k-1], h.blocks[k-1])
  }

  ghost function PlaceOne(h: Heap, a: Alloc, live: bool, b: Block): Alloc {
    if live && Serves(h, a, b) then AllocStep(h.chunks, a, b.Whsize()) else a
  }

  /** Placing those of the first `k` blocks that are live makes some search read past the last chunk. */
  ghost predicate PastEnd(h: Heap, live: seq<bool>, k: nat)
    requires k <= |h.blocks| == |live|
  {
    k > 0 && (PastEnd(h, live, k - 1) || (live[k-1] && SkipsPast(h, Placed(h, live, k - 1))))
  }

  ghost predicate SkipsPast(h: Heap, a: Alloc) {
    |a.used| == |h.chunks| && a.fl < |h.chunks| && SkipReadsPastEnd(h.chunks, a.used, a.fl)
  }

  /** No chunk from the search start on has room for more than three fields. */
  ghost predicate AllFull(h: Heap, a: Alloc) {
    && |a.used| == |h.chunks| && a.fl < |h.chunks|
    && forall i :: a.fl <= i < |h.chunks| ==> Room(h.chunks, a.used, i) <= 4
  }

  /** A compaction reads past the last chunk exactly when all chunks left are full at the turn of some live block. */
  lemma {:induction false} PastEndIff(h: Heap, live: seq<bool>, k: nat)
    requires k <= |h.blocks| == |live|
    ensures PastEnd(h, live, k) <==> exists i: nat :: i < k && live[i] && AllFull(h, Placed(h, live, i))
    decreases k
  {
    hide Placed, Room, SkipReadsPastEnd;
    if k > 0 {
      PastEndIff(h, live, k - 1);
      var a := Placed(h, live, k - 1);
      if |a.used| == |h.chunks| && a.fl < |h.chunks| { SkipReadsPastEndIff(h.chunks, a.used, a.fl); }
    }
  }

  ghost predicate Serves(h: Heap, a: Alloc, b: Block) {
    |a.used| == |h.chunks| && a.fl < |h.chunks| && Chosen(h.chunks, a, b.Whsize()) < |h.chunks|
  }

  /** Chunk number and address that block `k` gets. */
  ghost function NewChunk(h: Heap, live: seq<bool>, k: nat): nat
    requires k < |h.blocks| == |live|
  {
    var a := Placed(h, live, k);
    if Serves(h, a, h.blocks[k]) then Chosen(h.chunks, a, h.blocks[k].Whsize()) else 0
  }

  ghost function NewAdr(h: Heap, live: seq<bool>, k: nat): int
    requires k < |h.blocks| == |live|
  {
    var a := Placed(h, live, k);
    if Serves(h, a, h.blocks[k]) then AllocAddr(h.chunks, a, h.blocks[k].Whsize()) else 0
  }

  lemma {:induction false} PlacedBehind(h: Heap, live: seq<bool>, k: nat)
    requires ChunksOk(h) && Tiled(h) && k < |h.blocks| == |live|
    ensures Behind(h, Placed(h, live, k), h.blocks[k].chunk, h.blocks[k].pos)
    decreases k
  {
    if k == 0 {
      assert Tile(h, 0);
    } else {
      PlacedBehind(h, live, k - 1);
      PlaceOneBehind(h, Placed(h, live, k - 1), live[k-1], k);
    }
  }

  lemma PlaceOneBehind(h: Heap, a: Alloc, live: bool, k: nat)
    requires ChunksOk(h) && Tiled(h) && 0 < k < |h.blocks|
    requires Behind(h, a, h.blocks[k-1].chunk, h.blocks[k-1].pos)
    ensures Behind(h, PlaceOne(h, a, live, h.blocks[k-1]), h.blocks[k].chunk, h.blocks[k].pos)
  {
    var b := h.blocks[k-1];
    assert Tile(h, k - 1);
    hide ChunksOk, Tiled, SkipFull, FindRoom;
    if live && Serves(h, a, b) {
      AllocStaysBehind(h, a, b.chunk, b.pos, b.Whsize());
    }
    hide Behind, AllocStep;
    BehindNext(h, PlaceOne(h, a, live, b), k);
  }

  lemma BehindNext(h: Heap, a: Alloc, k: nat)
    requires ChunksOk(h) && 0 < k < |h.blocks| && Tile(h, k - 1)
    requires Behind(h, a, h.blocks[k-1].chunk, h.blocks[k-1].End()) ||
             Behind(h, a, h.blocks[k-1].chunk, h.blocks[k-1].pos)
    ensures Behind(h, a, h.blocks[k].chunk, h.blocks[k].pos)
  {
  }

  /**
   * Compaction only slides blocks down: the chosen chunk exists and is not after the block's own,
   * the new place lies inside it, and it ends no later than the block itself.
   */
  lemma SlidesDown(h: Heap, live: seq<bool>, k: nat)
    requires ChunksOk(h) && Tiled(h) && k < |h.blocks| == |live|
    ensures Serves(h, Placed(h, live, k), h.blocks[k])
    ensures var j, a := NewChunk(h, live, k), NewAdr(h, live, k);
            && j <= h.blocks[k].chunk < |h.chunks|
            && 0 < h.chunks[j].start <= a <= h.blocks[k].pos
            && a + h.blocks[k].Whsize() <= h.chunks[j].End()
  {
    assert Tile(h, k);
    var b, a := h.blocks[k], Placed(h, live, k);
    PlacedBehind(h, live, k);
    AllocStaysBehind(h, a, b.chunk, b.pos, b.Whsize());
  }

  lemma {:induction false} UsedCovers(h: Heap, live: seq<bool>, i: nat, k: nat)
    requires ChunksOk(h) && Tiled(h) && i < k <= |h.blocks| == |live| && live[i]
    ensures |Placed(h, live, k).used| == |h.chunks| && NewChunk(h, live, i) < |h.chunks|
    ensures var j := NewChunk(h, live, i);
            NewAdr(h, live, i) + h.blocks[i].Whsize() <= h.chunks[j].start + Placed(h, live, k).used[j]
    decreases k
  {
    hide ChunksOk, Tiled, SkipFull, FindRoom;
    SlidesDown(h, live, k - 1);
    if i < k - 1 {
      UsedCovers(h, live, i, k - 1);
    }
  }

  /** Two live blocks get disjoint places. */
  lemma Disjoint(h: Heap, live: seq<bool>, i: nat, k: nat)
    requires ChunksOk(h) && Tiled(h) && i < k < |h.blocks| == |live| && live[i]
    ensures || NewAdr(h, live, i) + h.blocks[i].Whsize() <= NewAdr(h, live, k)
            || NewAdr(h, live, k) + h.blocks[k].Whsize() <= NewAdr(h, live, i)
  {
    SlidesDown(h, live, i);
    SlidesDown(h, live, k);
    UsedCovers(h, live, i, k);
    var a, b := NewChunk(h, live, i), NewChunk(h, live, k);
    if a < b {
      assert h.chunks[a].End() <= h.chunks[b].start;
    } else if b < a {
      assert h.chunks[b].End() <= h.chunks[a].start;
    }
  }

  /** Moving block `k` down overwrites no block that comes after it. */
  lemma NoOverwrite(h: Heap, live: seq<bool>, k: nat, m: nat)
    requires ChunksOk(h) && Tiled(h) && k < m < |h.blocks| == |live|
    ensures NewAdr(h, live, k) + h.blocks[k].Whsize() <= h.blocks[m].pos
  {
    SlidesDown(h, live, k);
    Sorted(h, k, m);
  }
}
