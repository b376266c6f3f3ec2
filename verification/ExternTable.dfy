/**
 * The hash table in which `extern_rec` remembers the blocks it has written. It is probed linearly, and it is
 * not cleared between calls: an entry counts only if its stamp is at least `init`, the first of the current call.
 */
module ExternTable {
  import opened Powers

  const HASH_FACTOR: int := 2654435769
  const WORD: int := 0x1_0000_0000

  datatype Entry = Entry(ofs: nat, obj: int)

  /** Multiplicative hashing: the top `k` bits of the product. */
  function Hash(v: int, k: nat): int
    requires k <= 32
  {
    ((v * HASH_FACTOR) % WORD) / Pow2(32 - k)
  }

  lemma DivBound(x: nat, a: nat, b: nat)
    requires b > 0 && x < a * b
    ensures 0 <= x / b < a
  {
    var q := x / b;
    assert q * b <= x;
    assert (a - q) * b > 0;
  }

  lemma HashBound(v: int, k: nat)
    requires k <= 32
    ensures 0 <= Hash(v, k) < Pow2(k)
  {
    Pow2Word();
    Pow2Sum(k, 32 - k);
    DivBound((v * HASH_FACTOR) % WORD, Pow2(k), Pow2(32 - k));
  }

  predicate Live(t: seq<Entry>, init: nat, j: int) { 0 <= j < |t| && t[j].ofs >= init }

  /** The `d`-th slot probed from `h`. */
  function Slot(h: int, d: int, n: int): int { if h + d < n then h + d else h + d - n }

  /** The first `d` slots probed for `v` are taken. */
  ghost predicate Taken(t: seq<Entry>, init: nat, h: int, d: int) {
    forall x {:trigger Slot(h, x, |t|)} :: 0 <= x < d ==> Live(t, init, Slot(h, x, |t|))
  }

  /** Probing for the object in slot `j` gets to `j`. */
  ghost predicate Findable(t: seq<Entry>, init: nat, k: nat, j: int) {
    k <= 32 && 0 <= j < |t| && exists d ::
      0 <= d < |t| && Slot(Hash(t[j].obj, k), d, |t|) == j && Taken(t, init, Hash(t[j].obj, k), d)
  }

  function LiveSet(t: seq<Entry>, init: nat): set<nat> {
    set j: nat | j < |t| && t[j].ofs >= init
  }

  /** The table stands for the map `m` from objects to their numbers. */
  ghost predicate Stands(t: seq<Entry>, init: nat, k: nat, m: map<int, nat>) {
    && k <= 32 && |t| == Pow2(k)
    && (forall j {:trigger Live(t, init, j)} :: Live(t, init, j) ==>
          t[j].obj in m && t[j].ofs == init + m[t[j].obj] && Findable(t, init, k, j))
    && (forall v {:trigger v in m} :: v in m ==> exists j :: Live(t, init, j) && t[j].obj == v)
    && (forall i, j {:trigger Live(t, init, i), Live(t, init, j)} ::
        Live(t, init, i) && Live(t, init, j) && t[i].obj == t[j].obj ==> i == j)
    && |LiveSet(t, init)| == |m|
  }

  // ---- Free slots -------------------------------------------------------------------------------------

  lemma {:induction false} FullSize(t: seq<Entry>, init: nat)
    requires forall j {:trigger t[j]} :: 0 <= j < |t| ==> t[j].ofs >= init
    ensures |LiveSet(t, init)| == |t|
  {
    if t != [] {
      var n := |t| - 1;
      FullSize(t[..n], init);
      assert LiveSet(t, init) == LiveSet(t[..n], init) + {n};
    }
  }

  lemma {:induction false} SlotOnto(h: int, n: int, j: int)
    requires 0 <= h < n && 0 <= j < n
    ensures exists d :: 0 <= d < n && Slot(h, d, n) == j
  {
    var d := if j >= h then j - h else j - h + n;
    assert Slot(h, d, n) == j;
  }

  /** As long as the table is not full, a probe meets a free slot within a round. */
  lemma ProbeEnds(t: seq<Entry>, init: nat, h: int)
    requires 0 <= h < |t| && |LiveSet(t, init)| < |t|
    ensures !Taken(t, init, h, |t|)
  {
    if Taken(t, init, h, |t|) {
      forall j | 0 <= j < |t| ensures t[j].ofs >= init {
        SlotOnto(h, |t|, j);
        var d :| 0 <= d < |t| && Slot(h, d, |t|) == j;
      }
      FullSize(t, init);
    }
  }

  // ---- Probing ----------------------------------------------------------------------------------------

  /** A probe for an object of the map meets it, before any free slot. */
  lemma ProbeMeets(t: seq<Entry>, init: nat, k: nat, m: map<int, nat>, v: int)
    requires Stands(t, init, k, m)
    ensures v in m ==> exists d {:trigger Slot(Hash(v, k), d, |t|)} :: 0 <= d < |t| && Taken(t, init, Hash(v, k), d) &&
                                    Live(t, init, Slot(Hash(v, k), d, |t|)) && t[Slot(Hash(v, k), d, |t|)].obj == v
  {
    if v in m {
      var j :| Live(t, init, j) && t[j].obj == v;
      assert Findable(t, init, k, j);
    }
  }

  /** A probe that has met only other objects and stops at a free slot: the object is not in the map. */
  lemma ProbeMisses(t: seq<Entry>, init: nat, k: nat, m: map<int, nat>, v: int, d: int)
    requires Stands(t, init, k, m) && 0 <= d < |t| && !Live(t, init, Slot(Hash(v, k), d, |t|)) &&
             Others(t, Hash(v, k), d, v)
    ensures v !in m
  {
    ProbeMeets(t, init, k, m, v);
    hide Stands, Findable, Hash;
    var h := Hash(v, k);
    forall d' {:trigger Slot(h, d', |t|)} | 0 <= d' < |t| && Taken(t, init, h, d') && Live(t, init, Slot(h, d', |t|))
      ensures t[Slot(h, d', |t|)].obj != v
    {
    }
  }

  /** The first `d` slots probed hold other objects. */
  ghost predicate Others(t: seq<Entry>, h: int, d: int, v: int) {
    forall x {:trigger Slot(h, x, |t|)} :: 0 <= x < d ==> 0 <= Slot(h, x, |t|) < |t| && t[Slot(h, x, |t|)].obj != v
  }

  lemma FindableStays(t: seq<Entry>, init: nat, k: nat, h: int, e: Entry, j: int)
    requires 0 <= h < |t| && !Live(t, init, h) && e.ofs >= init && j != h && Findable(t, init, k, j)
    ensures Findable(t[h := e], init, k, j)
  {
    var t' := t[h := e];
    var d :| 0 <= d < |t| && Slot(Hash(t[j].obj, k), d, |t|) == j && Taken(t, init, Hash(t[j].obj, k), d);
    assert Taken(t', init, Hash(t'[j].obj, k), d);
  }

  lemma InsertLive(t: seq<Entry>, init: nat, k: nat, m: map<int, nat>, v: int, h: int, n: nat, j: int)
    requires Stands(t, init, k, m) && v !in m && 0 <= h < |t| && !Live(t, init, h)
    requires Findable(t[h := Entry(init + n, v)], init, k, h) && Live(t[h := Entry(init + n, v)], init, j)
    ensures var t', m' := t[h := Entry(init + n, v)], m[v := n];
            && t'[j].obj in m' && t'[j].ofs == init + m'[t'[j].obj] && Findable(t', init, k, j)
            && (j != h ==> Live(t, init, j) && t'[j].obj != v)
  {
    if j != h {
      assert Live(t, init, j);
      FindableStays(t, init, k, h, Entry(init + n, v), j);
    }
  }

  lemma InsertKnown(t: seq<Entry>, init: nat, k: nat, m: map<int, nat>, v: int, h: int, n: nat, w: int)
    requires Stands(t, init, k, m) && v !in m && 0 <= h < |t| && !Live(t, init, h) && (w in m || w == v)
    ensures var t' := t[h := Entry(init + n, v)]; exists j :: Live(t', init, j) && t'[j].obj == w
  {
    var t' := t[h := Entry(init + n, v)];
    hide Findable;
    if w == v {
      assert Live(t', init, h) && t'[h].obj == v;
    } else {
      var j :| Live(t, init, j) && t[j].obj == w;
      assert Live(t', init, j) && t'[j].obj == w;
    }
  }

  lemma InsertFindable(t: seq<Entry>, init: nat, k: nat, v: int, d: int, n: nat)
    requires k <= 32 && 0 <= d < |t| && Taken(t, init, Hash(v, k), d) && 0 <= Slot(Hash(v, k), d, |t|) < |t|
    requires !Live(t, init, Slot(Hash(v, k), d, |t|))
    ensures var h := Slot(Hash(v, k), d, |t|); Findable(t[h := Entry(init + n, v)], init, k, h)
  {
    var h := Slot(Hash(v, k), d, |t|);
    var t' := t[h := Entry(init + n, v)];
    hide Hash;
    assert t'[h].obj == v && |t'| == |t|;
    assert Taken(t', init, Hash(v, k), d);
  }

  lemma InsertCount(t: seq<Entry>, init: nat, m: map<int, nat>, v: int, h: nat, n: nat)
    requires |LiveSet(t, init)| == |m| && v !in m && h < |t| && !Live(t, init, h)
    ensures |LiveSet(t[h := Entry(init + n, v)], init)| == |m[v := n]|
  {
    var s, s' := LiveSet(t, init), LiveSet(t[h := Entry(init + n, v)], init);
    assert h !in s;
    assert s' == s + {h};
    hide LiveSet;
  }

  /** Recording an object in the free slot where its probe stopped. */
  lemma InsertStands(t: seq<Entry>, init: nat, k: nat, m: map<int, nat>, v: int, d: int, n: nat, h: int, e: Entry)
    requires Stands(t, init, k, m) && v !in m && 0 <= d < |t| && 0 <= h < |t|
    requires Taken(t, init, Hash(v, k), d) && h == Slot(Hash(v, k), d, |t|) && !Live(t, init, h) &&
             e == Entry(init + n, v)
    ensures Stands(t[h := e], init, k, m[v := n])
  {
    var t', m' := t[h := e], m[v := n];
    InsertFindable(t, init, k, v, d, n);
    InsertCount(t, init, m, v, h, n);
    hide Findable, Taken, Slot, Hash, LiveSet, Pow2;
    forall j | Live(t', init, j)
      ensures t'[j].obj in m' && t'[j].ofs == init + m'[t'[j].obj] && Findable(t', init, k, j) &&
              (j != h ==> Live(t, init, j) && t'[j].obj != v)
    {
      InsertLive(t, init, k, m, v, h, n, j);
    }
    forall w | w in m' ensures exists j :: Live(t', init, j) && t'[j].obj == w {
      InsertKnown(t, init, k, m, v, h, n, w);
    }
  }

  lemma {:induction false} Doubled(k: nat)
    ensures Pow2(k + 1) == 2 * Pow2(k)
  {
  }

  /** All stamps are below `hi`. */
  ghost predicate Older(t: seq<Entry>, hi: nat) {
    forall j {:trigger t[j]} :: 0 <= j < |t| ==> t[j].ofs < hi
  }

  /** All stamps are zero, or from `lo` to `hi`. */
  ghost predicate Stamped(t: seq<Entry>, lo: nat, hi: nat) {
    forall j {:trigger t[j]} :: 0 <= j < |t| ==> t[j].ofs == 0 || lo <= t[j].ofs < hi
  }

  lemma StampMore(t: seq<Entry>, lo: nat, hi: nat, h: int, e: Entry)
    requires 0 <= h < |t| && lo <= e.ofs
    ensures Stamped(t, lo, hi) && e.ofs < hi ==> Stamped(t[h := e], lo, hi)
    ensures Older(t, hi) && e.ofs <= hi ==> Older(t[h := e], hi + 1)
  {
  }

  lemma StampedZero(t: seq<Entry>, lo: nat, hi: nat)
    requires lo > 0 && forall j {:trigger t[j]} :: 0 <= j < |t| ==> t[j].ofs == 0
    ensures Stamped(t, lo, hi) && Older(t, lo)
  {
  }

  lemma StampedOlder(t: seq<Entry>, lo: nat, hi: nat)
    requires Stamped(t, lo, hi) && hi > 0
    ensures Older(t, hi)
  {
  }

  /** An empty table. */
  lemma EmptyStands(t: seq<Entry>, init: nat, k: nat)
    requires k <= 32 && |t| == Pow2(k) && Older(t, init)
    ensures Stands(t, init, k, map[])
  {
    assert LiveSet(t, init) == {};
  }

  // ---- The table ----------------------------------------------------------------------------------------

  const INITIAL_SIZE_LOG2: nat := 11
  const INITIAL_OFFSET_MAX: nat := 0x8000_0000
  const MAX_OBJECTS: nat := 0x2000_0000

  lemma {:induction false} Pow2Less(i: nat, j: nat)
    requires Pow2(i) < Pow2(j)
    ensures i < j
    decreases j
  {
    if i > 0 && j > 0 { Pow2Less(i - 1, j - 1); }
  }

  lemma GrowthFits(k: nat, n: nat)
    requires Pow2(k) <= 2 * n && n < MAX_OBJECTS
    ensures k < 31
  {
    Pow2Word();
    Pow2Less(k, 31);
  }

  /** An object that has been written, a new one, or a search that finds no end. */
  datatype Answer = Seen(d: int) | New | Endless

  // ---- Tables left behind -------------------------------------------------------------------------------------------

  /** The slots that the next call uses of a table that is left to it. */
  function FirstSlots(t: seq<Entry>): seq<Entry> {
    if |t| > Pow2(INITIAL_SIZE_LOG2) then t[..Pow2(INITIAL_SIZE_LOG2)] else t
  }

  /** The `d`-th slot probed for `v` is the first that holds it, and those before are taken. */
  ghost predicate Meets(t: seq<Entry>, init: nat, k: nat, v: int, d: int) {
    && k <= 32 && 0 <= d < |t| && Taken(t, init, Hash(v, k), d) && Others(t, Hash(v, k), d, v)
    && Live(t, init, Slot(Hash(v, k), d, |t|)) && t[Slot(Hash(v, k), d, |t|)].obj == v
  }

  /** All slots are taken, and none holds `v`. */
  ghost predicate Full(t: seq<Entry>, init: nat, v: int) {
    forall j {:trigger t[j]} :: 0 <= j < |t| ==> t[j].ofs >= init && t[j].obj != v
  }

  /** What looking `v` up in a table, whatever it holds, answers and does to the table and to the number of objects. */
  ghost predicate Looked(t: seq<Entry>, init: nat, k: nat, v: int, n: nat, r: Answer, t': seq<Entry>, n': nat) {
    && (r.Endless? <==> Full(t, init, v))
    && (r.Seen? <==> exists d :: Meets(t, init, k, v, d))
    && (forall d {:trigger Meets(t, init, k, v, d)} :: Meets(t, init, k, v, d) ==>
          r == Seen((n - (t[Slot(Hash(v, k), d, |t|)].ofs - init)) % WORD))
    && if r.New? then n' == n + 1 && exists h :: 0 <= h < |t| && !Live(t, init, h) && t' == t[h := Entry(init + n, v)]
       else t' == t && n' == n
  }

  lemma LookedFull(t: seq<Entry>, init: nat, k: nat, v: int, n: nat)
    requires k <= 32 && |t| == Pow2(k) && |t| > 0
    requires Taken(t, init, Hash(v, k), |t|) && Others(t, Hash(v, k), |t|, v)
    ensures Looked(t, init, k, v, n, Endless, t, n)
  {
    HashBound(v, k);
    hide Hash, Pow2;
    forall j {:trigger t[j]} | 0 <= j < |t|
      ensures t[j].ofs >= init && t[j].obj != v
    {
      SlotOnto(Hash(v, k), |t|, j);
      var d :| 0 <= d < |t| && Slot(Hash(v, k), d, |t|) == j;
    }
  }

  lemma LookedSeen(t: seq<Entry>, init: nat, k: nat, v: int, n: nat, d: int)
    requires Meets(t, init, k, v, d)
    ensures Looked(t, init, k, v, n, Seen((n - (t[Slot(Hash(v, k), d, |t|)].ofs - init)) % WORD), t, n)
  {
    hide Hash, Taken, Others;
    assert !Full(t, init, v) by { assert t[Slot(Hash(v, k), d, |t|)].obj == v; }
    forall e {:trigger Meets(t, init, k, v, e)} | Meets(t, init, k, v, e)
      ensures e == d
    {
      FirstMeets(t, init, k, v, d, e);
      FirstMeets(t, init, k, v, e, d);
    }
  }

  lemma FirstMeets(t: seq<Entry>, init: nat, k: nat, v: int, d: int, e: int)
    requires Meets(t, init, k, v, d) && Meets(t, init, k, v, e)
    ensures e >= d
  {
  }

  lemma LookedNew(t: seq<Entry>, init: nat, k: nat, v: int, n: nat, d: int)
    requires k <= 32 && 0 <= d < |t| && Others(t, Hash(v, k), d, v)
    requires 0 <= Slot(Hash(v, k), d, |t|) < |t| && !Live(t, init, Slot(Hash(v, k), d, |t|))
    ensures Looked(t, init, k, v, n, New, t[Slot(Hash(v, k), d, |t|) := Entry(init + n, v)], n + 1)
  {
    hide Hash;
    var h := Slot(Hash(v, k), d, |t|);
    assert !Full(t, init, v) by { assert t[h].ofs < init; }
    forall e {:trigger Meets(t, init, k, v, e)} | 0 <= e < |t|
      ensures !Meets(t, init, k, v, e)
    {
      if e >= d { MissedAt(t, init, Hash(v, k), d, e); }
    }
  }

  lemma MissedAt(t: seq<Entry>, init: nat, h: int, d: int, e: int)
    requires 0 <= d <= e && !Live(t, init, Slot(h, d, |t|))
    ensures !(Taken(t, init, h, e) && Live(t, init, Slot(h, e, |t|)))
  {
  }

  /** `v` is in a slot that its probe reaches. */
  ghost predicate HasSlot(s: seq<Entry>, init: nat, v: int) {
    exists j :: Live(s, init, j) && s[j].obj == v && Findable(s, init, INITIAL_SIZE_LOG2, j)
  }

  /**
   * In what is left of a table that stood for `m`, an object is met if and only if it is in one of the first slots and
   * all slots between its hash and that one are taken; its number is then the old one.
   */
  lemma StaleMeets(t: seq<Entry>, init: nat, k: nat, m: map<int, nat>, v: int)
    requires Stands(t, init, k, m) && k >= INITIAL_SIZE_LOG2
    ensures var s := FirstSlots(t);
            && |s| == Pow2(INITIAL_SIZE_LOG2)
            && ((exists d :: Meets(s, init, INITIAL_SIZE_LOG2, v, d)) <==> HasSlot(s, init, v))
            && (forall d {:trigger Meets(s, init, INITIAL_SIZE_LOG2, v, d)} ::
                Meets(s, init, INITIAL_SIZE_LOG2, v, d) ==>
                  v in m && s[Slot(Hash(v, INITIAL_SIZE_LOG2), d, |s|)].ofs == init + m[v])
            && (k == INITIAL_SIZE_LOG2 ==> (v in m <==> HasSlot(s, init, v)))
  {
    hide Hash, Slot, LiveSet, Pow2, Stands, HasSlot, Taken, Others;
    var s, k0 := FirstSlots(t), INITIAL_SIZE_LOG2;
    Pow2Mono(k0, k);
    StandsFacts(t, init, k, m);
    forall d {:trigger Meets(s, init, k0, v, d)} | Meets(s, init, k0, v, d)
      ensures v in m && s[Slot(Hash(v, k0), d, |s|)].ofs == init + m[v] && HasSlot(s, init, v)
    {
      MetOld(t, init, k, m, s, v, d);
    }
    if HasSlot(s, init, v) {
      var d := SlotMet(t, init, k, m, s, v);
    }
    if k == k0 {
      assert s == t;
      SlotOfEach(t, init, m, v);
    }
  }

  lemma MetOld(t: seq<Entry>, init: nat, k: nat, m: map<int, nat>, s: seq<Entry>, v: int, d: int)
    requires Stands(t, init, k, m) && s <= t && Meets(s, init, INITIAL_SIZE_LOG2, v, d)
    ensures v in m && s[Slot(Hash(v, INITIAL_SIZE_LOG2), d, |s|)].ofs == init + m[v] && HasSlot(s, init, v)
  {
    hide Hash, Slot, LiveSet;
    var j := Slot(Hash(v, INITIAL_SIZE_LOG2), d, |s|);
    assert Live(t, init, j) && t[j] == s[j];
    assert Findable(s, init, INITIAL_SIZE_LOG2, j);
  }

  lemma SlotMet(t: seq<Entry>, init: nat, k: nat, m: map<int, nat>, s: seq<Entry>, v: int) returns (d: int)
    requires Stands(t, init, k, m) && s <= t && |s| == Pow2(INITIAL_SIZE_LOG2) && HasSlot(s, init, v)
    ensures Meets(s, init, INITIAL_SIZE_LOG2, v, d)
  {
    hide Hash, Slot, LiveSet, Pow2, Stands;
    var j :| Live(s, init, j) && s[j].obj == v && Findable(s, init, INITIAL_SIZE_LOG2, j);
    var h := Hash(v, INITIAL_SIZE_LOG2);
    d :| 0 <= d < |s| && Slot(h, d, |s|) == j && Taken(s, init, h, d);
    HashBound(v, INITIAL_SIZE_LOG2);
    OthersBefore(t, init, k, m, s, v, j, d);
  }

  lemma SlotOfEach(t: seq<Entry>, init: nat, m: map<int, nat>, v: int)
    requires Stands(t, init, INITIAL_SIZE_LOG2, m)
    ensures v in m <==> HasSlot(t, init, v)
  {
    hide Hash, Slot, LiveSet;
    if v in m {
      var j :| Live(t, init, j) && t[j].obj == v;
      assert Findable(t, init, INITIAL_SIZE_LOG2, j);
    }
  }

  lemma OthersBefore(t: seq<Entry>, init: nat, k: nat, m: map<int, nat>, s: seq<Entry>, v: int, j: int, d: int)
    requires Stands(t, init, k, m) && s <= t && Live(s, init, j) && s[j].obj == v && 0 <= d < |s|
    requires 0 <= Hash(v, INITIAL_SIZE_LOG2) < |s| && Slot(Hash(v, INITIAL_SIZE_LOG2), d, |s|) == j
    requires Taken(s, init, Hash(v, INITIAL_SIZE_LOG2), d)
    ensures Others(s, Hash(v, INITIAL_SIZE_LOG2), d, v)
  {
    hide Hash, LiveSet, Findable;
    var h := Hash(v, INITIAL_SIZE_LOG2);
    forall x {:trigger Slot(h, x, |s|)} | 0 <= x < d
      ensures 0 <= Slot(h, x, |s|) < |s| && s[Slot(h, x, |s|)].obj != v
    {
      var i := Slot(h, x, |s|);
      assert i != j && Live(s, init, i);
      assert Live(t, init, i) && t[i] == s[i] && Live(t, init, j) && t[j] == s[j];
    }
  }


  class ObjectTable {
    var table: seq<Entry>
    var log2: nat
    var initialOfs: nat
    var objCounter: nat
    ghost var m: map<int, nat>

    /** During a call. */
    ghost predicate Valid()
      reads this
    {
      && 1 <= initialOfs < INITIAL_OFFSET_MAX && objCounter == |m| <= MAX_OBJECTS && log2 >= INITIAL_SIZE_LOG2
      && Stands(table, initialOfs, log2, m) && 2 * objCounter <= Pow2(log2) && Older(table, initialOfs + objCounter)
      && (forall v {:trigger v in m} :: v in m ==> m[v] < objCounter)
      && (log2 > INITIAL_SIZE_LOG2 ==> 2 * objCounter >= Pow2(INITIAL_SIZE_LOG2))
    }

    /** At the start of a call, whatever the table holds. */
    ghost predicate Sized()
      reads this
    {
      log2 <= 32 && |table| == Pow2(log2)
    }

    /** Between calls: there is no table, or what is left in it is older than the next call. */
    ghost predicate Idle()
      reads this
    {
      table != [] ==>
        |table| == Pow2(INITIAL_SIZE_LOG2) && 1 <= initialOfs < INITIAL_OFFSET_MAX && Older(table, initialOfs)
    }

    constructor ()
      ensures Idle() && table == []
    {
      table, log2, initialOfs, objCounter, m := [], INITIAL_SIZE_LOG2, 1, 0, map[];
    }

    /**
     * The start of `extern_value`. A table that is idle stands for the empty map; of one that still holds objects the
     * first slots are used, with what they hold.
     */
    method Begin()
      modifies this
      ensures objCounter == 0 && log2 == INITIAL_SIZE_LOG2
      ensures old(Idle()) ==> Valid() && m == map[]
      ensures !old(Idle()) ==> table == FirstSlots(old(table)) && initialOfs == old(initialOfs) && m == old(m)
    {
      ghost var idle := Idle();
      log2 := INITIAL_SIZE_LOG2;
      if table == [] {
        table := seq(Pow2(log2), _ => Entry(0, 0));
        initialOfs := 1;
      } else {
        table := FirstSlots(table);
      }
      objCounter := 0;
      if idle {
        m := map[];
        EmptyStands(table, initialOfs, log2);
      }
    }

    /** `resize_extern_table` */
    method Resize()
      requires Valid() && objCounter < MAX_OBJECTS && 2 * objCounter >= Pow2(log2)
      modifies this`table, this`log2
      ensures Valid() && 2 * objCounter < Pow2(log2)
    {
      hide Stands, Pow2, Partial, Older, LiveSet;
      GrowthFits(log2, objCounter);
      Doubled(log2);
      StandsFacts(table, initialOfs, log2, m);
      var oldTable := table;
      ghost var k := log2;
      log2 := log2 + 1;
      table := seq(Pow2(log2), _ => Entry(0, 0));
      ghost var part: map<int, nat> := map[];
      StampedZero(table, initialOfs, initialOfs + objCounter);
      EmptyStands(table, initialOfs, log2);
      PartialNone(oldTable, initialOfs, m);
      var i := 0;
      while i < |oldTable|
        invariant 0 <= i <= |oldTable| && |part| <= i && log2 == k + 1
        invariant Stands(table, initialOfs, log2, part) && Partial(oldTable, initialOfs, m, i, part)
        invariant Stamped(table, initialOfs, initialOfs + objCounter)
      {
        if oldTable[i].ofs >= initialOfs {
          PartialEntry(oldTable, initialOfs, k, m, i, part, objCounter);
          Reinsert(oldTable[i], part);
          part := part[oldTable[i].obj := oldTable[i].ofs - initialOfs];
        } else {
          PartialSkip(oldTable, initialOfs, m, i, part);
        }
        i := i + 1;
      }
      PartialAll(oldTable, initialOfs, k, m, part);
      StampedOlder(table, initialOfs, initialOfs + objCounter);
    }

    /** Puts an entry of the old table in the new one. */
    method Reinsert(e: Entry, ghost part: map<int, nat>)
      requires 1 <= initialOfs <= e.ofs < initialOfs + objCounter && Stamped(table, initialOfs, initialOfs + objCounter)
      requires Stands(table, initialOfs, log2, part) && e.obj !in part && |part| < Pow2(log2)
      modifies this`table
      ensures Stands(table, initialOfs, log2, part[e.obj := e.ofs - initialOfs])
      ensures Stamped(table, initialOfs, initialOfs + objCounter)
    {
      hide *;
      StandsFacts(table, initialOfs, log2, part);
      HashBound(e.obj, log2);
      var h, d := FreeSlot(Hash(e.obj, log2));
      InsertStands(table, initialOfs, log2, part, e.obj, d, e.ofs - initialOfs, h, e);
      StampMore(table, initialOfs, initialOfs + objCounter, h, e);
      table := table[h := e];
    }

    /** The first empty slot from `h0` on. */
    method FreeSlot(h0: int) returns (h: int, ghost d: int)
      requires 0 <= h0 < |table| && |LiveSet(table, initialOfs)| < |table| && initialOfs >= 1
      requires Stamped(table, initialOfs, initialOfs + objCounter)
      ensures 0 <= d < |table| && 0 <= h < |table| && h == Slot(h0, d, |table|)
      ensures Taken(table, initialOfs, h0, d) && !Live(table, initialOfs, h)
    {
      hide LiveSet, Taken;
      ProbeEnds(table, initialOfs, h0);
      h, d := h0, 0;
      TakenNone(table, initialOfs, h0);
      while table[h].ofs > 0
        invariant 0 <= d < |table| && h == Slot(h0, d, |table|) && 0 <= h < |table| && Taken(table, initialOfs, h0, d)
        decreases |table| - d
      {
        TakenNext(table, initialOfs, h0, d);
        h := if h + 1 == |table| then 0 else h + 1;
        d := d + 1;
      }
    }

    /** The slot of `v`, or the first free slot, from `h0` on; a full round without either would go on for ever. */
    method FindSlot(h0: int, v: int) returns (endless: bool, h: int, ghost d: int)
      requires 0 <= h0 < |table|
      ensures endless ==> Taken(table, initialOfs, h0, |table|) && Others(table, h0, |table|, v)
      ensures !endless ==> 0 <= d < |table| && 0 <= h < |table| && h == Slot(h0, d, |table|)
      ensures !endless ==> Taken(table, initialOfs, h0, d) && Others(table, h0, d, v)
      ensures !endless && Live(table, initialOfs, h) ==> table[h].obj == v
    {
      endless, h, d := false, h0, 0;
      var round := 0;
      while table[h].ofs >= initialOfs
        invariant 0 <= d == round < |table| && h == Slot(h0, d, |table|) && 0 <= h < |table| && !endless
        invariant Taken(table, initialOfs, h0, d) && Others(table, h0, d, v)
        decreases |table| - d
      {
        if table[h].obj == v { return; }
        if round + 1 == |table| { return true, h, d; }
        h := if h + 1 == |table| then 0 else h + 1;
        d, round := d + 1, round + 1;
      }
    }

    /** The part of `extern_rec` that looks `v` up, and records it if it is new; the offset is an unsigned word. */
    method Record(v: int) returns (r: Answer)
      requires Valid() || Sized()
      requires objCounter < MAX_OBJECTS && (!Valid() ==> 2 * objCounter < Pow2(log2))
      modifies this
      ensures old(Valid()) ==> Valid() && initialOfs == old(initialOfs)
      ensures old(Valid()) && v in old(m) ==>
              r == Seen((old(objCounter) - old(m)[v]) % WORD) && m == old(m) && objCounter == old(objCounter)
      ensures old(Valid()) && v !in old(m) ==>
              r == New && m == old(m)[v := old(objCounter)] && objCounter == old(objCounter) + 1
      ensures 2 * old(objCounter) < Pow2(old(log2)) ==>
              && initialOfs == old(initialOfs) && log2 == old(log2)
              && Looked(old(table), initialOfs, log2, v, old(objCounter), r, table, objCounter)
    {
      hide Stands, Pow2, Hash, LiveSet, Taken, Others, Slot, Older, Looked;
      PowPositive(log2);
      if 2 * objCounter >= Pow2(log2) {
        Resize();
      }
      ghost var valid := Valid();
      if valid { StandsFacts(table, initialOfs, log2, m); }
      HashBound(v, log2);
      if valid { ProbeEnds(table, initialOfs, Hash(v, log2)); }
      ghost var d;
      var endless, h;
      endless, h, d := FindSlot(Hash(v, log2), v);
      if endless {
        LookedFull(table, initialOfs, log2, v, objCounter);
        r := Endless;
      } else if table[h].ofs >= initialOfs {
        if valid { StandsAt(table, initialOfs, log2, m, h); }
        assert Meets(table, initialOfs, log2, v, d);
        LookedSeen(table, initialOfs, log2, v, objCounter, d);
        r := Seen((objCounter - (table[h].ofs - initialOfs)) % WORD);
      } else {
        LookedNew(table, initialOfs, log2, v, objCounter, d);
        var e := Entry(initialOfs + objCounter, v);
        if valid {
          ProbeMisses(table, initialOfs, log2, m, v, d);
          InsertStands(table, initialOfs, log2, m, v, d, objCounter, h, e);
          StampMore(table, initialOfs, initialOfs + objCounter, h, e);
          EvenHalf(log2, objCounter);
        }
        table, m := table[h := e], m[v := objCounter];
        objCounter := objCounter + 1;
        r := New;
      }
    }

    /** The end of a call, normal or through `extern_invalid_argument`: the stamps never wrap around. */
    method Finish()
      requires Valid()
      modifies this
      ensures Idle() && objCounter == old(objCounter) && old(initialOfs) + old(objCounter) < WORD
    {
      hide Stands, LiveSet, Pow2;
      StandsFacts(table, initialOfs, log2, m);
      initialOfs := initialOfs + objCounter;
      if log2 > INITIAL_SIZE_LOG2 || initialOfs >= INITIAL_OFFSET_MAX {
        table := [];
      }
    }
  }

  lemma StandsFacts(t: seq<Entry>, init: nat, k: nat, m: map<int, nat>)
    requires Stands(t, init, k, m)
    ensures k <= 32 && |t| == Pow2(k) && |LiveSet(t, init)| == |m|
  {
  }

  lemma PowPositive(k: nat)
    ensures Pow2(k) >= 1
  {
  }

  /** A table with an object of the current call is not idle. */
  lemma NotOlder(t: seq<Entry>, init: nat, k: nat, m: map<int, nat>, v: int)
    requires Stands(t, init, k, m) && v in m
    ensures t != [] && !Older(t, init)
  {
    hide Findable;
    var j :| Live(t, init, j) && t[j].obj == v;
  }

  lemma StandsAt(t: seq<Entry>, init: nat, k: nat, m: map<int, nat>, j: int)
    requires Stands(t, init, k, m) && Live(t, init, j)
    ensures t[j].obj in m && t[j].ofs == init + m[t[j].obj]
  {
  }

  lemma EvenHalf(k: nat, n: nat)
    requires 2 * n < Pow2(k) && k > 0
    ensures 2 * (n + 1) <= Pow2(k)
  {
  }

  lemma TakenNone(t: seq<Entry>, init: nat, h: int)
    ensures Taken(t, init, h, 0)
  {
  }

  /** The probe goes on: the slot is taken, so there is a next one. */
  lemma TakenNext(t: seq<Entry>, init: nat, h: int, d: int)
    requires 0 <= h < |t| && 0 <= d < |t| && Taken(t, init, h, d) && Live(t, init, Slot(h, d, |t|)) &&
             !Taken(t, init, h, |t|)
    ensures d + 1 < |t| && Taken(t, init, h, d + 1)
  {
    assert Taken(t, init, h, d + 1);
  }

  // ---- Copying a table ------------------------------------------------------------------------------------

  /** The part of the map that comes from the first `i` slots. */
  ghost predicate Partial(t: seq<Entry>, init: nat, m: map<int, nat>, i: int, part: map<int, nat>) {
    && 0 <= i <= |t|
    && (forall v {:trigger v in part} :: v in part ==>
        v in m && part[v] == m[v] && exists j :: j < i && Live(t, init, j) && t[j].obj == v)
    && (forall j {:trigger Live(t, init, j)} :: j < i && Live(t, init, j) ==> t[j].obj in part)
  }

  lemma PartialNone(t: seq<Entry>, init: nat, m: map<int, nat>)
    ensures Partial(t, init, m, 0, map[])
  {
  }

  lemma PartialSkip(t: seq<Entry>, init: nat, m: map<int, nat>, i: int, part: map<int, nat>)
    requires Partial(t, init, m, i, part) && i < |t| && !Live(t, init, i)
    ensures Partial(t, init, m, i + 1, part)
  {
  }

  lemma PartialEntry(t: seq<Entry>, init: nat, k: nat, m: map<int, nat>, i: int, part: map<int, nat>, n: nat)
    requires Stands(t, init, k, m) && Partial(t, init, m, i, part) && i < |t| && Live(t, init, i)
    requires forall v {:trigger v in m} :: v in m ==> m[v] < n
    ensures t[i].obj !in part && t[i].ofs < init + n
    ensures Partial(t, init, m, i + 1, part[t[i].obj := t[i].ofs - init])
  {
    hide Findable;
  }

  lemma PartialAll(t: seq<Entry>, init: nat, k: nat, m: map<int, nat>, part: map<int, nat>)
    requires Stands(t, init, k, m) && Partial(t, init, m, |t|, part)
    ensures part == m
  {
  }
}
