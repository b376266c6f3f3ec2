/**
 * The round trip of marshalling, as a program sees it: what it reads from the value read back, along any path of
 * fields, is what it would have read from the value written; in blocks that hold it, apart from each other.
 */
module MarshalPaths {
  import opened MarshalCodes
  import opened MarshalSpec
  import opened MarshalRound
  import MarshalFormat

  /** A value, after at most `n` forwarding blocks. */
  function Lead(m: Memory, v: Val, n: nat): Val
    decreases n
  {
    if n > 0 && v.Ptr? && v.a in m && m[v.a].Forward? then Lead(m, m[v.a].v, n - 1) else v
  }

  datatype Sight = Nothing | Sees(v: Val)

  predicate HasField(m: Memory, v: Val, i: nat) {
    (v.Ptr? || v.Infix?) && v.a in m && m[v.a].Fields? && i < |m[v.a].vals|
  }

  /** What a path of fields leads to. */
  function Read(m: Memory, v: Val, path: seq<nat>, n: nat): Sight
    decreases |path|
  {
    var x := Lead(m, v, n);
    if path == [] then Sees(x)
    else if HasField(m, x, path[0]) then Read(m, m[x.a].vals[path[0]], path[1..], n)
    else Nothing
  }

  /** Both have the same bytes or numbers, or the same tag and number of fields. */
  predicate SameBlock(b: Block, c: Block) {
    if b.Fields? then c.Fields? && c.tag == b.tag && |c.vals| == |b.vals| else c == b && !b.Forward?
  }

  predicate Alike(h: Memory, m: Memory, x: Val, y: Val) {
    match x
    case Ptr(a) => y.Ptr? && a in h && y.a in m && SameBlock(h[a], m[y.a])
    case Infix(a, ofs) => y.Infix? && y.ofs == ofs && a in h && y.a in m && SameBlock(h[a], m[y.a])
    case _ => y == x
  }

  predicate SeenAlike(h: Memory, m: Memory, x: Sight, y: Sight) {
    if x.Sees? then y.Sees? && Alike(h, m, x.v, y.v) else y.Nothing?
  }

  /** `n` steps end every chain of forwarding blocks. */
  ghost predicate Ends(env: Env, n: nat) {
    forall a {:trigger env.rank[a]} :: a in env.rank ==> env.rank[a] < n
  }

  ghost predicate Copied(env: Env, v: Val, seen: seq<int>, w: Val, objs: seq<int>, mem: Memory) {
    Isomorphic(env, v, seen, w, objs, mem) && Whole(env, seen)
  }

  predicate Shut(env: Env, v: Val) { v.Ptr? && v.a in env.h && env.h[v.a].Forward? }

  lemma {:induction false} LeadSkip(env: Env, v: Val, n: nat)
    requires !Shut(env, Skip(env, v)) && (v.Ptr? ==> RankOf(env, v) <= n)
    ensures Lead(env.h, v, n) == Skip(env, v)
    decreases n
  {
    if Shut(env, v) {
      var u := env.h[v.a].v;
      assert Skip(env, v) == Skip(env, u) && RankOf(env, u) < RankOf(env, v);
      LeadSkip(env, u, n - 1);
    }
  }

  lemma {:induction false} IndexIs(seen: seq<int>, a: int)
    ensures IndexOf(seen, a) < |seen| ==> seen[IndexOf(seen, a)] == a
  {
    if seen != [] && seen[0] != a { IndexIs(seen[1..], a); }
  }

  lemma CopyAt(env: Env, v: Val, seen: seq<int>, w: Val, objs: seq<int>, mem: Memory, a: int, b: int)
    requires Copied(env, v, seen, w, objs, mem) && CopyOf(seen, objs, a, b)
    ensures a in env.h && b in mem && !env.h[a].Forward? && RelBlock(env, seen, objs, env.h[a], mem[b])
    ensures SameBlock(env.h[a], mem[b]) && !mem[b].Forward?
  {
    hide Rel;
    IndexIs(seen, a);
    var k := IndexOf(seen, a);
    assert seen[k] == a && objs[k] == b;
  }

  /** Where corresponding values lead. */
  lemma LeadAlike(env: Env, v: Val, seen: seq<int>, w: Val, objs: seq<int>, mem: Memory, x: Val, y: Val, n: nat)
    requires Copied(env, v, seen, w, objs, mem) && Rel(env, seen, objs, x, y) && Ends(env, n)
    ensures Lead(env.h, x, n) == Skip(env, x) && Lead(mem, y, n) == y && Alike(env.h, mem, Skip(env, x), y)
    ensures Skip(env, x).Ptr? || Skip(env, x).Infix? ==> CopyOf(seen, objs, Skip(env, x).a, y.a)
  {
    hide IndexOf, RelBlock, Isomorphic, SameBlock, Whole, CopyOf;
    var s := Skip(env, x);
    if s.Ptr? || s.Infix? { CopyAt(env, v, seen, w, objs, mem, s.a, y.a); }
    LeadSkip(env, x, n);
  }

  /**
   * A path of fields leads somewhere from one value if and only if it does from the other: to the same immediate value,
   * atom or code pointer, or to a block with the same contents, at the same offset in it.
   */
  lemma {:induction false} ReadsSame(env: Env, v: Val, seen: seq<int>, w: Val, objs: seq<int>, mem: Memory, x: Val,
                                     y: Val, path: seq<nat>, n: nat)
    requires Copied(env, v, seen, w, objs, mem) && Rel(env, seen, objs, x, y) && Ends(env, n)
    ensures SeenAlike(env.h, mem, Read(env.h, x, path, n), Read(mem, y, path, n))
    ensures var r, q := Read(env.h, x, path, n), Read(mem, y, path, n);
            r.Sees? && (r.v.Ptr? || r.v.Infix?) ==> CopyOf(seen, objs, r.v.a, q.v.a)
    decreases |path|
  {
    hide Isomorphic, Whole, IndexOf, CopyOf, Lead, Skip, Rel;
    LeadAlike(env, v, seen, w, objs, mem, x, y, n);
    var s := Skip(env, x);
    if path != [] && HasField(env.h, s, path[0]) {
      CopyAt(env, v, seen, w, objs, mem, s.a, y.a);
      var x', y' := env.h[s.a].vals[path[0]], mem[y.a].vals[path[0]];
      assert Rel(env, seen, objs, x', y');
      ReadsSame(env, v, seen, w, objs, mem, x', y', path[1..], n);
    }
  }

  predicate Points(s: Sight) { s.Sees? && (s.v.Ptr? || s.v.Infix?) }

  lemma CopiesDistinct(env: Env, v: Val, seen: seq<int>, w: Val, objs: seq<int>, mem: Memory, a: int, b: int, c: int,
                       d: int)
    requires Copied(env, v, seen, w, objs, mem) && CopyOf(seen, objs, a, c) && CopyOf(seen, objs, b, d)
    ensures a == b <==> c == d
  {
    hide Rel, RelBlock, IndexOf, Whole;
    IndexIs(seen, a);
    IndexIs(seen, b);
  }

  /** What a program reads from the value read back is what it would have read from the value written. */
  lemma Restored(env: Env, v: Val, base: int, rest: seq<byte>, path: seq<nat>, n: nat)
    requires EnvOk(env) && ValOk(env, v) && Extern(env, v, Start(env)).Wrote? && Ends(env, n)
    ensures var q := Intern(env.checksum, Extern(env, v, Start(env)).bytes + rest, IState([], base, map[]));
            && q.Built? && q.rest == rest
            && SeenAlike(env.h, q.st.mem, Read(env.h, v, path, n), Read(q.st.mem, q.v, path, n))
  {
    hide Extern, Intern, EnvOk, ValOk, Isomorphic, Packed, Whole, Rel, Read, SeenAlike, CopyOf;
    RoundTrip(env, v, base, rest);
    var r := Extern(env, v, Start(env));
    var q := Intern(env.checksum, r.bytes + rest, IState([], base, map[]));
    RootRel(env, v, r.st.seen, q.v, q.st.objs, q.st.mem);
    ReadsSame(env, v, r.st.seen, q.v, q.st.objs, q.st.mem, v, q.v, path, n);
  }

  lemma RootRel(env: Env, v: Val, seen: seq<int>, w: Val, objs: seq<int>, mem: Memory)
    requires Isomorphic(env, v, seen, w, objs, mem)
    ensures Rel(env, seen, objs, v, w)
  {
  }

  /** Sharing: two paths lead to one block from the value read back if and only if they do from the value written. */
  lemma SharingRestored(env: Env, v: Val, base: int, rest: seq<byte>, path: seq<nat>, other: seq<nat>, n: nat)
    requires EnvOk(env) && ValOk(env, v) && Extern(env, v, Start(env)).Wrote? && Ends(env, n)
    requires Points(Read(env.h, v, path, n)) && Points(Read(env.h, v, other, n))
    ensures var q := Intern(env.checksum, Extern(env, v, Start(env)).bytes + rest, IState([], base, map[]));
            && q.Built?
            && var x, y := Read(q.st.mem, q.v, path, n), Read(q.st.mem, q.v, other, n);
               && Points(x) && Points(y)
               && (x.v.a == y.v.a <==> Read(env.h, v, path, n).v.a == Read(env.h, v, other, n).v.a)
  {
    hide Extern, Intern, EnvOk, ValOk, Isomorphic, Packed, Whole, Rel, Read, CopyOf, SameBlock;
    RoundTrip(env, v, base, rest);
    var r := Extern(env, v, Start(env));
    var q := Intern(env.checksum, r.bytes + rest, IState([], base, map[]));
    RootRel(env, v, r.st.seen, q.v, q.st.objs, q.st.mem);
    ReadsSame(env, v, r.st.seen, q.v, q.st.objs, q.st.mem, v, q.v, path, n);
    ReadsSame(env, v, r.st.seen, q.v, q.st.objs, q.st.mem, v, q.v, other, n);
    var x, y := Read(q.st.mem, q.v, path, n), Read(q.st.mem, q.v, other, n);
    CopiesDistinct(env, v, r.st.seen, q.v, q.st.objs, q.st.mem, Read(env.h, v, path, n).v.a,
                   Read(env.h, v, other, n).v.a, x.v.a, y.v.a);
  }

  lemma CopyHolds(env: Env, v: Val, seen: seq<int>, w: Val, objs: seq<int>, mem: Memory, k: nat)
    requires Copied(env, v, seen, w, objs, mem) && k < |objs|
    ensures objs[k] in mem && !mem[objs[k]].Forward? && !Refused(mem[objs[k]])
  {
    hide Rel;
    assert seen[k] in env.h;
  }

  /** The copies lie in the space announced, each in a place that holds it, apart from the others. */
  lemma PlacesApart(env: Env, v: Val, base: int, rest: seq<byte>, j: nat, k: nat) returns (x: int, y: int)
    requires EnvOk(env) && ValOk(env, v) && Extern(env, v, Start(env)).Wrote?
    requires j < k < |Extern(env, v, Start(env)).st.seen|
    ensures var r := Extern(env, v, Start(env));
            var q := Intern(env.checksum, r.bytes + rest, IState([], base, map[]));
            && q.Built? && |q.st.objs| == |r.st.seen|
            && MarshalFormat.Placed(q.st.mem, q.st.objs, base, r.st.size, j, x)
            && MarshalFormat.Placed(q.st.mem, q.st.objs, base, r.st.size, k, y)
            && q.st.objs[j] - 1 + x <= q.st.objs[k] - 1
  {
    hide Extern, Intern, EnvOk, ValOk, Packed, Rel, RelBlock, Words;
    RoundTrip(env, v, base, rest);
    var r := Extern(env, v, Start(env));
    var q := Intern(env.checksum, r.bytes + rest, IState([], base, map[]));
    forall i | 0 <= i < |q.st.objs| ensures q.st.objs[i] in q.st.mem &&
                                            !q.st.mem[q.st.objs[i]].Forward? && !Refused(q.st.mem[q.st.objs[i]])
    {
      CopyHolds(env, v, r.st.seen, q.v, q.st.objs, q.st.mem, i);
    }
    x, y := MarshalFormat.Apart(q.st.mem, q.st.objs, base, r.st.size, j, k);
  }
}
