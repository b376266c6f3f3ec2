/** How a call of the writer ends, said without the writer: by a walk over the graph, and by what can be reached. */
module MarshalWalk {
  import opened MarshalSpec
  import MarshalRound

  /** A walk gets through and leaves some blocks unvisited, or stops at a value that cannot be written. */
  datatype Met = Through(left: set<int>) | Stopped(abandoned: bool)

  function Weight(env: Env, todo: seq<Val>): nat {
    if todo == [] then 0 else 1 + RankOf(env, todo[0]) + Weight(env, todo[1..])
  }

  lemma {:induction false} WeightSum(env: Env, s: seq<Val>, t: seq<Val>)
    ensures Weight(env, s + t) == Weight(env, s) + Weight(env, t)
  {
    if s == [] {
      assert s + t == t;
    } else {
      assert (s + t)[1..] == s[1..] + t;
      WeightSum(env, s[1..], t);
    }
  }

  /** A value on which the writer raises `Invalid_argument`. */
  predicate InvalidAt(env: Env, v: Val) {
    match v
    case Atom(tag) => tag >= 256
    case Code(_) => !env.closures
    case Ptr(a) =>
      || a !in env.h
      || env.h[a].Unsupported?
      || (env.h[a].Fields? && env.h[a].tag >= 256)
      || (env.h[a].Forward? && RankOf(env, env.h[a].v) >= RankOf(env, v))
    case _ => false
  }

  /** A value on which the writer calls `failwith`. */
  predicate AbandonsAt(env: Env, v: Val) { v.Ptr? && v.a in env.h && env.h[v.a].NoSerializer? }

  predicate StopsAt(env: Env, v: Val, abandoned: bool) {
    if abandoned then AbandonsAt(env, v) else InvalidAt(env, v)
  }

  /** A block visited before. */
  predicate Visited(env: Env, v: Val, left: set<int>) {
    v.Ptr? && v.a in env.h && !env.h[v.a].Forward? && v.a !in left
  }

  /** What visiting `v` adds to the values to visit. */
  function Opens(env: Env, v: Val, left: set<int>): seq<Val> {
    match v
    case Infix(a, _) => [Ptr(a)]
    case Ptr(a) =>
      if a !in env.h then []
      else if env.h[a].Forward? then [env.h[a].v]
      else if env.h[a].Fields? && a in left then env.h[a].vals
      else []
    case _ => []
  }

  function Enter(env: Env, v: Val, left: set<int>): set<int> {
    if v.Ptr? && v.a in env.h && !env.h[v.a].Forward? && v.a in left then left - {v.a} else left
  }

  lemma Lighter(env: Env, todo: seq<Val>, left: set<int>)
    requires todo != [] && (Visited(env, todo[0], left) || !InvalidAt(env, todo[0]))
    ensures Enter(env, todo[0], left) <= left
    ensures Enter(env, todo[0], left) == left ==> Weight(env, Opens(env, todo[0], left) + todo[1..]) < Weight(env, todo)
  {
    WeightSum(env, Opens(env, todo[0], left), todo[1..]);
  }

  /** Visits the values to visit, first one first; a block is entered at its first visit. */
  function Walk(env: Env, todo: seq<Val>, left: set<int>): Met
    decreases left, Weight(env, todo)
  {
    if todo == [] then Through(left)
    else
      var v := todo[0];
      if !Visited(env, v, left) && InvalidAt(env, v) then Stopped(false)
      else if !Visited(env, v, left) && AbandonsAt(env, v) then Stopped(true)
      else
        Lighter(env, todo, left);
        Walk(env, Opens(env, v, left) + todo[1..], Enter(env, v, left))
  }

  function After(env: Env, r: EResult, rest: seq<Val>): Met {
    if r.Fail? then Stopped(r.abandoned) else Walk(env, rest, r.st.left)
  }

  lemma {:induction false} WalkValue(env: Env, v: Val, rest: seq<Val>, st: EState)
    ensures Walk(env, [v] + rest, st.left) == After(env, Extern(env, v, st), rest)
    decreases st.left, 0, RankOf(env, v)
  {
    hide Weight, Words, RawBytes;
    assert ([v] + rest)[1..] == rest && [] + rest == rest;
    match v
    case Infix(a, _) => WalkValue(env, Ptr(a), rest, st);
    case Ptr(a) =>
      if a in env.h {
        var b := env.h[a];
        if b.Forward? {
          if RankOf(env, b.v) < RankOf(env, v) { WalkValue(env, b.v, rest, st); }
        } else if a in st.left && b.Fields? && b.tag < 256 {
          WalkFields(env, b.vals, rest, EState(st.seen + [a], st.left - {a}, st.size + Words(b)));
        }
      }
    case _ =>
  }

  lemma {:induction false} WalkFields(env: Env, vals: seq<Val>, rest: seq<Val>, st: EState)
    ensures Walk(env, vals + rest, st.left) == After(env, ExternFields(env, vals, st), rest)
    decreases st.left, 1, |vals|
  {
    if vals == [] {
      assert vals + rest == rest;
    } else {
      assert vals + rest == [vals[0]] + (vals[1..] + rest);
      WalkValue(env, vals[0], vals[1..] + rest, st);
      var r := Extern(env, vals[0], st);
      if r.Wrote? { WalkFields(env, vals[1..], rest, r.st); }
    }
  }

  // ---- What can be reached -------------------------------------------------------------------------------------

  ghost predicate Leads(env: Env, v: Val, w: Val) {
    match v
    case Infix(a, _) => w == Ptr(a)
    case Ptr(a) =>
      a in env.h && (if env.h[a].Forward? then w == env.h[a].v else env.h[a].Fields? && w in env.h[a].vals)
    case _ => false
  }

  ghost predicate ReachesIn(env: Env, v: Val, w: Val, n: nat)
    decreases n
  {
    if n == 0 then v == w else exists u :: Leads(env, v, u) && ReachesIn(env, u, w, n - 1)
  }

  ghost predicate Reaches(env: Env, v: Val, w: Val) { exists n: nat :: ReachesIn(env, v, w, n) }

  /** Nothing stops at `v` itself, and the block that it leads to has been visited. */
  ghost predicate Fine(env: Env, left: set<int>, v: Val)
    decreases RankOf(env, v)
  {
    && !InvalidAt(env, v) && !AbandonsAt(env, v)
    && (v.Infix? ==> Fine(env, left, Ptr(v.a)))
    && (v.Ptr? ==> if env.h[v.a].Forward? then Fine(env, left, env.h[v.a].v) else v.a !in left)
  }

  ghost predicate AllFine(env: Env, left: set<int>, vals: seq<Val>) {
    forall i {:trigger vals[i]} :: 0 <= i < |vals| ==> Fine(env, left, vals[i])
  }

  /** The blocks of `left` outside `left'` have fields that are fine. */
  ghost predicate Explored(env: Env, left: set<int>, left': set<int>) {
    && left' <= left
    && forall a {:trigger a in left} :: a in left && a !in left' && a in env.h && env.h[a].Fields? ==>
         AllFine(env, left', env.h[a].vals)
  }

  lemma FineNow(env: Env, left: set<int>, v: Val)
    requires !InvalidAt(env, v) && !AbandonsAt(env, v) && (v.Infix? ==> Fine(env, left, Ptr(v.a)))
    requires v.Ptr? ==> if env.h[v.a].Forward? then Fine(env, left, env.h[v.a].v) else v.a !in left
    ensures Fine(env, left, v)
  {
  }

  /** What has been visited did not stop the walk. */
  ghost predicate Passed(env: Env, left: set<int>) {
    forall a {:trigger a in left} {:trigger env.h[a]} :: a in env.h && a !in left ==>
      !Refused(env.h[a]) && (env.h[a].Fields? ==> env.h[a].tag < 256)
  }

  lemma NothingToVisit(env: Env, left: set<int>)
    ensures Explored(env, left, left) && AllFine(env, left, [])
  {
  }

  lemma ExploredLess(env: Env, left: set<int>, left': set<int>)
    requires Explored(env, left, left')
    ensures left' <= left
  {
  }

  lemma FineFirst(env: Env, left: set<int>, v: Val, rest: seq<Val>)
    requires Fine(env, left, v) && AllFine(env, left, rest)
    ensures AllFine(env, left, [v] + rest)
  {
  }

  lemma FineOne(env: Env, left: set<int>, v: Val)
    requires AllFine(env, left, [v])
    ensures Fine(env, left, v)
  {
    assert [v][0] == v;
  }

  lemma AllFinePart(env: Env, left: set<int>, s: seq<Val>, t: seq<Val>)
    requires AllFine(env, left, s + t)
    ensures AllFine(env, left, s) && AllFine(env, left, t)
  {
    assert forall i {:trigger s[i]} :: 0 <= i < |s| ==> s[i] == (s + t)[i];
    assert forall i {:trigger t[i]} :: 0 <= i < |t| ==> t[i] == (s + t)[|s| + i];
  }

  lemma ExploredMore(env: Env, left: set<int>, a: int, left': set<int>)
    requires Explored(env, left - {a}, left') && a in env.h && (env.h[a].Fields? ==> AllFine(env, left', env.h[a].vals))
    ensures Explored(env, left, left') && a !in left'
  {
    hide AllFine;
    forall b | b in left && b !in left' && b in env.h && env.h[b].Fields?
      ensures AllFine(env, left', env.h[b].vals)
    {
      if b != a { assert b in left - {a}; }
    }
  }

  /** A walk that gets through finds everything to visit fine, and explores what it enters. */
  lemma {:induction false} WalkExplores(env: Env, todo: seq<Val>, left: set<int>)
    requires Walk(env, todo, left).Through? && Passed(env, left)
    ensures Explored(env, left, Walk(env, todo, left).left) && AllFine(env, Walk(env, todo, left).left, todo)
    decreases left, Weight(env, todo)
  {
    hide Fine, AllFine, Explored;
    var left' := Walk(env, todo, left).left;
    if todo == [] {
      NothingToVisit(env, left);
    } else {
      var v, rest := todo[0], todo[1..];
      assert todo == [v] + rest;
      Lighter(env, todo, left);
      WalkExplores(env, Opens(env, v, left) + rest, Enter(env, v, left));
      AllFinePart(env, left', Opens(env, v, left), rest);
      if v.Ptr? && v.a in left && !env.h[v.a].Forward? { ExploredMore(env, left, v.a, left'); }
      ExploredLess(env, left, left');
      if v.Infix? { FineOne(env, left', Ptr(v.a)); }
      if v.Ptr? && env.h[v.a].Forward? { FineOne(env, left', env.h[v.a].v); }
      FineNow(env, left', v);
      FineFirst(env, left', v, rest);
    }
  }

  lemma FineLeads(env: Env, left: set<int>, v: Val, w: Val)
    requires Explored(env, env.h.Keys, left) && Fine(env, left, v) && Leads(env, v, w)
    ensures Fine(env, left, w)
  {
    if v.Ptr? && env.h[v.a].Fields? {
      assert v.a in env.h.Keys;
      var i :| 0 <= i < |env.h[v.a].vals| && env.h[v.a].vals[i] == w;
    }
  }

  lemma {:induction false} FineReaches(env: Env, left: set<int>, v: Val, w: Val, n: nat)
    requires Explored(env, env.h.Keys, left) && Fine(env, left, v) && ReachesIn(env, v, w, n)
    ensures Fine(env, left, w)
    decreases n
  {
    hide Fine, Explored;
    if n > 0 {
      var u :| Leads(env, v, u) && ReachesIn(env, u, w, n - 1);
      FineLeads(env, left, v, u);
      FineReaches(env, left, u, w, n - 1);
    }
  }

  // ---- What a walk stops at ------------------------------------------------------------------------------------

  /** Some value to visit leads to one that stops the walk. */
  ghost predicate Reachable(env: Env, todo: seq<Val>, abandoned: bool) {
    exists i, w :: 0 <= i < |todo| && Reaches(env, todo[i], w) && StopsAt(env, w, abandoned)
  }

  lemma ReachesNow(env: Env, v: Val)
    ensures Reaches(env, v, v)
  {
    assert ReachesIn(env, v, v, 0);
  }

  lemma ReachesLater(env: Env, v: Val, u: Val, w: Val)
    requires Leads(env, v, u) && Reaches(env, u, w)
    ensures Reaches(env, v, w)
  {
    var n: nat :| ReachesIn(env, u, w, n);
    assert ReachesIn(env, v, w, n + 1);
  }

  lemma StopsNow(env: Env, todo: seq<Val>, abandoned: bool)
    requires todo != [] && StopsAt(env, todo[0], abandoned)
    ensures Reachable(env, todo, abandoned)
  {
    ReachesNow(env, todo[0]);
  }

  /** What is reached from values that the first one leads to, or from the others, is reached. */
  lemma StopsLater(env: Env, todo: seq<Val>, more: seq<Val>, abandoned: bool)
    requires todo != [] && Reachable(env, more + todo[1..], abandoned)
    requires forall i {:trigger more[i]} :: 0 <= i < |more| ==> Leads(env, todo[0], more[i])
    ensures Reachable(env, todo, abandoned)
  {
    hide Leads, StopsAt, Reaches;
    var next := more + todo[1..];
    var i, w :| 0 <= i < |next| && Reaches(env, next[i], w) && StopsAt(env, w, abandoned);
    if i < |more| {
      ReachesLater(env, todo[0], more[i], w);
    } else {
      assert next[i] == todo[i - |more| + 1];
    }
  }

  lemma {:induction false} StopIsReached(env: Env, todo: seq<Val>, left: set<int>)
    requires Walk(env, todo, left).Stopped?
    ensures Reachable(env, todo, Walk(env, todo, left).abandoned)
    decreases left, Weight(env, todo)
  {
    hide Reachable, Leads, Reaches;
    var v := todo[0];
    var k := Walk(env, todo, left).abandoned;
    if !Visited(env, v, left) && (InvalidAt(env, v) || AbandonsAt(env, v)) {
      StopsNow(env, todo, k);
    } else {
      Lighter(env, todo, left);
      StopIsReached(env, Opens(env, v, left) + todo[1..], Enter(env, v, left));
      OpensLeads(env, v, left);
      StopsLater(env, todo, Opens(env, v, left), k);
    }
  }

  lemma OpensLeads(env: Env, v: Val, left: set<int>)
    ensures forall i {:trigger Opens(env, v, left)[i]} :: 0 <= i < |Opens(env, v, left)| ==>
              Leads(env, v, Opens(env, v, left)[i])
  {
  }

  // ---- How a call ends -------------------------------------------------------------------------------------------

  /** A value that stops the writer can be reached from `v`. */
  ghost predicate Finds(env: Env, v: Val, abandoned: bool) {
    exists w :: Reaches(env, v, w) && StopsAt(env, w, abandoned)
  }

  lemma FindsOne(env: Env, v: Val, abandoned: bool)
    ensures Reachable(env, [v], abandoned) <==> Finds(env, v, abandoned)
  {
    hide Reaches, StopsAt;
    if Finds(env, v, abandoned) {
      var w :| Reaches(env, v, w) && StopsAt(env, w, abandoned);
      assert Reaches(env, [v][0], w);
    }
  }

  /**
   * How `extern_value` ends on `v`. It is abandoned if and only if a walk from `v` meets a custom block without
   * serializer before anything else that it cannot write. It succeeds if and only if nothing of either kind can be
   * reached; and if nothing invalid can be reached, it is abandoned if and only if such a custom block can.
   */
  lemma EndsHow(env: Env, v: Val)
    ensures var r := Extern(env, v, MarshalRound.Start(env));
            && (r == Fail(true) <==> Walk(env, [v], env.h.Keys) == Stopped(true))
            && (r.Wrote? <==> !Finds(env, v, false) && !Finds(env, v, true))
            && (r == Fail(true) ==> Finds(env, v, true))
            && (!Finds(env, v, false) ==> (r == Fail(true) <==> Finds(env, v, true)))
  {
    hide Walk, Extern, Finds, Reachable, Passed, Explored, AllFine;
    WalkValue(env, v, [], MarshalRound.Start(env));
    assert [v] + [] == [v];
    WalkNone(env);
    var w := Walk(env, [v], env.h.Keys);
    FindsOne(env, v, false);
    FindsOne(env, v, true);
    if w.Stopped? {
      StopIsReached(env, [v], env.h.Keys);
    } else {
      StartPassed(env);
      WalkExplores(env, [v], env.h.Keys);
      NothingFound(env, v, w.left);
    }
  }

  lemma WalkNone(env: Env)
    ensures forall left {:trigger Walk(env, [], left)} :: Walk(env, [], left) == Through(left)
  {
  }

  lemma StartPassed(env: Env)
    ensures Passed(env, env.h.Keys)
  {
  }

  lemma NothingFound(env: Env, v: Val, left: set<int>)
    requires Explored(env, env.h.Keys, left) && AllFine(env, left, [v])
    ensures !Finds(env, v, false) && !Finds(env, v, true)
  {
    hide Explored, AllFine, Fine;
    FineOne(env, left, v);
    forall w | Reaches(env, v, w)
      ensures !StopsAt(env, w, false) && !StopsAt(env, w, true)
    {
      var n: nat :| ReachesIn(env, v, w, n);
      FineReaches(env, left, v, w, n);
      FineStops(env, left, w);
    }
  }

  lemma FineStops(env: Env, left: set<int>, w: Val)
    requires Fine(env, left, w)
    ensures !StopsAt(env, w, false) && !StopsAt(env, w, true)
  {
  }
}
