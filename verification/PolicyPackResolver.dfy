/** The policy-pack dependency resolver: a depth-first post-order that steps over cycles. */
module PolicyPackResolver {
  import opened Sorting
  import opened Texts

  type PackId = Text

  /** The packs that may be resolved, and each pack's declared dependencies. */
  datatype Graph = Graph(available: set<PackId>, deps: map<PackId, seq<PackId>>)

  function Deps(g: Graph, p: PackId): seq<PackId> {
    if p in g.deps then g.deps[p] else []
  }

  datatype State = State(visiting: set<PackId>, visited: set<PackId>, resolved: seq<PackId>)

  /** The packs a visit can still enter: what the recursion's depth is measured by. */
  function Unentered(g: Graph, st: State): set<PackId> {
    g.available - st.visiting - st.visited
  }

  function Visit(g: Graph, st: State, p: PackId): (st': State)
    ensures st'.visiting == st.visiting
    ensures st.visited <= st'.visited
    ensures st.resolved <= st'.resolved
    decreases Unentered(g, st), 0
  {
    if p !in g.available || p in st.visited || p in st.visiting then st
    else
      var entered := st.(visiting := st.visiting + {p});
      assert p in Unentered(g, st) && p !in Unentered(g, entered);
      var left := VisitAll(g, entered, Deps(g, p));
      State(left.visiting - {p}, left.visited + {p}, left.resolved + [p])
  }

  function VisitAll(g: Graph, st: State, ds: seq<PackId>): (st': State)
    ensures st'.visiting == st.visiting
    ensures st.visited <= st'.visited
    ensures st.resolved <= st'.resolved
    decreases Unentered(g, st), |ds|
  {
    if ds == [] then st
    else
      var next := Visit(g, st, ds[0]);
      assert Unentered(g, next) <= Unentered(g, st);
      VisitAll(g, next, ds[1..])
  }

  const START := State({}, {}, [])

  function Resolve(g: Graph, requested: seq<PackId>): seq<PackId> {
    VisitAll(g, START, requested).resolved
  }

  // ------------------------------------------------------------------ the search

  class Resolver {
    const graph: Graph
    var visiting: set<PackId>
    var visited: set<PackId>
    var resolved: seq<PackId>

    ghost function Now(): State
      reads this
    {
      State(visiting, visited, resolved)
    }

    constructor (graph: Graph)
      ensures this.graph == graph && Now() == START
    {
      this.graph := graph;
      visiting, visited, resolved := {}, {}, [];
    }

    method VisitPack(packId: PackId)
      modifies this
      ensures Now() == Visit(graph, old(Now()), packId)
      decreases Unentered(graph, Now())
    {
      if packId !in graph.available {
        return;
      }
      if packId in visited {
        return;
      }
      if packId in visiting {
        return;
      }
      ghost var before := Now();
      visiting := visiting + {packId};
      ghost var entered := Now();
      assert packId in Unentered(graph, before) && packId !in Unentered(graph, entered);
      if packId in graph.deps {
        var deps := graph.deps[packId];
        assert deps[0..] == deps;
        for i := 0 to |deps|
          invariant VisitAll(graph, Now(), deps[i..]) == VisitAll(graph, entered, deps)
          invariant visiting == entered.visiting && entered.visited <= visited
        {
          assert deps[i..][0] == deps[i] && deps[i..][1..] == deps[i + 1..];
          assert Unentered(graph, Now()) < Unentered(graph, before);
          VisitPack(deps[i]);
        }
      }
      visiting := visiting - {packId};
      visited := visited + {packId};
      resolved := resolved + [packId];
    }
  }

  // ------------------------------------------------------------------ reachability

  /** A walk along dependencies that stays inside the available packs. */
  ghost predicate IsPath(g: Graph, path: seq<PackId>) {
    && path != []
    && (forall p <- path :: p in g.available)
    && forall i :: 0 <= i < |path| - 1 ==> path[i + 1] in Deps(g, path[i])
  }

  ghost predicate Reaches(g: Graph, a: PackId, b: PackId) {
    exists path :: IsPath(g, path) && path[0] == a && path[|path| - 1] == b
  }

  lemma ReachesItself(g: Graph, a: PackId)
    requires a in g.available
    ensures Reaches(g, a, a)
  {
    assert IsPath(g, [a]);
  }

  lemma ReachesStep(g: Graph, a: PackId, b: PackId, c: PackId)
    requires Reaches(g, a, b) && c in Deps(g, b) && c in g.available
    ensures Reaches(g, a, c)
  {
    var path :| IsPath(g, path) && path[0] == a && path[|path| - 1] == b;
    var longer := path + [c];
    assert forall i :: 0 <= i < |longer| - 1 ==> i < |path| - 1 || longer[i] == b;
    assert IsPath(g, longer);
  }

  lemma StepReaches(g: Graph, a: PackId, b: PackId, c: PackId)
    requires a in g.available && b in Deps(g, a) && Reaches(g, b, c)
    ensures Reaches(g, a, c)
  {
    var path :| IsPath(g, path) && path[0] == b && path[|path| - 1] == c;
    var longer := [a] + path;
    forall i | 0 <= i < |longer| - 1 ensures longer[i + 1] in Deps(g, longer[i]) {
      assert i > 0 ==> longer[i] == path[i - 1] && longer[i + 1] == path[i];
    }
    assert IsPath(g, longer);
  }

  // -------------------------------------------------------------------- invariants

  /** Every available dependency of an emitted pack was emitted before it, unless it leads
      back to that pack. */
  ghost predicate Ordered(g: Graph, resolved: seq<PackId>) {
    forall i, d :: 0 <= i < |resolved| && d in Deps(g, resolved[i]) && d in g.available ==>
      d in resolved[..i] || Reaches(g, d, resolved[i])
  }

  /** What holds between any two steps of the search. */
  ghost predicate Invariant(g: Graph, st: State) {
    && st.visiting <= g.available && st.visited <= g.available && st.visiting !! st.visited
    && (forall p :: p in st.resolved <==> p in st.visited)
    && Distinct(st.resolved)
    && Ordered(g, st.resolved)
    && (forall q, d :: q in st.visited && d in Deps(g, q) && d in g.available ==>
          d in st.visited || d in st.visiting)
  }

  /** `p`, if it is available, can be reached from everything being visited. */
  ghost predicate OnStack(g: Graph, st: State, p: PackId) {
    p in g.available ==> forall v <- st.visiting :: Reaches(g, v, p)
  }

  lemma {:induction false} VisitKeeps(g: Graph, st: State, p: PackId)
    requires Invariant(g, st) && OnStack(g, st, p)
    ensures Invariant(g, Visit(g, st, p))
    ensures p in g.available ==> p in Visit(g, st, p).visited || p in st.visiting
    decreases Unentered(g, st), 0
  {
    if p in g.available && p !in st.visited && p !in st.visiting {
      var entered := st.(visiting := st.visiting + {p});
      assert p in Unentered(g, st) && p !in Unentered(g, entered);
      var ds := Deps(g, p);
      ReachesItself(g, p);
      forall d | d in ds ensures OnStack(g, entered, d) {
        if d in g.available {
          forall v | v in entered.visiting ensures Reaches(g, v, d) {
            ReachesStep(g, v, p, d);
          }
        }
      }
      VisitAllKeeps(g, entered, ds);
      LeaveKeeps(g, st, p, VisitAll(g, entered, ds));
    }
  }

  /** Emitting `p` once all its dependencies have been dealt with. */
  lemma LeaveKeeps(g: Graph, st: State, p: PackId, left: State)
    requires Invariant(g, left) && left.visiting == st.visiting + {p} && p !in st.visiting
    requires p in g.available && OnStack(g, st, p)
    requires forall d :: d in Deps(g, p) && d in g.available ==> d in left.visited || d in left.visiting
    ensures Invariant(g, State(left.visiting - {p}, left.visited + {p}, left.resolved + [p]))
  {
    var resolved := left.resolved + [p];
    ReachesItself(g, p);
    forall i, d | 0 <= i < |resolved| && d in Deps(g, resolved[i]) && d in g.available
      ensures d in resolved[..i] || Reaches(g, d, resolved[i])
    {
      if i < |left.resolved| {
        assert resolved[i] == left.resolved[i] && resolved[..i] == left.resolved[..i];
      } else {
        assert resolved[..i] == left.resolved;
      }
    }
  }

  lemma {:induction false} VisitAllKeeps(g: Graph, st: State, ds: seq<PackId>)
    requires Invariant(g, st) && forall d <- ds :: OnStack(g, st, d)
    ensures Invariant(g, VisitAll(g, st, ds))
    ensures forall d <- ds :: d in g.available ==> d in VisitAll(g, st, ds).visited || d in st.visiting
    decreases Unentered(g, st), |ds|
  {
    if ds == [] {
    } else {
      VisitKeeps(g, st, ds[0]);
      var next := Visit(g, st, ds[0]);
      assert Unentered(g, next) <= Unentered(g, st);
      forall d | d in ds[1..] ensures OnStack(g, next, d) {
        assert d in ds && OnStack(g, st, d);
      }
      VisitAllKeeps(g, next, ds[1..]);
      assert forall d <- ds :: d == ds[0] || d in ds[1..];
    }
  }

  /** Nothing is visited that the visit did not reach. */
  lemma {:induction false} VisitSound(g: Graph, st: State, p: PackId, x: PackId)
    requires x in Visit(g, st, p).visited && x !in st.visited
    ensures Reaches(g, p, x)
    decreases Unentered(g, st), 0
  {
    var entered := st.(visiting := st.visiting + {p});
    assert p in Unentered(g, st) && p !in Unentered(g, entered);
    if x == p {
      ReachesItself(g, p);
    } else {
      var d := VisitAllSound(g, entered, Deps(g, p), x);
      StepReaches(g, p, d, x);
    }
  }

  lemma {:induction false} VisitAllSound(g: Graph, st: State, ds: seq<PackId>, x: PackId) returns (d: PackId)
    requires x in VisitAll(g, st, ds).visited && x !in st.visited
    ensures d in ds && Reaches(g, d, x)
    decreases Unentered(g, st), |ds|
  {
    var next := Visit(g, st, ds[0]);
    assert Unentered(g, next) <= Unentered(g, st);
    if x in next.visited {
      VisitSound(g, st, ds[0], x);
      d := ds[0];
    } else {
      d := VisitAllSound(g, next, ds[1..], x);
    }
  }

  // ---------------------------------------------------------------- main results

  lemma ResolveKeeps(g: Graph, requested: seq<PackId>)
    ensures Invariant(g, VisitAll(g, START, requested))
    ensures VisitAll(g, START, requested).visiting == {}
    ensures forall r <- requested :: r in g.available ==> r in Resolve(g, requested)
  {
    VisitAllKeeps(g, START, requested);
  }

  lemma PathTail(g: Graph, path: seq<PackId>)
    requires IsPath(g, path) && |path| > 1
    ensures IsPath(g, path[1..])
  {
    var rest := path[1..];
    forall i | 0 <= i < |rest| - 1 ensures rest[i + 1] in Deps(g, rest[i]) {
      assert path[i + 1 + 1] in Deps(g, path[i + 1]);
    }
  }

  /** A set closed under available dependencies holds everything its members reach. */
  lemma {:induction false} ClosedUnderPaths(g: Graph, s: set<PackId>, path: seq<PackId>)
    requires IsPath(g, path) && path[0] in s
    requires forall q, d :: q in s && d in Deps(g, q) && d in g.available ==> d in s
    ensures path[|path| - 1] in s
    decreases |path|
  {
    if |path| <= 1 {
    } else {
      assert path[1] in Deps(g, path[0]) && path[1] in path;
      PathTail(g, path);
      ClosedUnderPaths(g, s, path[1..]);
    }
  }

  /** The output is exactly what the requests reach through available packs, each pack once. */
  lemma ResolvedExactly(g: Graph, requested: seq<PackId>, x: PackId)
    ensures Distinct(Resolve(g, requested))
    ensures x in Resolve(g, requested) <==> exists r :: r in requested && Reaches(g, r, x)
  {
    ResolveKeeps(g, requested);
    var end := VisitAll(g, START, requested);
    if x in end.visited {
      var r := VisitAllSound(g, START, requested, x);
    }
    if r :| r in requested && Reaches(g, r, x) {
      var path :| IsPath(g, path) && path[0] == r && path[|path| - 1] == x;
      assert r in end.visited;
      ClosedUnderPaths(g, end.visited, path);
    }
  }

  /** In any graph, cyclic or not, an available dependency comes before its dependent unless
      it leads back to it. */
  lemma ResolvedInOrder(g: Graph, requested: seq<PackId>, i: nat, d: PackId)
    requires i < |Resolve(g, requested)| && d in Deps(g, Resolve(g, requested)[i]) && d in g.available
    ensures d in Resolve(g, requested)[..i] || Reaches(g, d, Resolve(g, requested)[i])
  {
    ResolveKeeps(g, requested);
  }

  /** Every available dependency other than the pack itself comes before the pack. */
  ghost predicate Settled(g: Graph, s: seq<PackId>) {
    forall i, d :: 0 <= i < |s| && d in Deps(g, s[i]) && d in g.available && d != s[i] ==> d in s[..i]
  }

  /** No pack the requests reach lies on a cycle through another pack. */
  ghost predicate CycleFree(g: Graph, requested: seq<PackId>) {
    forall r, a, b :: r in requested && Reaches(g, r, a) && b in Deps(g, a) && b != a && b in g.available ==>
      !Reaches(g, b, a)
  }

  /** The output is a topological order exactly when the requests reach no such cycle. */
  lemma TopologicalIffCycleFree(g: Graph, requested: seq<PackId>)
    ensures Settled(g, Resolve(g, requested)) <==> CycleFree(g, requested)
  {
    var out := Resolve(g, requested);
    ResolveKeeps(g, requested);
    if CycleFree(g, requested) {
      forall i, d | 0 <= i < |out| && d in Deps(g, out[i]) && d in g.available && d != out[i]
        ensures d in out[..i]
      {
        ResolvedExactly(g, requested, out[i]);
        ResolvedInOrder(g, requested, i, d);
      }
    }
    if Settled(g, out) {
      forall r, a, b | r in requested && Reaches(g, r, a) && b in Deps(g, a) && b != a && b in g.available
        ensures !Reaches(g, b, a)
      {
        ResolvedExactly(g, requested, a);
        var i :| 0 <= i < |out| && out[i] == a;
        assert b in out[..i];
        if Reaches(g, b, a) {
          var path :| IsPath(g, path) && path[0] == b && path[|path| - 1] == a;
          PathsGoBack(g, out, i, path);
        }
      }
    }
  }

  /** In a settled order a walk that starts among the first `n` packs stays there. */
  lemma PathsGoBack(g: Graph, s: seq<PackId>, n: nat, path: seq<PackId>)
    requires Settled(g, s) && Distinct(s) && n < |s|
    requires IsPath(g, path) && path[0] in s[..n]
    ensures path[|path| - 1] in s[..n]
    ensures path[|path| - 1] != s[n]
  {
    var before := set p | p in s[..n];
    forall q, d | q in before && d in Deps(g, q) && d in g.available ensures d in before {
      var j :| 0 <= j < n && s[j] == q;
      if d != q {
        assert d in s[..j];
        assert s[..j] == s[..n][..j];
      }
    }
    ClosedUnderPaths(g, before, path);
  }

  // ------------------------------------------------------------------- idempotence

  lemma {:induction false} VisitAllAppend(g: Graph, st: State, ds: seq<PackId>, es: seq<PackId>)
    ensures VisitAll(g, st, ds + es) == VisitAll(g, VisitAll(g, st, ds), es)
    decreases |ds|
  {
    if ds == [] {
      assert ds + es == es;
    } else {
      assert (ds + es)[1..] == ds[1..] + es;
      VisitAllAppend(g, Visit(g, st, ds[0]), ds[1..], es);
    }
  }

  lemma {:induction false} NothingToVisit(g: Graph, st: State, ds: seq<PackId>)
    requires forall d <- ds :: d in g.available ==> d in st.visited || d in st.visiting
    ensures VisitAll(g, st, ds) == st
    decreases |ds|
  {
    if ds == [] {
    } else {
      assert Visit(g, st, ds[0]) == st;
      NothingToVisit(g, st, ds[1..]);
    }
  }

  /** The state after emitting exactly the packs of `s`. */
  ghost function After(s: seq<PackId>): State {
    State({}, (set p | p in s), s)
  }

  /** A pack whose dependencies are all out of the way is emitted on the spot. */
  lemma {:induction false} VisitReady(g: Graph, front: seq<PackId>, p: PackId)
    requires p in g.available && p !in front
    requires forall d <- Deps(g, p) :: d in g.available && d != p ==> d in front
    ensures VisitAll(g, After(front), [p]) == After(front + [p])
  {
    var st := After(front);
    var entered := st.(visiting := st.visiting + {p});
    NothingToVisit(g, entered, Deps(g, p));
    assert [p][1..] == [];
    assert Visit(g, st, p) == State(entered.visiting - {p}, st.visited + {p}, front + [p]);
    assert st.visited + {p} == After(front + [p]).visited;
  }

  lemma {:induction false} ReplayOne(g: Graph, front: seq<PackId>, p: PackId)
    requires p in g.available && p !in front && VisitAll(g, START, front) == After(front)
    requires forall d <- Deps(g, p) :: d in g.available && d != p ==> d in front
    ensures VisitAll(g, START, front + [p]) == After(front + [p])
  {
    VisitReady(g, front, p);
    VisitAllAppend(g, START, front, [p]);
  }

  lemma SettledPrefix(g: Graph, s: seq<PackId>, n: nat)
    requires Settled(g, s) && n <= |s|
    ensures Settled(g, s[..n])
  {
    var front := s[..n];
    forall i, d | 0 <= i < n && d in Deps(g, front[i]) && d in g.available && d != front[i]
      ensures d in front[..i]
    {
      assert front[i] == s[i] && front[..i] == s[..i];
    }
  }

  /** Without its last pack a settled list stays settled, and the last is ready. */
  lemma SettledLast(g: Graph, front: seq<PackId>, p: PackId)
    requires Settled(g, front + [p]) && Distinct(front + [p]) && forall q <- front + [p] :: q in g.available
    ensures Settled(g, front) && Distinct(front) && forall q <- front :: q in g.available
    ensures p in g.available && p !in front
    ensures forall d <- Deps(g, p) :: d in g.available && d != p ==> d in front
  {
    var s, n := front + [p], |front|;
    assert s[n] == p && s[..n] == front;
    SettledPrefix(g, s, n);
    assert forall i :: 0 <= i < n ==> front[i] == s[i] && s[i] in s;
  }

  lemma {:induction false} SettledReplays(g: Graph, s: seq<PackId>)
    requires Settled(g, s) && Distinct(s) && forall p <- s :: p in g.available
    ensures VisitAll(g, START, s) == After(s)
    decreases |s|
  {
    if s == [] {
      assert START == After(s);
    } else {
      var front, p := s[..|s| - 1], s[|s| - 1];
      assert s == front + [p];
      SettledLast(g, front, p);
      SettledReplays(g, front);
      ReplayOne(g, front, p);
    }
  }

  /** A dependency that has not been emitted pushes its dependent out of place. */
  lemma UnsettledMoves(g: Graph, s: seq<PackId>, i: nat, d: PackId)
    requires Distinct(s) && (forall p <- s :: p in g.available) && i < |s|
    requires Settled(g, s[..i])
    requires d in Deps(g, s[i]) && d in g.available && d != s[i] && d !in s[..i]
    ensures Resolve(g, s) != s
  {
    var front, p := s[..i], s[i];
    assert s == front + s[i..] && s[i..][0] == p;
    SettledReplays(g, front);
    VisitAllAppend(g, START, front, s[i..]);
    var st := After(front);
    var entered := st.(visiting := st.visiting + {p});
    var left := VisitAll(g, entered, Deps(g, p));
    ResolveKeeps(g, front);
    assert Invariant(g, entered);
    forall e | e in Deps(g, p) ensures OnStack(g, entered, e) {
      if e in g.available {
        ReachesItself(g, p);
        ReachesStep(g, p, p, e);
      }
    }
    VisitAllKeeps(g, entered, Deps(g, p));
    assert d in left.resolved && p !in left.resolved;
    assert front <= left.resolved;
    assert left.resolved != front;
    assert left.resolved[i] != p;
    var next := Visit(g, st, p);
    assert next.resolved[i] == left.resolved[i];
    assert VisitAll(g, st, s[i..]) == VisitAll(g, next, s[i..][1..]);
  }

  /** Resolving the output again returns it unchanged exactly when the requests reach no
      cycle through two different packs. */
  lemma IdempotentIffCycleFree(g: Graph, requested: seq<PackId>)
    ensures Resolve(g, Resolve(g, requested)) == Resolve(g, requested) <==> CycleFree(g, requested)
  {
    var out := Resolve(g, requested);
    ResolveKeeps(g, requested);
    TopologicalIffCycleFree(g, requested);
    if Settled(g, out) {
      SettledReplays(g, out);
    } else {
      var i := FirstUnsettled(g, out);
      var d :| d in Deps(g, out[i]) && d in g.available && d != out[i] && d !in out[..i];
      UnsettledMoves(g, out, i, d);
    }
  }

  /** Two packs that depend on each other come out in the other order the second time. */
  lemma MutualDependencyNotIdempotent(a: PackId, b: PackId)
    requires a != b
    ensures var g := Graph({a, b}, map[a := [b], b := [a]]);
            Resolve(g, Resolve(g, [a])) != Resolve(g, [a])
  {
    var g := Graph({a, b}, map[a := [b], b := [a]]);
    ReachesItself(g, a);
    ReachesItself(g, b);
    ReachesStep(g, b, b, a);
    assert !CycleFree(g, [a]) by {
      assert a in [a] && Reaches(g, a, a) && b in Deps(g, a) && Reaches(g, b, a);
    }
    IdempotentIffCycleFree(g, [a]);
  }

  lemma {:induction false} FirstUnsettled(g: Graph, s: seq<PackId>) returns (i: nat)
    requires !Settled(g, s)
    ensures i < |s| && Settled(g, s[..i])
    ensures exists d :: d in Deps(g, s[i]) && d in g.available && d != s[i] && d !in s[..i]
    decreases |s|
  {
    var n := |s| - 1;
    if Settled(g, s[..n]) {
      i := n;
      forall j, d | 0 <= j < n && d in Deps(g, s[j]) && d in g.available && d != s[j] ensures d in s[..j] {
        assert s[..n][j] == s[j] && s[..n][..j] == s[..j];
      }
    } else {
      i := FirstUnsettled(g, s[..n]);
      assert s[..n][i] == s[i] && s[..n][..i] == s[..i];
    }
  }

  // ------------------------------------------------------------- the order of a list

  /** Both are in the list, and the first `a` comes before any `b`. */
  ghost predicate Precedes(s: seq<PackId>, a: PackId, b: PackId) {
    exists n :: 0 <= n <= |s| && a in s[..n] && b !in s[..n] && b in s[n..]
  }

  lemma PrecedesStays(s: seq<PackId>, last: PackId, a: PackId, b: PackId)
    requires Precedes(s, a, b)
    ensures Precedes(s + [last], a, b)
  {
    var n :| 0 <= n <= |s| && a in s[..n] && b !in s[..n] && b in s[n..];
    var more := s + [last];
    assert more[..n] == s[..n] && more[n..] == s[n..] + [last];
  }

  lemma PrecedesAcross(s: seq<PackId>, prefix: seq<PackId>, a: PackId, b: PackId)
    requires prefix <= s && a in prefix && b !in prefix && b in s
    ensures Precedes(s, a, b)
  {
    assert s[..|prefix|] == prefix;
    assert s == s[..|prefix|] + s[|prefix|..];
  }

  lemma {:induction false} VisitedAmong(g: Graph, st: State, ds: seq<PackId>, x: PackId)
    requires Invariant(g, st) && forall d <- ds :: OnStack(g, st, d)
    requires x in ds && x in g.available && x !in st.visiting
    ensures x in VisitAll(g, st, ds).resolved
  {
    VisitAllKeeps(g, st, ds);
  }

  lemma {:induction false} NotYetVisited(g: Graph, st: State, ds: seq<PackId>, x: PackId)
    requires Invariant(g, st) && forall d <- ds :: OnStack(g, st, d)
    requires x !in st.visited && forall d <- ds :: !Reaches(g, d, x)
    ensures x !in VisitAll(g, st, ds).resolved
  {
    VisitAllKeeps(g, st, ds);
    if x in VisitAll(g, st, ds).visited {
      var d := VisitAllSound(g, st, ds, x);
      assert false;
    }
  }

  /** Of packs that are visited in turn one of the first comes before one that none of these
      leads to. */
  lemma {:induction false} VisitedInOrder(
      g: Graph, st: State, first: seq<PackId>, rest: seq<PackId>, a: PackId, b: PackId)
    requires Invariant(g, st) && forall d <- first + rest :: OnStack(g, st, d)
    requires a in first && a in g.available && a !in st.visiting
    requires b in rest && b in g.available && b !in st.visiting && b !in st.visited
    requires forall d <- first :: !Reaches(g, d, b)
    ensures Precedes(VisitAll(g, st, first + rest).resolved, a, b)
  {
    VisitAllAppend(g, st, first, rest);
    VisitedAmong(g, st, first, a);
    VisitedAmong(g, st, first + rest, b);
    NotYetVisited(g, st, first, b);
    PrecedesAcross(VisitAll(g, st, first + rest).resolved, VisitAll(g, st, first).resolved, a, b);
  }

  /** The requests come in their order, but for those that an earlier one leads to. */
  lemma RequestsInOrder(g: Graph, requested: seq<PackId>, i: nat, j: nat)
    requires i < j < |requested| && requested[i] in g.available && requested[j] in g.available
    requires forall k :: 0 <= k <= i ==> !Reaches(g, requested[k], requested[j])
    ensures Precedes(Resolve(g, requested), requested[i], requested[j])
  {
    var first, rest := requested[..i + 1], requested[i + 1..];
    assert requested == first + rest && first[i] == requested[i] && rest[j - i - 1] == requested[j];
    VisitedInOrder(g, START, first, rest, requested[i], requested[j]);
  }

  /** What has been entered but for `p` nothing. */
  function Entered(p: PackId): State { State({p}, {}, []) }

  lemma ResolveOne(g: Graph, p: PackId)
    requires p in g.available
    ensures Resolve(g, [p]) == VisitAll(g, Entered(p), Deps(g, p)).resolved + [p]
  {
    assert START.(visiting := START.visiting + {p}) == Entered(p);
    var next := Visit(g, START, p);
    assert next.resolved == VisitAll(g, Entered(p), Deps(g, p)).resolved + [p];
    assert [p][1..] == [] && [p][0] == p;
    assert VisitAll(g, START, [p]) == VisitAll(g, next, []);
  }

  lemma DependenciesOnStack(g: Graph, p: PackId)
    requires p in g.available
    ensures forall d <- Deps(g, p) :: OnStack(g, Entered(p), d)
  {
    ReachesItself(g, p);
    forall d | d in Deps(g, p) ensures OnStack(g, Entered(p), d) {
      if d in g.available {
        ReachesStep(g, p, p, d);
      }
    }
  }

  /** And so do the dependencies of one requested pack, as they are listed. */
  lemma {:induction false} DependenciesInOrder(
      g: Graph, p: PackId, first: seq<PackId>, rest: seq<PackId>, a: PackId, b: PackId)
    requires p in g.available && Deps(g, p) == first + rest
    requires a in first && a in g.available && a != p && b in rest && b in g.available && b != p
    requires forall d <- first :: !Reaches(g, d, b)
    ensures Precedes(Resolve(g, [p]), a, b)
  {
    DependenciesOnStack(g, p);
    VisitedInOrder(g, Entered(p), first, rest, a, b);
    ResolveOne(g, p);
    PrecedesStays(VisitAll(g, Entered(p), first + rest).resolved, p, a, b);
  }
}
