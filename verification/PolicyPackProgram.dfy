/** The resolver's program: from the metadata to the output, said in terms of the metadata. */
module PolicyPackProgram {
  import opened PolicyPackResolver
  import opened Results
  import opened Sorting

  datatype Metadata = Metadata(policyPackId: PackId, dependencies: Option<seq<PackId>>)

  /** The dependency map: of two entries for one pack the later wins. */
  function DependencyMap(metadata: seq<Metadata>): map<PackId, seq<PackId>> {
    if metadata == [] then map[]
    else
      var m := metadata[|metadata| - 1];
      var rest := DependencyMap(metadata[..|metadata| - 1]);
      if m.dependencies.Some? then rest[m.policyPackId := m.dependencies.value] else rest
  }

  /** Entry `i` is the last for the pack that has dependencies. */
  ghost predicate IsLastFor(metadata: seq<Metadata>, i: nat, p: PackId) {
    && i < |metadata| && metadata[i].policyPackId == p && metadata[i].dependencies.Some?
    && forall j :: i < j < |metadata| ==> metadata[j].policyPackId != p || metadata[j].dependencies.None?
  }

  /** The last entry for `p` that has dependencies lists `d`. */
  ghost predicate LastDeclares(metadata: seq<Metadata>, p: PackId, d: PackId) {
    exists i: nat :: IsLastFor(metadata, i, p) && d in metadata[i].dependencies.value
  }

  /** A walk along declared dependencies that stays inside the available packs. */
  ghost predicate IsWalk(metadata: seq<Metadata>, available: seq<PackId>, path: seq<PackId>) {
    && path != []
    && (forall p <- path :: p in available)
    && forall i :: 0 <= i < |path| - 1 ==> LastDeclares(metadata, path[i], path[i + 1])
  }

  ghost predicate Leads(metadata: seq<Metadata>, available: seq<PackId>, a: PackId, b: PackId) {
    exists path :: IsWalk(metadata, available, path) && path[0] == a && path[|path| - 1] == b
  }

  function GraphOf(metadata: seq<Metadata>, available: seq<PackId>): Graph {
    Graph((set p | p in available), DependencyMap(metadata))
  }

  lemma {:induction false} MapHoldsLast(metadata: seq<Metadata>, i: nat, p: PackId)
    requires IsLastFor(metadata, i, p)
    ensures p in DependencyMap(metadata) && DependencyMap(metadata)[p] == metadata[i].dependencies.value
  {
    if i == |metadata| - 1 {
    } else {
      MapHoldsLast(metadata[..|metadata| - 1], i, p);
    }
  }

  lemma {:induction false} LastInMap(metadata: seq<Metadata>, p: PackId) returns (i: nat)
    requires p in DependencyMap(metadata)
    ensures IsLastFor(metadata, i, p)
  {
    var m := metadata[|metadata| - 1];
    if m.policyPackId == p && m.dependencies.Some? {
      i := |metadata| - 1;
    } else {
      i := LastInMap(metadata[..|metadata| - 1], p);
    }
  }

  lemma DepsAreDeclared(metadata: seq<Metadata>, available: seq<PackId>, p: PackId, d: PackId)
    ensures d in Deps(GraphOf(metadata, available), p) <==> LastDeclares(metadata, p, d)
  {
    if p in DependencyMap(metadata) {
      var i := LastInMap(metadata, p);
      MapHoldsLast(metadata, i, p);
    }
    if LastDeclares(metadata, p, d) {
      var i: nat :| IsLastFor(metadata, i, p) && d in metadata[i].dependencies.value;
      MapHoldsLast(metadata, i, p);
    }
  }

  lemma WalksArePaths(metadata: seq<Metadata>, available: seq<PackId>, path: seq<PackId>)
    ensures IsPath(GraphOf(metadata, available), path) <==> IsWalk(metadata, available, path)
  {
    forall i | 0 <= i < |path| - 1
      ensures path[i + 1] in Deps(GraphOf(metadata, available), path[i]) <==>
              LastDeclares(metadata, path[i], path[i + 1])
    {
      DepsAreDeclared(metadata, available, path[i], path[i + 1]);
    }
  }

  lemma LeadsIsReaches(metadata: seq<Metadata>, available: seq<PackId>, a: PackId, b: PackId)
    ensures Reaches(GraphOf(metadata, available), a, b) <==> Leads(metadata, available, a, b)
  {
    forall path ensures IsPath(GraphOf(metadata, available), path) <==> IsWalk(metadata, available, path) {
      WalksArePaths(metadata, available, path);
    }
  }

  /** What the output holds: exactly the packs the requests lead to. */
  ghost predicate HoldsReached(
      metadata: seq<Metadata>, requested: seq<PackId>, available: seq<PackId>, resolved: seq<PackId>) {
    forall x :: x in resolved <==> exists r :: r in requested && Leads(metadata, available, r, x)
  }

  /** Every available dependency comes before its dependent unless it leads back to it. */
  ghost predicate DependenciesFirst(metadata: seq<Metadata>, available: seq<PackId>, resolved: seq<PackId>) {
    forall i, d :: 0 <= i < |resolved| && LastDeclares(metadata, resolved[i], d) && d in available ==>
      d in resolved[..i] || Leads(metadata, available, d, resolved[i])
  }

  ghost predicate NotLedTo(metadata: seq<Metadata>, available: seq<PackId>, from: seq<PackId>, x: PackId) {
    forall f <- from :: !Leads(metadata, available, f, x)
  }

  /** The requests come in their order, but for those that one not after the earlier leads to. */
  ghost predicate InRequestOrder(
      metadata: seq<Metadata>, requested: seq<PackId>, available: seq<PackId>, resolved: seq<PackId>) {
    forall i, j | 0 <= i < j < |requested| && requested[i] in available && requested[j] in available ::
      NotLedTo(metadata, available, requested[..i + 1], requested[j]) ==>
        Precedes(resolved, requested[i], requested[j])
  }

  ghost predicate AsListed(
      metadata: seq<Metadata>, p: PackId, available: seq<PackId>, ds: seq<PackId>, k: nat, j: nat,
      resolved: seq<PackId>)
    requires k < j < |ds|
  {
    (ds[k] in available && ds[j] in available && ds[k] != p && ds[j] != p &&
     NotLedTo(metadata, available, ds[..k + 1], ds[j])) ==> Precedes(resolved, ds[k], ds[j])
  }

  /** The dependencies of a single request come as listed, but for those that one not after the
      earlier leads to. */
  ghost predicate InListedOrder(
      metadata: seq<Metadata>, p: PackId, available: seq<PackId>, resolved: seq<PackId>) {
    forall i: nat, k, j | IsLastFor(metadata, i, p) && 0 <= k < j < |metadata[i].dependencies.value| ::
      AsListed(metadata, p, available, metadata[i].dependencies.value, k, j, resolved)
  }

  lemma OutputHolds(metadata: seq<Metadata>, requested: seq<PackId>, available: seq<PackId>)
    ensures HoldsReached(metadata, requested, available, Resolve(GraphOf(metadata, available), requested))
  {
    var g := GraphOf(metadata, available);
    forall x
      ensures x in Resolve(g, requested) <==> exists r :: r in requested && Leads(metadata, available, r, x)
    {
      ResolvedExactly(g, requested, x);
      forall r ensures Reaches(g, r, x) <==> Leads(metadata, available, r, x) {
        LeadsIsReaches(metadata, available, r, x);
      }
    }
  }

  lemma OutputOrdered(metadata: seq<Metadata>, requested: seq<PackId>, available: seq<PackId>)
    ensures DependenciesFirst(metadata, available, Resolve(GraphOf(metadata, available), requested))
  {
    var g := GraphOf(metadata, available);
    var out := Resolve(g, requested);
    forall i, d | 0 <= i < |out| && LastDeclares(metadata, out[i], d) && d in available
      ensures d in out[..i] || Leads(metadata, available, d, out[i])
    {
      DepsAreDeclared(metadata, available, out[i], d);
      ResolvedInOrder(g, requested, i, d);
      LeadsIsReaches(metadata, available, d, out[i]);
    }
  }

  lemma OutputInRequestOrder(metadata: seq<Metadata>, requested: seq<PackId>, available: seq<PackId>)
    ensures InRequestOrder(metadata, requested, available, Resolve(GraphOf(metadata, available), requested))
  {
    var g := GraphOf(metadata, available);
    forall i, j |
      && 0 <= i < j < |requested| && requested[i] in available && requested[j] in available
      && NotLedTo(metadata, available, requested[..i + 1], requested[j])
      ensures Precedes(Resolve(g, requested), requested[i], requested[j])
    {
      forall k | 0 <= k <= i ensures !Reaches(g, requested[k], requested[j]) {
        assert requested[..i + 1][k] == requested[k];
        LeadsIsReaches(metadata, available, requested[k], requested[j]);
      }
      RequestsInOrder(g, requested, i, j);
    }
  }

  lemma TwoAsListed(metadata: seq<Metadata>, p: PackId, available: seq<PackId>, i: nat, k: nat, j: nat)
    requires p in available && IsLastFor(metadata, i, p) && k < j < |metadata[i].dependencies.value|
    ensures AsListed(
              metadata, p, available, metadata[i].dependencies.value, k, j,
              Resolve(GraphOf(metadata, available), [p]))
  {
    var g, ds := GraphOf(metadata, available), metadata[i].dependencies.value;
    if
      && ds[k] in available && ds[j] in available && ds[k] != p && ds[j] != p
      && NotLedTo(metadata, available, ds[..k + 1], ds[j])
    {
      var first, rest := ds[..k + 1], ds[k + 1..];
      MapHoldsLast(metadata, i, p);
      assert ds == first + rest && first[k] == ds[k] && rest[j - k - 1] == ds[j];
      forall d | d in first ensures !Reaches(g, d, ds[j]) {
        LeadsIsReaches(metadata, available, d, ds[j]);
      }
      DependenciesInOrder(g, p, first, rest, ds[k], ds[j]);
    }
  }

  lemma OutputInListedOrder(metadata: seq<Metadata>, p: PackId, available: seq<PackId>)
    requires p in available
    ensures InListedOrder(metadata, p, available, Resolve(GraphOf(metadata, available), [p]))
  {
    forall i: nat, k: nat, j: nat | IsLastFor(metadata, i, p) && k < j < |metadata[i].dependencies.value|
      ensures AsListed(
                metadata, p, available, metadata[i].dependencies.value, k, j,
                Resolve(GraphOf(metadata, available), [p]))
    {
      TwoAsListed(metadata, p, available, i, k, j);
    }
  }

  method ResolveRequests(graph: Graph, requested: seq<PackId>) returns (resolved: seq<PackId>)
    ensures resolved == Resolve(graph, requested)
  {
    var resolver := new Resolver(graph);
    assert requested[0..] == requested;
    for i := 0 to |requested|
      invariant VisitAll(resolver.graph, resolver.Now(), requested[i..]) == VisitAll(resolver.graph, START, requested)
    {
      assert requested[i..][0] == requested[i] && requested[i..][1..] == requested[i + 1..];
      resolver.VisitPack(requested[i]);
    }
    resolved := resolver.resolved;
  }

  /** The whole function. What its result is, is said in terms of the metadata alone. */
  method ResolvePolicyPackDependencies(
      metadata: seq<Metadata>, requested: seq<PackId>, available: seq<PackId>)
    returns (resolved: seq<PackId>)
    ensures resolved == Resolve(GraphOf(metadata, available), requested)
    ensures Distinct(resolved) && HoldsReached(metadata, requested, available, resolved)
    ensures DependenciesFirst(metadata, available, resolved)
    ensures InRequestOrder(metadata, requested, available, resolved)
    ensures |requested| == 1 && requested[0] in available ==>
              InListedOrder(metadata, requested[0], available, resolved)
  {
    var deps: map<PackId, seq<PackId>> := map[];
    for i := 0 to |metadata|
      invariant deps == DependencyMap(metadata[..i])
    {
      assert metadata[..i + 1][..i] == metadata[..i];
      if metadata[i].dependencies.Some? {
        deps := deps[metadata[i].policyPackId := metadata[i].dependencies.value];
      }
    }
    assert metadata[..|metadata|] == metadata;
    resolved := ResolveRequests(Graph((set p | p in available), deps), requested);
    ResolveKeeps(GraphOf(metadata, available), requested);
    OutputHolds(metadata, requested, available);
    OutputOrdered(metadata, requested, available);
    OutputInRequestOrder(metadata, requested, available);
    if |requested| == 1 && requested[0] in available {
      OutputInListedOrder(metadata, requested[0], available);
      assert requested == [requested[0]];
    }
  }
}
