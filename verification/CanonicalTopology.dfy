/** The canonical topology builder: a normal form for graphs. */
module CanonicalTopology {
  import opened GraphSurface
  import opened Results
  import opened Sorting
  import opened Texts

  const SURFACE_VERSION: Text := Ascii("1.0.0")

  // --------------------------------------------------------------------- the form

  function NodeOf(id: Text): Node { Node(id) }

  ghost function NodesOf(ids: set<Text>): seq<Node> {
    Map(NodeOf, SortSet(ids - {[]}))
  }

  predicate Usable(e: RawEdge) {
    e.from != [] && e.to != []
  }

  function TypeOf(e: RawEdge): Text {
    if e.edgeType.Some? && e.edgeType.value != [] then e.edgeType.value else DEFAULT_EDGE_TYPE
  }

  /** The canonical edge a raw edge stands for. */
  function EdgeOf(sha: Hash, e: RawEdge): Edge {
    Edge(EdgeId(sha, e.from, e.to, TypeOf(e)), e.from, e.to, TypeOf(e))
  }

  function Ids(edges: seq<Edge>): (ids: seq<Text>)
    ensures |ids| == |edges| && forall i :: 0 <= i < |edges| ==> ids[i] == edges[i].id
  {
    seq(|edges|, i requires 0 <= i < |edges| => edges[i].id)
  }

  /** The usable edges in order, keeping only the first with each id. */
  function KeepFirst(sha: Hash, edges: seq<RawEdge>): seq<Edge> {
    if edges == [] then [] else KeepOne(sha, KeepFirst(sha, edges[..|edges| - 1]), edges[|edges| - 1])
  }

  function KeepOne(sha: Hash, kept: seq<Edge>, e: RawEdge): seq<Edge> {
    if !Usable(e) || EdgeOf(sha, e).id in Ids(kept) then kept else kept + [EdgeOf(sha, e)]
  }

  predicate IdLeq(a: Edge, b: Edge) { Leq(a.id, b.id) }

  function CanonicalEdges(sha: Hash, edges: seq<RawEdge>): seq<Edge> {
    Sort(IdLeq, KeepFirst(sha, edges))
  }

  ghost function Canonical(sha: Hash, nodeIds: set<Text>, edges: seq<RawEdge>): Topology {
    var nodes, edges' := NodesOf(nodeIds), CanonicalEdges(sha, edges);
    Topology(SURFACE_VERSION, GraphSurfaceHash(sha, nodes, edges'), nodes, edges')
  }

  method BuildNodes(nodeIds: seq<Text>) returns (nodes: seq<Node>)
    ensures nodes == NodesOf(set id | id in nodeIds)
  {
    var unique := set id | id in nodeIds && id != [];
    assert unique == (set id | id in nodeIds) - {[]};
    var uniqueNodeIds := SortedElements(unique);
    nodes := Map(NodeOf, uniqueNodeIds);
  }

  lemma KeepFirstAppend(sha: Hash, edges: seq<RawEdge>, i: nat)
    requires i < |edges|
    ensures KeepFirst(sha, edges[..i + 1]) == KeepOne(sha, KeepFirst(sha, edges[..i]), edges[i])
  {
    assert edges[..i + 1][..i] == edges[..i];
  }

  /** Its body: an unusable edge and one with an id already seen are skipped. */
  method KeepEdge(sha: Hash, edge: RawEdge, before: seq<Edge>, seenBefore: set<Text>)
    returns (kept: seq<Edge>, seen: set<Text>)
    requires forall id :: id in seenBefore <==> id in Ids(before)
    ensures kept == KeepOne(sha, before, edge)
    ensures forall id :: id in seen <==> id in Ids(kept)
  {
    kept, seen := before, seenBefore;
    if |edge.from| == 0 || |edge.to| == 0 {
      return;
    }
    var edgeType := TypeOf(edge);
    var id := EdgeId(sha, edge.from, edge.to, edgeType);
    if id in seen {
      return;
    }
    seen := seen + {id};
    IdsAppend(kept, Edge(id, edge.from, edge.to, edgeType));
    kept := kept + [Edge(id, edge.from, edge.to, edgeType)];
  }

  /** The edge loop. */
  method BuildEdges(sha: Hash, edges: seq<RawEdge>) returns (kept: seq<Edge>)
    ensures kept == KeepFirst(sha, edges)
  {
    var seen: set<Text> := {};
    kept := [];
    for i := 0 to |edges|
      invariant kept == KeepFirst(sha, edges[..i])
      invariant forall id :: id in seen <==> id in Ids(kept)
    {
      KeepFirstAppend(sha, edges, i);
      kept, seen := KeepEdge(sha, edges[i], kept, seen);
    }
    assert edges[..|edges|] == edges;
  }

  method BuildCanonicalTopology(sha: Hash, nodeIds: seq<Text>, edges: seq<RawEdge>) returns (t: Topology)
    ensures t == Canonical(sha, (set id | id in nodeIds), edges)
  {
    var nodes := BuildNodes(nodeIds);
    var kept := BuildEdges(sha, edges);
    var sorted := Sort(IdLeq, kept);
    t := Topology(SURFACE_VERSION, GraphSurfaceHash(sha, nodes, sorted), nodes, sorted);
  }

  // --------------------------------------------------------------- what it contains

  ghost predicate AscendingIds(edges: seq<Edge>) {
    Ascending(Ids(edges))
  }

  /** `e` is the canonical form of one of the raw edges. */
  ghost predicate FromRaw(sha: Hash, edges: seq<RawEdge>, e: Edge) {
    exists i :: 0 <= i < |edges| && Usable(edges[i]) && EdgeOf(sha, edges[i]) == e
  }

  ghost predicate DistinctIds(edges: seq<Edge>) {
    forall i, j :: 0 <= i < j < |edges| ==> edges[i].id != edges[j].id
  }

  lemma IdsAppend(edges: seq<Edge>, e: Edge)
    ensures Ids(edges + [e]) == Ids(edges) + [e.id]
    ensures DistinctIds(edges) && e.id !in Ids(edges) ==> DistinctIds(edges + [e])
  {
    assert forall i :: 0 <= i < |edges| ==> edges[i].id == Ids(edges)[i];
  }

  /** What `KeepFirst` keeps of a list. */
  ghost predicate KeptOf(sha: Hash, edges: seq<RawEdge>, kept: seq<Edge>) {
    && DistinctIds(kept)
    && (forall e <- kept :: FromRaw(sha, edges, e))
    && forall i :: 0 <= i < |edges| && Usable(edges[i]) ==> EdgeOf(sha, edges[i]).id in Ids(kept)
  }

  lemma {:induction false} KeepFirstContents(sha: Hash, edges: seq<RawEdge>)
    ensures KeptOf(sha, edges, KeepFirst(sha, edges))
  {
    if edges == [] {
    } else {
      var front := edges[..|edges| - 1];
      KeepFirstContents(sha, front);
      KeptStep(sha, edges, KeepFirst(sha, front));
    }
  }

  lemma KeptStep(sha: Hash, edges: seq<RawEdge>, kept: seq<Edge>)
    requires edges != [] && KeptOf(sha, edges[..|edges| - 1], kept)
    ensures var last := edges[|edges| - 1];
            var e := EdgeOf(sha, last);
            KeptOf(sha, edges, if Usable(last) && e.id !in Ids(kept) then kept + [e] else kept)
  {
    var last := edges[|edges| - 1];
    if Usable(last) && EdgeOf(sha, last).id !in Ids(kept) {
      NewEdge(sha, edges, kept);
    } else {
      OldEdge(sha, edges, kept);
    }
  }

  lemma FromFront(sha: Hash, edges: seq<RawEdge>, e: Edge)
    requires edges != [] && FromRaw(sha, edges[..|edges| - 1], e)
    ensures FromRaw(sha, edges, e)
  {
    var front := edges[..|edges| - 1];
    var i :| 0 <= i < |front| && Usable(front[i]) && EdgeOf(sha, front[i]) == e;
    assert edges[i] == front[i];
  }

  lemma OldEdge(sha: Hash, edges: seq<RawEdge>, kept: seq<Edge>)
    requires edges != [] && KeptOf(sha, edges[..|edges| - 1], kept)
    requires Usable(edges[|edges| - 1]) ==> EdgeOf(sha, edges[|edges| - 1]).id in Ids(kept)
    ensures KeptOf(sha, edges, kept)
  {
    var front := edges[..|edges| - 1];
    forall e | e in kept ensures FromRaw(sha, edges, e) {
      FromFront(sha, edges, e);
    }
    assert forall i :: 0 <= i < |front| ==> front[i] == edges[i];
  }

  lemma NewEdge(sha: Hash, edges: seq<RawEdge>, kept: seq<Edge>)
    requires edges != [] && KeptOf(sha, edges[..|edges| - 1], kept)
    requires Usable(edges[|edges| - 1]) && EdgeOf(sha, edges[|edges| - 1]).id !in Ids(kept)
    ensures KeptOf(sha, edges, kept + [EdgeOf(sha, edges[|edges| - 1])])
  {
    var front, last := edges[..|edges| - 1], EdgeOf(sha, edges[|edges| - 1]);
    IdsAppend(kept, last);
    forall e | e in kept + [last] ensures FromRaw(sha, edges, e) {
      if e in kept {
        FromFront(sha, edges, e);
      }
    }
    assert forall i :: 0 <= i < |front| ==> front[i] == edges[i];
  }

  lemma IdLeqIsPreorder()
    ensures TotalPreorder(IdLeq)
  {
    LeqIsTotalOrder();
  }

  lemma {:induction false} SortKeepsDistinct(edges: seq<Edge>)
    requires DistinctIds(edges)
    ensures DistinctIds(Sort(IdLeq, edges))
    ensures forall e :: e in Sort(IdLeq, edges) <==> e in edges
  {
    if edges == [] {
    } else {
      SortKeepsDistinct(edges[1..]);
      var tail := Sort(IdLeq, edges[1..]);
      forall e | e in tail ensures e.id != edges[0].id {
        assert e in edges[1..];
      }
      InsertKeepsDistinct(edges[0], tail);
      assert edges == [edges[0]] + edges[1..];
    }
  }

  lemma {:induction false} InsertKeepsDistinct(x: Edge, s: seq<Edge>)
    requires DistinctIds(s) && forall e <- s :: e.id != x.id
    ensures DistinctIds(Insert(IdLeq, x, s))
    ensures forall e :: e in Insert(IdLeq, x, s) <==> e == x || e in s
  {
    if s == [] || IdLeq(x, s[0]) {
    } else {
      InsertKeepsDistinct(x, s[1..]);
      assert s == [s[0]] + s[1..];
      var tail := Insert(IdLeq, x, s[1..]);
      forall e | e in tail ensures e.id != s[0].id {
        if e != x {
          var j :| 0 <= j < |s[1..]| && s[1..][j] == e;
          assert s[j + 1] == e;
        }
      }
    }
  }

  /** The edge list is strictly ascending by id; every edge in it comes from the input, and
      every usable input edge has its id there. */
  lemma CanonicalContents(sha: Hash, edges: seq<RawEdge>)
    ensures AscendingIds(CanonicalEdges(sha, edges))
    ensures forall e <- CanonicalEdges(sha, edges) :: FromRaw(sha, edges, e)
    ensures forall i :: 0 <= i < |edges| && Usable(edges[i]) ==>
              EdgeOf(sha, edges[i]).id in Ids(CanonicalEdges(sha, edges))
  {
    KeepFirstContents(sha, edges);
    var kept, sorted := KeepFirst(sha, edges), CanonicalEdges(sha, edges);
    SortKeepsDistinct(kept);
    IdLeqIsPreorder();
    SortSorts(IdLeq, kept);
    forall i, j | 0 <= i < j < |sorted| ensures Less(Ids(sorted)[i], Ids(sorted)[j]) {
      assert IdLeq(sorted[i], sorted[j]);
    }
    forall id | id in Ids(kept) ensures id in Ids(sorted) {
      var i :| 0 <= i < |kept| && Ids(kept)[i] == id;
      assert kept[i] in sorted;
      var j :| 0 <= j < |sorted| && sorted[j] == kept[i];
      assert Ids(sorted)[j] == id;
    }
  }

  lemma SameIdSameEdge(edges: seq<Edge>, e: Edge, f: Edge)
    requires AscendingIds(edges) && e in edges && f in edges && e.id == f.id
    ensures e == f
  {
    var i :| 0 <= i < |edges| && edges[i] == e;
    var j :| 0 <= j < |edges| && edges[j] == f;
    AscendingInjective(Ids(edges), i, j);
  }

  lemma AscendingInjective(s: seq<Text>, i: nat, j: nat)
    requires Ascending(s) && i < |s| && j < |s| && s[i] == s[j]
    ensures i == j
  {
  }

  /** Two edge lists that ascend by id and have the same members are equal. */
  lemma AscendingEdgesUnique(a: seq<Edge>, b: seq<Edge>)
    requires AscendingIds(a) && AscendingIds(b) && forall e :: e in a <==> e in b
    ensures a == b
  {
    IdsMembers(a);
    IdsMembers(b);
    AscendingUnique(Ids(a), Ids(b));
    forall i | 0 <= i < |a| ensures a[i] == b[i] {
      assert Ids(a)[i] == Ids(b)[i];
      assert b[i] in a;
      SameIdSameEdge(a, a[i], b[i]);
    }
  }

  lemma IdsMembers(edges: seq<Edge>)
    ensures forall id :: id in Ids(edges) <==> exists e :: e in edges && e.id == id
  {
    forall id ensures id in Ids(edges) <==> exists e :: e in edges && e.id == id {
      if id in Ids(edges) {
        var i :| 0 <= i < |edges| && Ids(edges)[i] == id;
        assert edges[i] in edges;
      }
      if e :| e in edges && e.id == id {
        var i :| 0 <= i < |edges| && edges[i] == e;
        assert Ids(edges)[i] == id;
      }
    }
  }

  // ------------------------------------------------------------------- normal form

  ghost predicate SameMembers<T(!new)>(a: seq<T>, b: seq<T>) {
    forall x :: x in a <==> x in b
  }

  /** No two different edges of the input share an id. */
  ghost predicate EdgeIdsInjective(sha: Hash, edges: seq<RawEdge>) {
    forall e, f :: FromRaw(sha, edges, e) && FromRaw(sha, edges, f) && e.id == f.id ==> e == f
  }

  lemma CanonicalMembers(sha: Hash, edges: seq<RawEdge>, e: Edge)
    requires EdgeIdsInjective(sha, edges)
    ensures e in CanonicalEdges(sha, edges) <==> FromRaw(sha, edges, e)
  {
    CanonicalContents(sha, edges);
    if FromRaw(sha, edges, e) {
      var sorted := CanonicalEdges(sha, edges);
      assert e.id in Ids(sorted);
      var j :| 0 <= j < |sorted| && Ids(sorted)[j] == e.id;
      assert sorted[j] in sorted;
    }
  }

  lemma FromRawSame(sha: Hash, edges: seq<RawEdge>, other: seq<RawEdge>, e: Edge)
    requires SameMembers(edges, other) && FromRaw(sha, edges, e)
    ensures FromRaw(sha, other, e)
  {
    var i :| 0 <= i < |edges| && Usable(edges[i]) && EdgeOf(sha, edges[i]) == e;
    assert edges[i] in other;
    var j :| 0 <= j < |other| && other[j] == edges[i];
  }

  /** The edge list depends only on the set of edges supplied exactly when no two different
      edges among them share an id. */
  lemma EdgeOrderIrrelevantIffInjective(sha: Hash, edges: seq<RawEdge>)
    ensures EdgeIdsInjective(sha, edges) <==>
            forall other :: SameMembers(edges, other) ==> CanonicalEdges(sha, edges) == CanonicalEdges(sha, other)
  {
    if EdgeIdsInjective(sha, edges) {
      forall other | SameMembers(edges, other) ensures CanonicalEdges(sha, edges) == CanonicalEdges(sha, other) {
        InjectiveDetermines(sha, edges, other);
      }
    } else {
      var e, f :| FromRaw(sha, edges, e) && FromRaw(sha, edges, f) && e.id == f.id && e != f;
      CollisionDepends(sha, edges, e, f);
    }
  }

  lemma InjectiveDetermines(sha: Hash, edges: seq<RawEdge>, other: seq<RawEdge>)
    requires EdgeIdsInjective(sha, edges) && SameMembers(edges, other)
    ensures CanonicalEdges(sha, edges) == CanonicalEdges(sha, other)
  {
    forall e ensures FromRaw(sha, edges, e) <==> FromRaw(sha, other, e) {
      if FromRaw(sha, edges, e) { FromRawSame(sha, edges, other, e); }
      if FromRaw(sha, other, e) { FromRawSame(sha, other, edges, e); }
    }
    CanonicalContents(sha, edges);
    CanonicalContents(sha, other);
    forall e ensures e in CanonicalEdges(sha, edges) <==> e in CanonicalEdges(sha, other) {
      CanonicalMembers(sha, edges, e);
      CanonicalMembers(sha, other, e);
    }
    AscendingEdgesUnique(CanonicalEdges(sha, edges), CanonicalEdges(sha, other));
  }

  /** Whichever edge is supplied first is the one that stays. */
  lemma {:induction false} FirstStays(sha: Hash, first: RawEdge, rest: seq<RawEdge>)
    requires Usable(first)
    ensures EdgeOf(sha, first) in KeepFirst(sha, [first] + rest)
  {
    var edges := [first] + rest;
    if rest == [] {
      assert edges[..0] == [];
    } else {
      assert edges[..|edges| - 1] == [first] + rest[..|rest| - 1];
      FirstStays(sha, first, rest[..|rest| - 1]);
    }
  }

  lemma CollisionDepends(sha: Hash, edges: seq<RawEdge>, e: Edge, f: Edge)
    requires FromRaw(sha, edges, e) && FromRaw(sha, edges, f) && e.id == f.id && e != f
    ensures exists other :: SameMembers(edges, other) && CanonicalEdges(sha, edges) != CanonicalEdges(sha, other)
  {
    var i :| 0 <= i < |edges| && Usable(edges[i]) && EdgeOf(sha, edges[i]) == e;
    var j :| 0 <= j < |edges| && Usable(edges[j]) && EdgeOf(sha, edges[j]) == f;
    CanonicalContents(sha, edges);
    if e in CanonicalEdges(sha, edges) {
      if f in CanonicalEdges(sha, edges) {
        SameIdSameEdge(CanonicalEdges(sha, edges), e, f);
      }
      PutFirst(sha, edges, j);
    } else {
      PutFirst(sha, edges, i);
    }
  }

  lemma PutFirst(sha: Hash, edges: seq<RawEdge>, i: nat)
    requires i < |edges| && Usable(edges[i])
    ensures exists other :: SameMembers(edges, other) && EdgeOf(sha, edges[i]) in CanonicalEdges(sha, other)
  {
    var other := [edges[i]] + edges;
    assert SameMembers(edges, other);
    FirstStays(sha, edges[i], edges);
    KeepFirstContents(sha, other);
    SortKeepsDistinct(KeepFirst(sha, other));
  }

  /** An input where the order counts: two different edges with a hash that tells no two texts
      apart. */
  lemma ConstantHashOrder(digest: Text, a: Text, b: Text, c: Text)
    requires a != [] && b != [] && c != [] && b != c
    ensures var e, f := RawEdge(a, b, None), RawEdge(a, c, None);
            CanonicalEdges(_ => digest, [e, f]) != CanonicalEdges(_ => digest, [f, e])
  {
    var e, f := RawEdge(a, b, None), RawEdge(a, c, None);
    FirstOfTwo(_ => digest, e, f);
    FirstOfTwo(_ => digest, f, e);
  }

  lemma FirstOfTwo(sha: Hash, e: RawEdge, f: RawEdge)
    requires Usable(e) && Usable(f) && EdgeOf(sha, e).id == EdgeOf(sha, f).id
    ensures CanonicalEdges(sha, [e, f]) == [EdgeOf(sha, e)]
  {
    KeepFirstAppend(sha, [e, f], 0);
    KeepFirstAppend(sha, [e, f], 1);
    assert [e, f][..0] == [] && [e, f][..1] == [e] && [e, f][..2] == [e, f];
  }

  function RawOf(e: Edge): RawEdge { RawEdge(e.from, e.to, Some(e.edgeType)) }

  /** A list in the form the builder produces. */
  ghost predicate InForm(sha: Hash, edges: seq<Edge>) {
    && AscendingIds(edges)
    && forall e <- edges ::
         e.from != [] && e.to != [] && e.edgeType != [] && e.id == EdgeId(sha, e.from, e.to, e.edgeType)
  }

  lemma CanonicalInForm(sha: Hash, edges: seq<RawEdge>)
    ensures InForm(sha, CanonicalEdges(sha, edges))
  {
    CanonicalContents(sha, edges);
    assert |DEFAULT_EDGE_TYPE| == 20;
  }

  /** Rebuilding an edge list in form, from any list of the same edges, gives it back: even
      when truncated ids collide, since the collisions have been resolved already. */
  lemma RebuildInForm(sha: Hash, edges: seq<Edge>, raws: seq<RawEdge>)
    requires InForm(sha, edges)
    requires forall r :: r in raws <==> exists e :: e in edges && r == RawOf(e)
    ensures CanonicalEdges(sha, raws) == edges
  {
    forall e ensures FromRaw(sha, raws, e) <==> e in edges {
      if FromRaw(sha, raws, e) {
        var i :| 0 <= i < |raws| && Usable(raws[i]) && EdgeOf(sha, raws[i]) == e;
        assert raws[i] in raws;
      }
      if e in edges {
        assert RawOf(e) in raws;
        var i :| 0 <= i < |raws| && raws[i] == RawOf(e);
        assert EdgeOf(sha, raws[i]) == e;
      }
    }
    forall e, f | FromRaw(sha, raws, e) && FromRaw(sha, raws, f) && e.id == f.id ensures e == f {
      SameIdSameEdge(edges, e, f);
    }
    CanonicalContents(sha, raws);
    forall e ensures e in CanonicalEdges(sha, raws) <==> e in edges {
      CanonicalMembers(sha, raws, e);
    }
    AscendingEdgesUnique(CanonicalEdges(sha, raws), edges);
  }

  function IdOf(n: Node): Text { n.id }

  lemma {:induction false} NodesFromIds(ids: seq<Text>)
    ensures Map(IdOf, Map(NodeOf, ids)) == ids
    ensures forall n: Node :: n in Map(NodeOf, ids) <==> n.id in ids
  {
    var nodes := Map(NodeOf, ids);
    forall n: Node | n.id in ids ensures n in nodes {
      var i :| 0 <= i < |ids| && ids[i] == n.id;
      assert nodes[i] == n;
    }
  }

  /** The node list ascends by id and holds the non-empty ids supplied. */
  lemma NodesContents(ids: set<Text>)
    ensures Map(IdOf, NodesOf(ids)) == SortSet(ids - {[]})
    ensures Ascending(Map(IdOf, NodesOf(ids)))
    ensures forall n :: n in NodesOf(ids) <==> n.id in ids && n.id != []
  {
    SortSetAscending(ids - {[]});
    NodesFromIds(SortSet(ids - {[]}));
  }

  /** The node list depends only on the set of non-empty ids supplied. */
  lemma NodesDependOnIds(ids: set<Text>, ids': set<Text>)
    ensures NodesOf(ids) == NodesOf(ids') <==> forall id :: id != [] ==> (id in ids <==> id in ids')
  {
    if NodesOf(ids) == NodesOf(ids') {
      NodesContents(ids);
      NodesContents(ids');
      forall id | id != [] ensures id in ids <==> id in ids' {
        assert Node(id) in NodesOf(ids) <==> Node(id) in NodesOf(ids');
      }
    }
    if forall id :: id != [] ==> (id in ids <==> id in ids') {
      assert ids - {[]} == ids' - {[]};
    }
  }

  lemma RawsOf(edges: seq<Edge>)
    ensures forall r :: r in Map(RawOf, edges) <==> exists e :: e in edges && r == RawOf(e)
  {
    var raws := Map(RawOf, edges);
    forall r ensures r in raws <==> exists e :: e in edges && r == RawOf(e) {
      if e :| e in edges && r == RawOf(e) {
        var i :| 0 <= i < |edges| && edges[i] == e;
        assert raws[i] == r;
      }
    }
  }

  /** Rebuilding a canonical topology from its own nodes and edges is the identity. */
  lemma RebuildIdentity(sha: Hash, nodeIds: set<Text>, edges: seq<RawEdge>)
    ensures var t := Canonical(sha, nodeIds, edges);
            Canonical(sha, (set n | n in t.nodes :: n.id), Map(RawOf, t.edges)) == t
  {
    var t := Canonical(sha, nodeIds, edges);
    var ids := set n | n in t.nodes :: n.id;
    NodesContents(nodeIds);
    assert forall id :: id in ids <==> Node(id) in t.nodes;
    NodesDependOnIds(nodeIds, ids);
    CanonicalInForm(sha, edges);
    RawsOf(t.edges);
    RebuildInForm(sha, t.edges, Map(RawOf, t.edges));
  }
}
