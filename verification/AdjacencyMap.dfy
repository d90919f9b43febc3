/** From a graph to its adjacency map and back. */
module AdjacencyMap {
  import opened CanonicalTopology
  import opened GraphSurface
  import opened Results
  import opened Sorting
  import opened Texts

  type Adjacency = map<Text, seq<Text>>

  // ------------------------------------------------------------ from a map to a graph

  function AdjacencyNodes(adj: Adjacency): set<Text> {
    (set k | k in adj && k != []) + (set k, t | k in adj && k != [] && t in adj[k] && t != [] :: t)
  }

  /** The raw edge a pair of the map stands for. */
  function RawEdgeOf(from: Text, to: Text): RawEdge {
    RawEdge(from, to, Some(DEFAULT_EDGE_TYPE))
  }

  ghost predicate InAdjacency(adj: Adjacency, r: RawEdge) {
    r.from in adj && r.from != [] && r.to in adj[r.from] && r.to != [] && r == RawEdgeOf(r.from, r.to)
  }

  /** `raws` lists the edges of the map, in some order. */
  ghost predicate ListsEdges(adj: Adjacency, raws: seq<RawEdge>) {
    forall r :: r in raws <==> InAdjacency(adj, r)
  }

  /** The builder from an adjacency map. The map's entries are visited in no particular order. */
  method BuildCanonicalTopologyFromAdjacencyMap(sha: Hash, adj: Adjacency) returns (t: Topology)
    ensures exists raws :: ListsEdges(adj, raws) && t == Canonical(sha, AdjacencyNodes(adj), raws)
  {
    var nodeIds: set<Text> := {};
    var raws: seq<RawEdge> := [];
    var left := adj.Keys;
    while left != {}
      invariant left <= adj.Keys
      invariant nodeIds == AdjacencyNodes(adj - left)
      invariant ListsEdges(adj - left, raws)
      decreases left
    {
      var src :| src in left;
      var ids, edges := CollectTargets(src, adj[src]);
      VisitOne(adj, left, src, raws, edges, ids);
      nodeIds, raws, left := nodeIds + ids, raws + edges, left - {src};
    }
    assert adj - {} == adj;
    var ids := SortedElements(nodeIds);
    assert (set id | id in ids) == nodeIds;
    t := BuildCanonicalTopology(sha, ids, raws);
  }

  lemma IsAdjacencyNode(adj: Adjacency, t: Text)
    ensures t in AdjacencyNodes(adj) <==>
            t != [] && (t in adj || exists k :: k in adj && k != [] && t in adj[k])
  {
  }

  lemma VisitOne(adj: Adjacency, left: set<Text>, src: Text, raws: seq<RawEdge>, edges: seq<RawEdge>, ids: set<Text>)
    requires src in left && left <= adj.Keys
    requires ListsEdges(adj - left, raws) && ListsEdges(map[src := adj[src]], edges)
    requires ids == AdjacencyNodes(map[src := adj[src]])
    ensures ListsEdges(adj - (left - {src}), raws + edges)
    ensures AdjacencyNodes(adj - left) + ids == AdjacencyNodes(adj - (left - {src}))
  {
    var before, one, after := adj - left, map[src := adj[src]], adj - (left - {src});
    assert forall k :: k in after <==> k in before || k in one;
    assert forall k <- before :: after[k] == before[k];
    assert forall k <- one :: after[k] == one[k];
    forall r ensures r in raws + edges <==> InAdjacency(after, r) {
      assert r in raws + edges <==> InAdjacency(before, r) || InAdjacency(one, r);
    }
    forall t ensures t in AdjacencyNodes(after) <==> t in AdjacencyNodes(before) || t in AdjacencyNodes(one) {
      IsAdjacencyNode(after, t);
      IsAdjacencyNode(before, t);
      IsAdjacencyNode(one, t);
      if k :| k in after && k != [] && t in after[k] {
        assert k in before || k in one;
      }
    }
  }

  method CollectTargets(src: Text, targets: seq<Text>) returns (ids: set<Text>, edges: seq<RawEdge>)
    ensures ids == AdjacencyNodes(map[src := targets])
    ensures ListsEdges(map[src := targets], edges)
  {
    if |src| == 0 {
      return {}, [];
    }
    ids, edges := {src}, [];
    for i := 0 to |targets|
      invariant ids == {src} + set t | t in targets[..i] && t != []
      invariant forall r :: r in edges <==> r.to in targets[..i] && r.to != [] && r == RawEdgeOf(src, r.to)
    {
      var t := targets[i];
      assert targets[..i + 1] == targets[..i] + [t];
      if |t| == 0 {
        continue;
      }
      ids := ids + {t};
      edges := edges + [RawEdgeOf(src, t)];
    }
    assert targets[..|targets|] == targets;
    OneEntryNodes(src, targets);
  }

  lemma OneEntryNodes(src: Text, targets: seq<Text>)
    requires src != []
    ensures AdjacencyNodes(map[src := targets]) == {src} + set t | t in targets && t != []
  {
    var adj := map[src := targets];
    forall t ensures t in AdjacencyNodes(adj) <==> t == src || (t in targets && t != []) {
      assert src in adj && adj[src] == targets;
    }
  }

  // ------------------------------------------------------------ from a graph to a map

  ghost predicate HasEdge(edges: seq<Edge>, from: Text, to: Text) {
    exists i :: 0 <= i < |edges| && edges[i].from == from && edges[i].to == to
  }

  ghost predicate IsSource(edges: seq<Edge>, from: Text) {
    exists i :: 0 <= i < |edges| && edges[i].from == from
  }

  /** `adj` is the projection of a graph: every node is a key, and each key has its targets. */
  ghost predicate Projects(nodes: seq<Node>, edges: seq<Edge>, adj: Adjacency) {
    && (forall k :: k in adj <==> Node(k) in nodes || IsSource(edges, k))
    && forall k, t :: k in adj ==> (t in adj[k] <==> HasEdge(edges, k, t))
  }

  /** The projection of a built graph, list by list and then sorted. */
  method ProjectAdjacency(nodes: seq<Node>, edges: seq<Edge>) returns (adj: Adjacency)
    ensures Projects(nodes, edges, adj)
    ensures forall k <- adj :: Ascending(adj[k])
  {
    adj := StartNodes(nodes);
    NoEdges();
    for i := 0 to |edges|
      invariant Projects(nodes, edges[..i], adj)
      invariant forall k <- adj :: Distinct(adj[k])
    {
      ghost var before := adj;
      adj := AddTarget(adj, edges[i].from, edges[i].to);
      ProjectsMore(nodes, edges, i, before, adj);
    }
    assert edges[..|edges|] == edges;
    adj := SortLists(adj);
  }

  /** Every node with no targets yet. */
  method StartNodes(nodes: seq<Node>) returns (adj: Adjacency)
    ensures forall k :: k in adj <==> Node(k) in nodes
    ensures forall k <- adj :: adj[k] == []
  {
    adj := map[];
    for i := 0 to |nodes|
      invariant forall k :: k in adj <==> Node(k) in nodes[..i]
      invariant forall k <- adj :: adj[k] == []
    {
      assert nodes[..i + 1] == nodes[..i] + [nodes[i]];
      assert nodes[i] == Node(nodes[i].id);
      adj := adj[nodes[i].id := []];
    }
    assert nodes[..|nodes|] == nodes;
  }

  lemma ProjectsMore(nodes: seq<Node>, edges: seq<Edge>, i: nat, before: Adjacency, adj: Adjacency)
    requires i < |edges| && Projects(nodes, edges[..i], before)
    requires adj.Keys == before.Keys + {edges[i].from}
    requires forall k <- before :: k != edges[i].from ==> adj[k] == before[k]
    requires forall t :: t in adj[edges[i].from] <==>
                         t == edges[i].to || (edges[i].from in before && t in before[edges[i].from])
    ensures Projects(nodes, edges[..i + 1], adj)
  {
    var from, more := edges[i].from, edges[..i + 1];
    OneMoreEdge(edges, i);
    forall k ensures k in adj <==> Node(k) in nodes || IsSource(more, k) {
      assert k in adj <==> k in before || k == from;
    }
    forall k, t | k in adj ensures t in adj[k] <==> HasEdge(more, k, t) {
      if k == from && from !in before {
        NoSourceNoEdge(edges[..i], from, t);
      }
    }
  }

  lemma NoSourceNoEdge(edges: seq<Edge>, from: Text, to: Text)
    requires !IsSource(edges, from)
    ensures !HasEdge(edges, from, to)
  {
  }

  /** One edge: its target is pushed unless the list of its source has it. */
  method AddTarget(before: Adjacency, from: Text, to: Text) returns (adj: Adjacency)
    requires forall k <- before :: Distinct(before[k])
    ensures adj.Keys == before.Keys + {from}
    ensures forall k <- before :: k != from ==> adj[k] == before[k]
    ensures forall t :: t in adj[from] <==> t == to || (from in before && t in before[from])
    ensures forall k <- adj :: Distinct(adj[k])
  {
    adj := before;
    if from !in adj {
      adj := adj[from := []];
    }
    if to !in adj[from] {
      adj := adj[from := adj[from] + [to]];
    }
  }

  method SortLists(adj: Adjacency) returns (sorted: Adjacency)
    requires forall k <- adj :: Distinct(adj[k])
    ensures sorted.Keys == adj.Keys
    ensures forall k <- adj :: Ascending(sorted[k]) && forall t :: t in sorted[k] <==> t in adj[k]
  {
    forall k | k in adj ensures Ascending(Sort(Leq, adj[k])) && forall t :: t in Sort(Leq, adj[k]) <==> t in adj[k] {
      SortAscends(adj[k]);
      SortMembers(Leq, adj[k]);
    }
    sorted := map k | k in adj :: Sort(Leq, adj[k]);
  }

  lemma SortAscends(s: seq<Text>)
    requires Distinct(s)
    ensures Ascending(Sort(Leq, s))
  {
    TextPreorder();
    SortSorts(Leq, s);
    SortDistinct(Leq, s);
  }

  lemma NoEdges()
    ensures forall from :: !IsSource([], from)
    ensures forall from, to :: !HasEdge([], from, to)
  {
  }

  lemma OneMoreEdge(edges: seq<Edge>, i: nat)
    requires i < |edges|
    ensures forall from :: IsSource(edges[..i + 1], from) <==> IsSource(edges[..i], from) || edges[i].from == from
    ensures forall from, to :: HasEdge(edges[..i + 1], from, to) <==>
              HasEdge(edges[..i], from, to) || (edges[i].from == from && edges[i].to == to)
  {
    var more, before := edges[..i + 1], edges[..i];
    forall from ensures IsSource(more, from) <==> IsSource(before, from) || edges[i].from == from {
      if IsSource(before, from) {
        var j :| 0 <= j < i && before[j].from == from;
        assert more[j] == before[j];
      }
      if IsSource(more, from) {
        var j :| 0 <= j <= i && more[j].from == from;
        assert j < i ==> before[j] == more[j];
      }
      assert more[i] == edges[i];
    }
    forall from, to ensures HasEdge(more, from, to) <==>
              HasEdge(before, from, to) || (edges[i].from == from && edges[i].to == to) {
      if HasEdge(before, from, to) {
        var j :| 0 <= j < i && before[j].from == from && before[j].to == to;
        assert more[j] == before[j];
      }
      if HasEdge(more, from, to) {
        var j :| 0 <= j <= i && more[j].from == from && more[j].to == to;
        assert j < i ==> before[j] == more[j];
      }
      assert more[i] == edges[i];
    }
  }

  // --------------------------------------------------------------------- round trip

  /** A graph whose edges are in canonical form, of the default type, and between its nodes. */
  ghost predicate WellFormedGraph(sha: Hash, ids: set<Text>, nodes: seq<Node>, edges: seq<Edge>) {
    && [] !in ids
    && nodes == NodesOf(ids)
    && InForm(sha, edges)
    && forall e <- edges :: e.edgeType == DEFAULT_EDGE_TYPE && e.from in ids && e.to in ids
  }

  /** Projecting a well-formed graph to its adjacency map and rebuilding the canonical
      topology gives back the same nodes, edges and surface hash; truncated edge ids may
      collide. */
  lemma ProjectionRoundTrip(
      sha: Hash, ids: set<Text>, nodes: seq<Node>, edges: seq<Edge>, adj: Adjacency, raws: seq<RawEdge>)
    requires WellFormedGraph(sha, ids, nodes, edges) && Projects(nodes, edges, adj) && ListsEdges(adj, raws)
    ensures Canonical(sha, AdjacencyNodes(adj), raws) ==
            Topology(SURFACE_VERSION, GraphSurfaceHash(sha, nodes, edges), nodes, edges)
  {
    NodesContents(ids);
    assert |DEFAULT_EDGE_TYPE| == 20;
    forall k ensures k in adj <==> k in ids {
      assert Node(k) in nodes <==> k in ids;
      if IsSource(edges, k) {
        var i :| 0 <= i < |edges| && edges[i].from == k;
        assert edges[i] in edges;
      }
    }
    forall r ensures r in raws <==> exists e :: e in edges && r == RawOf(e) {
      if r in raws {
        assert HasEdge(edges, r.from, r.to);
        var i :| 0 <= i < |edges| && edges[i].from == r.from && edges[i].to == r.to;
        assert edges[i] in edges && r == RawOf(edges[i]);
      }
      if e :| e in edges && r == RawOf(e) {
        var i :| 0 <= i < |edges| && edges[i] == e;
        assert HasEdge(edges, r.from, r.to);
        assert InAdjacency(adj, r);
      }
    }
    RebuildInForm(sha, edges, raws);
    AdjacencyNodesAre(ids, edges, adj);
  }

  lemma AdjacencyNodesAre(ids: set<Text>, edges: seq<Edge>, adj: Adjacency)
    requires [] !in ids && (forall k :: k in adj <==> k in ids)
    requires forall e <- edges :: e.to in ids
    requires forall k, t :: k in adj ==> (t in adj[k] <==> HasEdge(edges, k, t))
    ensures AdjacencyNodes(adj) == ids
  {
    forall k, t | k in adj && t in adj[k] ensures t in ids {
      var i :| 0 <= i < |edges| && edges[i].from == k && edges[i].to == t;
      assert edges[i] in edges;
    }
  }
}
