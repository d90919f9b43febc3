/** Topologies and their hashed text in the terms of the input alone. */
module TopologyText {
  import opened AdjacencyMap
  import opened CanonicalTopology
  import opened GraphSurface
  import Json
  import opened Results
  import opened Sorting
  import opened Texts

  // ------------------------------------------------------------------- what is hashed

  /** The hashed text: the nodes and the edges as two JSON arrays on two lines. */
  lemma SurfaceTextExactly(sha: Hash, nodes: seq<Node>, edges: seq<Edge>, nodeTexts: seq<Text>, edgeTexts: seq<Text>)
    requires |nodeTexts| == |nodes| && |edgeTexts| == |edges|
    requires forall i :: 0 <= i < |nodes| ==>
               nodeTexts[i] ==
               Ascii("{\"id\":") + Json.Canonical(Json.JStr(nodes[i].id)) + Ascii(",\"type\":\"package\"}")
    requires forall i :: 0 <= i < |edges| ==>
               edgeTexts[i] ==
               Ascii("{\"id\":") + Json.Canonical(Json.JStr(edges[i].id)) +
               Ascii(",\"from\":") + Json.Canonical(Json.JStr(edges[i].from)) +
               Ascii(",\"to\":") + Json.Canonical(Json.JStr(edges[i].to)) +
               Ascii(",\"type\":") + Json.Canonical(Json.JStr(edges[i].edgeType)) + Ascii("}")
    ensures GraphSurfaceHash(sha, nodes, edges) ==
            sha(Ascii("[") + Join(nodeTexts, Ascii(",")) + Ascii("]") + Ascii("\n") +
                (Ascii("[") + Join(edgeTexts, Ascii(",")) + Ascii("]")))
  {
    forall i | 0 <= i < |nodes| ensures nodeTexts[i] == NodeText(nodes[i]) {
    }
    forall i | 0 <= i < |edges| ensures edgeTexts[i] == EdgeText(edges[i]) {
      assert Ascii("}") == [Json.RBRACE];
    }
    assert Map(NodeText, nodes) == nodeTexts;
    assert Map(EdgeText, edges) == edgeTexts;
    PunctuationUnits();
  }

  lemma PunctuationUnits()
    ensures Ascii("[") == [Json.LBRACKET] && Ascii("]") == [Json.RBRACKET]
    ensures Ascii(",") == [Json.COMMA] && Ascii("\n") == [NEWLINE]
  {
  }

  // ------------------------------------------------------------ what a topology holds

  /** The edge a listed edge becomes: both ends named, the default type where none is given, and
      an id of eight digits of the digest. */
  ghost predicate StandsFor(sha: Hash, r: RawEdge, e: Edge) {
    && e.from == r.from != [] && e.to == r.to != []
    && (if r.edgeType == None || r.edgeType == Some([]) then e.edgeType == Ascii("workspace_dependency")
        else r.edgeType == Some(e.edgeType))
    && HasId(sha, e)
  }

  ghost predicate HasId(sha: Hash, e: Edge) {
    var digest := sha(e.from + Ascii("|") + e.to + Ascii("|") + e.edgeType);
    exists short :: short <= digest && |short| == (if |digest| < 8 then |digest| else 8) && e.id == Ascii("e_") + short
  }

  lemma StandsExactly(sha: Hash, r: RawEdge, e: Edge)
    ensures StandsFor(sha, r, e) <==> Usable(r) && EdgeOf(sha, r) == e
  {
    assert Ascii("|") == [BAR];
    if Usable(r) {
      IdExactly(sha, EdgeOf(sha, r));
    }
    if StandsFor(sha, r, e) {
      IdExactly(sha, e);
    }
  }

  lemma IdExactly(sha: Hash, e: Edge)
    ensures HasId(sha, e) <==> e.id == EdgeId(sha, e.from, e.to, e.edgeType)
  {
    assert Ascii("|") == [BAR];
    var digest := sha(e.from + [BAR] + e.to + [BAR] + e.edgeType);
    var short := if |digest| >= 8 then digest[..8] else digest;
    assert short <= digest;
  }

  /** The listed edge at `i` becomes `e`, and none before it has that id. */
  ghost predicate FirstWithId(sha: Hash, raws: seq<RawEdge>, i: nat, e: Edge) {
    && i < |raws| && StandsFor(sha, raws[i], e)
    && forall j, f :: 0 <= j < i && StandsFor(sha, raws[j], f) ==> f.id != e.id
  }

  lemma {:induction false} KeptAreFirst(sha: Hash, raws: seq<RawEdge>, n: nat, e: Edge) returns (i: nat)
    requires n <= |raws| && e in KeepFirst(sha, raws[..n])
    ensures i < n && FirstWithId(sha, raws, i, e)
  {
    if n == 0 {
      assert false;
    } else {
      KeepFirstAppend(sha, raws, n - 1);
      var before := KeepFirst(sha, raws[..n - 1]);
      if e in before {
        i := KeptAreFirst(sha, raws, n - 1, e);
      } else {
        i := n - 1;
        StandsExactly(sha, raws[i], e);
        KeepFirstContents(sha, raws[..i]);
        forall j, f | 0 <= j < i && StandsFor(sha, raws[j], f) ensures f.id != e.id {
          StandsExactly(sha, raws[j], f);
          assert raws[..i][j] == raws[j];
        }
      }
    }
  }

  ghost predicate IdsAscend(t: Topology) {
    && (forall i, j :: 0 <= i < j < |t.nodes| ==> Less(t.nodes[i].id, t.nodes[j].id))
    && forall i, j :: 0 <= i < j < |t.edges| ==> Less(t.edges[i].id, t.edges[j].id)
  }

  /** A topology has exactly the named nodes and, of the listed edges with two ends, exactly the
      first with each id, all in ascending order, under the version and hash of its surface. */
  lemma TopologyExactly(sha: Hash, ids: set<Text>, raws: seq<RawEdge>)
    ensures var t := Canonical(sha, ids, raws);
            && t.version == Ascii("1.0.0") && t.hash == GraphSurfaceHash(sha, t.nodes, t.edges) && IdsAscend(t)
            && (forall id :: Node(id) in t.nodes <==> id in ids && id != [])
            && (forall e :: e in t.edges <==> exists i: nat :: FirstWithId(sha, raws, i, e))
  {
    var t := Canonical(sha, ids, raws);
    NodesContents(ids);
    CanonicalContents(sha, raws);
    MappedIds(t.nodes);
    NodesAscend(t.nodes, Map(IdOf, t.nodes));
    EdgesAscend(t.edges);
    forall e ensures e in t.edges <==> exists i: nat :: FirstWithId(sha, raws, i, e) {
      EdgeExactly(sha, raws, e);
    }
  }

  lemma NodesAscend(nodes: seq<Node>, ids: seq<Text>)
    requires Ascending(ids) && |ids| == |nodes| && forall i :: 0 <= i < |nodes| ==> ids[i] == nodes[i].id
    ensures forall i, j :: 0 <= i < j < |nodes| ==> Less(nodes[i].id, nodes[j].id)
  {
    forall i, j | 0 <= i < j < |nodes| ensures Less(nodes[i].id, nodes[j].id) {
      assert Less(ids[i], ids[j]);
    }
  }

  lemma MappedIds(nodes: seq<Node>)
    ensures var ids := Map(IdOf, nodes);
            |ids| == |nodes| && forall i :: 0 <= i < |nodes| ==> ids[i] == nodes[i].id
  {
  }

  lemma EdgesAscend(edges: seq<Edge>)
    requires AscendingIds(edges)
    ensures forall i, j :: 0 <= i < j < |edges| ==> Less(edges[i].id, edges[j].id)
  {
    forall i, j | 0 <= i < j < |edges| ensures Less(edges[i].id, edges[j].id) {
      assert Less(Ids(edges)[i], Ids(edges)[j]);
    }
  }

  lemma EdgeExactly(sha: Hash, raws: seq<RawEdge>, e: Edge)
    ensures e in CanonicalEdges(sha, raws) <==> exists i: nat :: FirstWithId(sha, raws, i, e)
  {
    KeepFirstContents(sha, raws);
    SortKeepsDistinct(KeepFirst(sha, raws));
    assert raws[..|raws|] == raws;
    if e in CanonicalEdges(sha, raws) {
      var i := KeptAreFirst(sha, raws, |raws|, e);
    }
    if i: nat :| FirstWithId(sha, raws, i, e) {
      FirstIsKept(sha, raws, i, e);
    }
  }

  lemma FirstIsKept(sha: Hash, raws: seq<RawEdge>, i: nat, e: Edge)
    requires FirstWithId(sha, raws, i, e)
    ensures e in KeepFirst(sha, raws)
  {
    var kept := KeepFirst(sha, raws);
    StandsExactly(sha, raws[i], e);
    KeepFirstContents(sha, raws);
    assert e.id in Ids(kept);
    var k :| 0 <= k < |kept| && Ids(kept)[k] == e.id;
    assert raws[..|raws|] == raws;
    var j := KeptAreFirst(sha, raws, |raws|, kept[k]);
    SameFirst(sha, raws, i, e, j, kept[k]);
  }

  lemma SameFirst(sha: Hash, raws: seq<RawEdge>, i: nat, e: Edge, j: nat, f: Edge)
    requires FirstWithId(sha, raws, i, e) && FirstWithId(sha, raws, j, f) && e.id == f.id
    ensures e == f
  {
    assert i == j;
    StandsExactly(sha, raws[i], e);
    StandsExactly(sha, raws[i], f);
  }

  // --------------------------------------------------------------- from an adjacency map

  /** `from` lists `to`, and both have a name. */
  ghost predicate ListsTarget(adj: Adjacency, from: Text, to: Text) {
    from != [] && to != [] && from in adj && to in adj[from]
  }

  /** The topology of an adjacency map has a node for every name that is a key or is listed
      under a named key, and an edge of the default type for every listed pair, up to ids. */
  lemma AdjacencyExactly(sha: Hash, adj: Adjacency, raws: seq<RawEdge>)
    requires ListsEdges(adj, raws)
    ensures var t := Canonical(sha, AdjacencyNodes(adj), raws);
            && (forall id :: Node(id) in t.nodes <==>
                  id != [] && (id in adj || exists from :: ListsTarget(adj, from, id)))
            && (forall e <- t.edges ::
                  ListsTarget(adj, e.from, e.to) && e.edgeType == Ascii("workspace_dependency") && HasId(sha, e))
            && (forall e: Edge | ListsTarget(adj, e.from, e.to) && HasId(sha, e) &&
                                 e.edgeType == Ascii("workspace_dependency") ::
                  exists f :: f in t.edges && f.id == e.id)
  {
    var t := Canonical(sha, AdjacencyNodes(adj), raws);
    TopologyExactly(sha, AdjacencyNodes(adj), raws);
    forall id ensures Node(id) in t.nodes <==> id != [] && (id in adj || exists from :: ListsTarget(adj, from, id)) {
      IsAdjacencyNode(adj, id);
      assert forall k :: k in adj && k != [] && id in adj[k] && id != [] ==> ListsTarget(adj, k, id);
    }
    forall e | e in t.edges
      ensures ListsTarget(adj, e.from, e.to) && e.edgeType == Ascii("workspace_dependency") && HasId(sha, e)
    {
      ListedEdge(sha, adj, raws, e);
    }
    forall e: Edge | ListsTarget(adj, e.from, e.to) && HasId(sha, e) && e.edgeType == Ascii("workspace_dependency")
      ensures exists f :: f in t.edges && f.id == e.id
    {
      ListedPair(sha, adj, raws, e);
    }
  }

  lemma ListedEdge(sha: Hash, adj: Adjacency, raws: seq<RawEdge>, e: Edge)
    requires ListsEdges(adj, raws) && e in CanonicalEdges(sha, raws)
    ensures ListsTarget(adj, e.from, e.to) && e.edgeType == Ascii("workspace_dependency") && HasId(sha, e)
  {
    EdgeExactly(sha, raws, e);
    var i: nat :| FirstWithId(sha, raws, i, e);
    assert raws[i] in raws && InAdjacency(adj, raws[i]);
  }

  lemma ListedPair(sha: Hash, adj: Adjacency, raws: seq<RawEdge>, e: Edge)
    requires ListsEdges(adj, raws) && ListsTarget(adj, e.from, e.to) && HasId(sha, e)
    requires e.edgeType == Ascii("workspace_dependency")
    ensures exists f :: f in CanonicalEdges(sha, raws) && f.id == e.id
  {
    var r := RawEdgeOf(e.from, e.to);
    assert InAdjacency(adj, r) && r in raws;
    var i :| 0 <= i < |raws| && raws[i] == r;
    assert |DEFAULT_EDGE_TYPE| == 20;
    StandsExactly(sha, r, e);
    CanonicalContents(sha, raws);
    IdsMembers(CanonicalEdges(sha, raws));
  }
}
