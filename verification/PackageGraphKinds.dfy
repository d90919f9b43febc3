/** Which of several declarations of one dependency gives its edge the metadata. */
module PackageGraphKinds {
  import opened CanonicalTopology
  import opened GraphSurface
  import opened PackageGraph
  import opened PackageGraphFacts
  import opened Results
  import opened Sorting
  import opened Texts

  // ------------------------------------------------------------------ the first block

  /** The place of a kind among the four blocks. */
  function BlockRank(kind: Kind): nat {
    match kind
    case Dependency => 0
    case DevDependency => 1
    case PeerDependency => 2
    case OptionalDependency => 3
  }

  /** Its place in the alphabet. */
  function TextRank(kind: Kind): nat {
    match kind
    case Dependency => 0
    case DevDependency => 1
    case OptionalDependency => 2
    case PeerDependency => 3
  }

  lemma KindOrder(k: Kind, l: Kind)
    ensures Leq(KindText(k), KindText(l)) <==> TextRank(k) <= TextRank(l)
  {
    if k == l {
      LeqTotal(KindText(k), KindText(k));
    } else {
      KindHeads();
    }
  }

  /** Where the four texts part. */
  lemma KindHeads()
    ensures KindText(PeerDependency)[0] == 0x70 && KindText(OptionalDependency)[0] == 0x6F
    ensures KindText(Dependency)[0] == 0x64 && KindText(DevDependency)[0] == 0x64
    ensures Leq(KindText(Dependency), KindText(DevDependency)) && !Leq(KindText(DevDependency), KindText(Dependency))
  {
    var s, t := KindText(Dependency), KindText(DevDependency);
    assert s[1] == 0x65 && t[1] == 0x65 && s[2] == 0x70 && t[2] == 0x76;
    assert s[1..][1..][0] == 0x70 && t[1..][1..][0] == 0x76;
    assert Leq(s[1..][1..], t[1..][1..]) && !Leq(t[1..][1..], s[1..][1..]);
    assert Leq(s[1..], t[1..]) && !Leq(t[1..], s[1..]);
  }

  ghost predicate DeclaredAs(deps: seq<Dep>, to: Text, kind: Kind) {
    exists j :: 0 <= j < |deps| && deps[j].target == to && deps[j].kind == kind
  }

  /** `kind` is that of the first block which declares `to`. */
  ghost predicate IsFirstBlock(deps: seq<Dep>, to: Text, kind: Kind) {
    DeclaredAs(deps, to, kind) && forall other :: DeclaredAs(deps, to, other) ==> BlockRank(kind) <= BlockRank(other)
  }

  /** An edge has the kind of the first declaring block, as documented, exactly when the first
      or the second block declares its target, or the third and the fourth do not both. */
  lemma FirstBlockWinsExactly(sha: Hash, scan: Scan, e: Edge)
    requires e in GraphOf(sha, scan).edges
    ensures var deps, metadata := DepsOf(scan.adjacency, e.from), GraphOf(sha, scan).edgeMetadata;
            e.id in metadata &&
            (IsFirstBlock(deps, e.to, metadata[e.id].kind) <==>
              || DeclaredAs(deps, e.to, Dependency) || DeclaredAs(deps, e.to, DevDependency)
              || !(DeclaredAs(deps, e.to, PeerDependency) && DeclaredAs(deps, e.to, OptionalDependency)))
  {
    var k := LeastKindWins(sha, scan, e);
    LeastIsFirstBlock(DepsOf(scan.adjacency, e.from), e.to, k);
  }

  lemma LeastIsFirstBlock(deps: seq<Dep>, to: Text, k: nat)
    requires IsFirstLeast(deps, to, k)
    ensures IsFirstBlock(deps, to, deps[k].kind) <==>
            || DeclaredAs(deps, to, Dependency) || DeclaredAs(deps, to, DevDependency)
            || !(DeclaredAs(deps, to, PeerDependency) && DeclaredAs(deps, to, OptionalDependency))
  {
    var least := deps[k].kind;
    forall kind | DeclaredAs(deps, to, kind) ensures TextRank(least) <= TextRank(kind) {
      var j :| 0 <= j < |deps| && deps[j].target == to && deps[j].kind == kind;
      KindOrder(least, deps[j].kind);
    }
    assert DeclaredAs(deps, to, least);
  }

  // ------------------------------------------------------------------------ an input

  /** A manifest that declares one dependency as a peer and as an optional one. */
  function OptionalPeer(from: Text, to: Text, spec: Specifier): Package {
    Package(Some(from), None, None, Some(map[to := spec]), Some(map[to := spec]))
  }

  /** A manifest that declares nothing. */
  function Bare(name: Text): Package { Package(Some(name), None, None, None, None) }

  lemma OptionalPeerDeps(rel: Text, from: Text, to: Text, spec: Specifier, d: Dep)
    ensures d in PackageDeps(Pnpm, rel, OptionalPeer(from, to, spec)) <==>
            && (d.kind == PeerDependency || d.kind == OptionalDependency)
            && d == Dep(to, d.kind, PnpmProtocol(spec))
  {
    PackageDepsExactly(Pnpm, rel, OptionalPeer(from, to, spec), d);
    var block := map[to := spec];
    if d == Dep(to, d.kind, PnpmProtocol(spec)) {
      assert IsEntry(Pnpm, rel, block, d.kind, to, d);
    }
  }

  lemma BareDeps(rel: Text, name: Text, d: Dep)
    ensures d !in PackageDeps(Pnpm, rel, Bare(name))
  {
    PackageDepsExactly(Pnpm, rel, Bare(name), d);
  }

  /** All that is declared is that `from` depends on `to`, as a peer and as an optional one. */
  ghost predicate OnlyOptionalPeer(manifests: Manifests, dirs: seq<Text>, from: Text, to: Text, protocol: Protocol) {
    && IsPackageName(manifests, dirs, to)
    && forall name, d :: Declares(Pnpm, manifests, dirs, name, d) <==>
                         && name == from && (d.kind == PeerDependency || d.kind == OptionalDependency)
                         && d == Dep(to, d.kind, protocol)
  }

  lemma DeclaresInTwo(manifests: Manifests, a: Text, b: Text, name: Text, d: Dep)
    ensures Declares(Pnpm, manifests, [a, b], name, d) <==>
            DeclaredAt(Pnpm, manifests, a, name, d) || DeclaredAt(Pnpm, manifests, b, name, d)
  {
    assert [a, b][0] == a && [a, b][1] == b;
  }

  lemma TwoDirectories(from: Text, to: Text, spec: Specifier, manifests: Manifests)
    requires from != [] && to != [] && from != to
    requires manifests == map[from := Parsed(OptionalPeer(from, to, spec)), to := Parsed(Bare(to))]
    ensures OnlyOptionalPeer(manifests, [from, to], from, to, PnpmProtocol(spec))
  {
    var dirs := [from, to];
    assert dirs[0] == from && dirs[1] == to;
    assert Named(manifests, from) == Some(OptionalPeer(from, to, spec)) && Named(manifests, to) == Some(Bare(to));
    assert HasName(manifests, to, to);
    forall name, d
      ensures Declares(Pnpm, manifests, dirs, name, d) <==>
              && name == from && (d.kind == PeerDependency || d.kind == OptionalDependency)
              && d == Dep(to, d.kind, PnpmProtocol(spec))
    {
      OptionalPeerDeps(from, from, to, spec, d);
      BareDeps(to, to, d);
      DeclaresInTwo(manifests, from, to, name, d);
    }
  }

  lemma OptionalKind(sha: Hash, scan: Scan, e: Edge, optional: Dep)
    requires e in GraphOf(sha, scan).edges
    requires optional in DepsOf(scan.adjacency, e.from)
    requires optional.target == e.to && optional.kind == OptionalDependency
    requires forall d <- DepsOf(scan.adjacency, e.from) :: d.kind == PeerDependency || d.kind == OptionalDependency
    ensures var metadata := GraphOf(sha, scan).edgeMetadata;
            e.id in metadata && metadata[e.id].kind == OptionalDependency
  {
    var k := LeastKindWins(sha, scan, e);
    var deps := DepsOf(scan.adjacency, e.from);
    var j :| 0 <= j < |deps| && deps[j] == optional;
    assert deps[k] in deps;
    assert Leq(KindText(deps[k].kind), KindText(deps[j].kind));
    KindOrder(deps[k].kind, OptionalDependency);
  }

  lemma SortedDeclares(manifests: Manifests, dirs: seq<Text>, from: Text, d: Dep)
    ensures d in DepsOf(ScanAll(Pnpm, manifests, Sort(Leq, dirs)).adjacency, from) <==>
            Declares(Pnpm, manifests, dirs, from, d)
  {
    SortedDirs(dirs);
    ScanAdjacency(Pnpm, manifests, Sort(Leq, dirs), from, d);
  }

  lemma OnlyEdge(sha: Hash, manifests: Manifests, dirs: seq<Text>, from: Text, to: Text, protocol: Protocol)
    requires OnlyOptionalPeer(manifests, dirs, from, to, protocol)
    ensures var metadata := GraphFor(sha, Pnpm, manifests, dirs).edgeMetadata;
            var id := EdgeId(sha, from, to, DEFAULT_EDGE_TYPE);
            id in metadata && metadata[id].kind == OptionalDependency
  {
    assert Declares(Pnpm, manifests, dirs, from, Dep(to, OptionalDependency, protocol));
    InternalIsKept(sha, Pnpm, manifests, dirs, from, to);
    var edges := GraphFor(sha, Pnpm, manifests, dirs).edges;
    IdsMembers(edges);
    var e :| e in edges && e.id == EdgeId(sha, from, to, DEFAULT_EDGE_TYPE);
    EdgeIsInternal(sha, Pnpm, manifests, dirs, e);
    var scan := ScanAll(Pnpm, manifests, Sort(Leq, dirs));
    forall d ensures d in DepsOf(scan.adjacency, e.from) <==> Declares(Pnpm, manifests, dirs, e.from, d) {
      SortedDeclares(manifests, dirs, e.from, d);
    }
    OptionalKind(sha, scan, e, Dep(to, OptionalDependency, protocol));
  }

  /** A package declared as a peer and as an optional dependency gets an edge with the kind of
      the optional one. */
  lemma OptionalBeatsPeer(sha: Hash, from: Text, to: Text, spec: Specifier)
    requires from != [] && to != [] && from != to
    ensures var manifests := map[from := Parsed(OptionalPeer(from, to, spec)), to := Parsed(Bare(to))];
            var g := GraphFor(sha, Pnpm, manifests, [from, to]);
            var id := EdgeId(sha, from, to, DEFAULT_EDGE_TYPE);
            id in g.edgeMetadata && g.edgeMetadata[id].kind == OptionalDependency
  {
    var manifests := map[from := Parsed(OptionalPeer(from, to, spec)), to := Parsed(Bare(to))];
    TwoDirectories(from, to, spec, manifests);
    OnlyEdge(sha, manifests, [from, to], from, to, PnpmProtocol(spec));
  }
}
