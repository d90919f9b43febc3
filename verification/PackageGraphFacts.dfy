/** What the package graph builders compute, and that they agree. */
module PackageGraphFacts {
  import opened AdjacencyMap
  import opened CanonicalTopology
  import opened GraphSurface
  import opened PackageGraph
  import opened Results
  import opened Sorting
  import opened Texts

  // -------------------------------------------------------------------- candidates

  lemma {:induction false} InternalMembers(names: set<Text>, deps: seq<Dep>, d: Dep)
    ensures d in Internal(names, deps) <==> d in deps && d.target in names
  {
    if deps == [] {
    } else {
      InternalMembers(names, deps[1..], d);
      assert deps == [deps[0]] + deps[1..];
    }
  }

  lemma KeptMembers(names: set<Text>, deps: seq<Dep>, d: Dep)
    ensures d in Kept(names, deps) <==> d in deps && d.target in names
  {
    InternalMembers(names, deps, d);
    assert d in Kept(names, deps) <==> d in multiset(Kept(names, deps));
    assert d in Internal(names, deps) <==> d in multiset(Internal(names, deps));
  }

  lemma {:induction false} CandidateMembers(
      names: set<Text>, adjacency: map<Text, seq<Dep>>, order: seq<Text>, c: Candidate)
    ensures c in Candidates(names, adjacency, order) <==>
            c.from in order && c.dep in DepsOf(adjacency, c.from) && c.dep.target in names
  {
    if order == [] {
    } else {
      var front, last := order[..|order| - 1], order[|order| - 1];
      CandidateMembers(names, adjacency, front, c);
      MoreMembers(names, adjacency, last, c);
      InAppended(front, last, order, c.from);
    }
  }

  lemma InAppended(front: seq<Text>, last: Text, all: seq<Text>, t: Text)
    requires all != [] && front == all[..|all| - 1] && last == all[|all| - 1]
    ensures t in all <==> t in front || t == last
  {
    assert all == front + [last];
  }

  /** The candidates of one package. */
  lemma MoreMembers(names: set<Text>, adjacency: map<Text, seq<Dep>>, from: Text, c: Candidate)
    ensures c in From(from, Kept(names, DepsOf(adjacency, from))) <==>
            c.from == from && c.dep in DepsOf(adjacency, from) && c.dep.target in names
  {
    KeptMembers(names, DepsOf(adjacency, from), c.dep);
    FromMembers(from, Kept(names, DepsOf(adjacency, from)), c);
  }

  lemma FromMembers(from: Text, deps: seq<Dep>, c: Candidate)
    ensures c in From(from, deps) <==> c.from == from && c.dep in deps
  {
    if c.from == from && c.dep in deps {
      var i :| 0 <= i < |deps| && deps[i] == c.dep;
      assert From(from, deps)[i] == c;
    }
  }

  predicate CandidateLeq(a: Candidate, b: Candidate) {
    if a.from != b.from then Leq(a.from, b.from) else DepLeq(a.dep, b.dep)
  }

  lemma DepLeqIsPreorder()
    ensures TotalPreorder(DepLeq)
  {
    LeqIsTotalOrder();
  }

  /** The candidates come by package, then target, then kind. */
  lemma {:induction false} CandidatesSorted(names: set<Text>, adjacency: map<Text, seq<Dep>>, order: seq<Text>)
    requires Ascending(order)
    ensures Sorted(CandidateLeq, Candidates(names, adjacency, order))
  {
    if order == [] {
    } else {
      var front, last := order[..|order| - 1], order[|order| - 1];
      CandidatesSorted(names, adjacency, front);
      MoreSorted(names, adjacency, last);
      var a, b := Candidates(names, adjacency, front), From(last, Kept(names, DepsOf(adjacency, last)));
      forall i | 0 <= i < |a| ensures Less(a[i].from, last) {
        assert a[i] in a;
        CandidateMembers(names, adjacency, front, a[i]);
        var k :| 0 <= k < |front| && front[k] == a[i].from;
        assert Less(order[k], last);
      }
      SortedConcat(a, b, last);
    }
  }

  lemma MoreSorted(names: set<Text>, adjacency: map<Text, seq<Dep>>, from: Text)
    ensures Sorted(CandidateLeq, From(from, Kept(names, DepsOf(adjacency, from))))
  {
    DepLeqIsPreorder();
    SortSorts(DepLeq, Internal(names, DepsOf(adjacency, from)));
  }

  lemma SortedConcat(a: seq<Candidate>, b: seq<Candidate>, from: Text)
    requires Sorted(CandidateLeq, a) && Sorted(CandidateLeq, b)
    requires forall i :: 0 <= i < |a| ==> Less(a[i].from, from)
    requires forall j :: 0 <= j < |b| ==> b[j].from == from
    ensures Sorted(CandidateLeq, a + b)
  {
  }

  /** `i` is the first candidate whose edge has its id. */
  ghost predicate FirstWithId(sha: Hash, cs: seq<Candidate>, i: nat) {
    i < |cs| && forall j :: 0 <= j < i ==> CandidateId(sha, cs[j]) != CandidateId(sha, cs[i])
  }

  /** Candidate `i` is where edge `e` and its metadata come from. */
  ghost predicate Origin(sha: Hash, cs: seq<Candidate>, i: nat, e: Edge, metadata: map<Text, Metadata>) {
    && FirstWithId(sha, cs, i)
    && e == CandidateEdge(sha, cs[i])
    && e.id in metadata && metadata[e.id] == Metadata(cs[i].dep.kind, cs[i].dep.protocol)
  }

  /** What `FirstWins` keeps of a candidate list. */
  ghost predicate Contents(sha: Hash, cs: seq<Candidate>, built: Built) {
    && DistinctIds(built.edges)
    && (forall id :: id in built.metadata <==> id in Ids(built.edges))
    && (forall e <- built.edges :: exists i :: Origin(sha, cs, i, e, built.metadata))
    && (forall i :: 0 <= i < |cs| ==> CandidateId(sha, cs[i]) in built.metadata)
  }

  /** Each edge kept, and its metadata, come from the first candidate with its id; every
      candidate's id is kept. */
  lemma {:induction false} FirstWinsContents(sha: Hash, cs: seq<Candidate>)
    ensures Contents(sha, cs, FirstWins(sha, cs))
  {
    if cs == [] {
    } else {
      var front, last := cs[..|cs| - 1], cs[|cs| - 1];
      FirstWinsContents(sha, front);
      var before := FirstWins(sha, front);
      if CandidateId(sha, last) in before.metadata {
        OldId(sha, cs, before);
      } else {
        NewId(sha, cs, before);
      }
    }
  }

  lemma OldId(sha: Hash, cs: seq<Candidate>, before: Built)
    requires cs != [] && Contents(sha, cs[..|cs| - 1], before)
    requires CandidateId(sha, cs[|cs| - 1]) in before.metadata
    ensures Contents(sha, cs, before)
  {
    var front := cs[..|cs| - 1];
    forall e | e in before.edges ensures exists i :: Origin(sha, cs, i, e, before.metadata) {
      var i :| Origin(sha, front, i, e, before.metadata);
      KeptFirst(sha, cs, i);
      assert Origin(sha, cs, i, e, before.metadata);
    }
    forall i | 0 <= i < |cs| ensures CandidateId(sha, cs[i]) in before.metadata {
      assert i < |front| ==> front[i] == cs[i];
    }
  }

  lemma NewId(sha: Hash, cs: seq<Candidate>, before: Built)
    requires cs != [] && Contents(sha, cs[..|cs| - 1], before)
    requires CandidateId(sha, cs[|cs| - 1]) !in before.metadata
    ensures var last := cs[|cs| - 1];
            Contents(sha, cs, Built(
              before.edges + [CandidateEdge(sha, last)],
              before.metadata[CandidateId(sha, last) := Metadata(last.dep.kind, last.dep.protocol)]))
  {
    var front, last := cs[..|cs| - 1], cs[|cs| - 1];
    var e := CandidateEdge(sha, last);
    var metadata := before.metadata[e.id := Metadata(last.dep.kind, last.dep.protocol)];
    IdsAppend(before.edges, e);
    assert forall i :: 0 <= i < |front| ==> cs[i] == front[i];
    forall f | f in before.edges + [e] ensures exists i :: Origin(sha, cs, i, f, metadata) {
      if f in before.edges {
        var i :| Origin(sha, front, i, f, before.metadata);
        KeptFirst(sha, cs, i);
        assert Origin(sha, cs, i, f, metadata);
      } else {
        NewFirst(sha, cs, before.metadata);
        assert Origin(sha, cs, |cs| - 1, f, metadata);
      }
    }
    forall i | 0 <= i < |cs| ensures CandidateId(sha, cs[i]) in metadata {
      assert i < |front| ==> front[i] == cs[i];
    }
  }

  lemma KeptFirst(sha: Hash, cs: seq<Candidate>, i: nat)
    requires cs != [] && FirstWithId(sha, cs[..|cs| - 1], i)
    ensures FirstWithId(sha, cs, i) && cs[i] == cs[..|cs| - 1][i]
  {
    var front := cs[..|cs| - 1];
    assert forall j :: 0 <= j <= i ==> front[j] == cs[j];
  }

  lemma NewFirst(sha: Hash, cs: seq<Candidate>, metadata: map<Text, Metadata>)
    requires cs != [] && CandidateId(sha, cs[|cs| - 1]) !in metadata
    requires forall i :: 0 <= i < |cs| - 1 ==> CandidateId(sha, cs[i]) in metadata
    ensures FirstWithId(sha, cs, |cs| - 1)
  {
  }

  // ------------------------------------------------------------------ what is declared

  /** The block of a manifest that declares dependencies of a kind. */
  function BlockOf(pkg: Package, kind: Kind): Option<Block> {
    match kind
    case Dependency => pkg.dependencies
    case DevDependency => pkg.devDependencies
    case PeerDependency => pkg.peerDependencies
    case OptionalDependency => pkg.optionalDependencies
  }

  ghost predicate IsEntry(style: Style, rel: Text, block: Block, kind: Kind, name: Text, d: Dep) {
    name in block && d == DepOf(style, rel, kind, name, block[name])
  }

  /** Some entry of the block stands for `d`. */
  ghost predicate InBlock(style: Style, rel: Text, block: Option<Block>, kind: Kind, d: Dep) {
    block.Some? && exists name :: IsEntry(style, rel, block.value, kind, name, d)
  }

  lemma BlockMembers(style: Style, rel: Text, block: Block, kind: Kind, names: seq<Text>, d: Dep)
    requires forall name :: name in names <==> name in block
    requires forall i :: 0 <= i < |names| ==> names[i] in block
    ensures d in Entries(style, rel, block, kind, names, |names|) <==>
            exists name :: IsEntry(style, rel, block, kind, name, d)
  {
    var deps := Entries(style, rel, block, kind, names, |names|);
    if d in deps {
      var i :| 0 <= i < |deps| && deps[i] == d;
      assert IsEntry(style, rel, block, kind, names[i], d);
    }
    if name :| IsEntry(style, rel, block, kind, name, d) {
      var i :| 0 <= i < |names| && names[i] == name;
      assert deps[i] == d;
    }
  }

  lemma SectionMembers(style: Style, rel: Text, section: Section, d: Dep)
    ensures d in SectionDeps(style, rel, section) <==> InBlock(style, rel, section.block, section.kind, d)
  {
    if section.block.Some? {
      var names := SortSet(section.block.value.Keys);
      assert forall i :: 0 <= i < |names| ==> names[i] in names;
      BlockMembers(style, rel, section.block.value, section.kind, names, d);
    }
  }

  lemma {:induction false} FlattenMembers(lists: seq<seq<Dep>>, n: nat, d: Dep)
    requires n <= |lists|
    ensures d in Flatten(lists, n) <==> exists i :: 0 <= i < n && d in lists[i]
  {
    if n == 0 {
    } else {
      FlattenMembers(lists, n - 1, d);
    }
  }

  lemma BlockIndex(pkg: Package, kind: Kind) returns (i: nat)
    ensures i < 4 && Sections(pkg)[i] == Section(BlockOf(pkg, kind), kind)
    ensures forall j :: 0 <= j < 4 && Sections(pkg)[j].kind == kind ==> j == i
  {
    i := match kind
      case Dependency => 0
      case DevDependency => 1
      case PeerDependency => 2
      case OptionalDependency => 3;
  }

  /** Before entries with one key are taken together. */
  lemma AllEntries(style: Style, rel: Text, pkg: Package, d: Dep)
    ensures d in SectionsDeps(style, rel, Sections(pkg)) <==> InBlock(style, rel, BlockOf(pkg, d.kind), d.kind, d)
  {
    var sections := Sections(pkg);
    var lists := Lists(style, rel, sections);
    FlattenMembers(lists, 4, d);
    var k := BlockIndex(pkg, d.kind);
    forall i | 0 <= i < 4
      ensures d in lists[i] <==> i == k && InBlock(style, rel, BlockOf(pkg, d.kind), d.kind, d)
    {
      SectionMembers(style, rel, sections[i], d);
    }
  }

  lemma {:induction false} AddAllMembers(style: Style, deps: seq<Dep>, d: Dep)
    ensures d in AddAll(style, [], deps) ==> d in deps
    ensures d in deps ==> Holds(style, AddAll(style, [], deps), d)
  {
    if deps == [] {
    } else {
      var front, last := deps[..|deps| - 1], deps[|deps| - 1];
      AddAllMembers(style, front, d);
      assert deps == front + [last];
      var before, after := AddAll(style, [], front), AddAll(style, [], deps);
      if Holds(style, before, d) {
        var i :| 0 <= i < |before| && SameKey(style, before[i], d);
        assert after[i] == before[i];
      }
      if d == last && !Holds(style, before, d) {
        assert after[|before|] == d;
      }
    }
  }

  lemma SameKeySameEntry(style: Style, rel: Text, pkg: Package, d: Dep, e: Dep)
    requires SameKey(style, d, e)
    requires InBlock(style, rel, BlockOf(pkg, d.kind), d.kind, d)
    requires InBlock(style, rel, BlockOf(pkg, e.kind), e.kind, e)
    ensures d == e
  {
  }

  /** A package declares exactly what the entries of its four blocks stand for, each with the
      kind of its block and the protocol of its specifier. */
  lemma PackageDepsExactly(style: Style, rel: Text, pkg: Package, d: Dep)
    ensures d in PackageDeps(style, rel, pkg) <==> InBlock(style, rel, BlockOf(pkg, d.kind), d.kind, d)
  {
    var deps := SectionsDeps(style, rel, Sections(pkg));
    AllEntries(style, rel, pkg, d);
    AddAllMembers(style, deps, d);
    if d in deps {
      var own := PackageDeps(style, rel, pkg);
      var i :| 0 <= i < |own| && SameKey(style, own[i], d);
      AddAllMembers(style, deps, own[i]);
      AllEntries(style, rel, pkg, own[i]);
      SameKeySameEntry(style, rel, pkg, own[i], d);
    }
  }

  /** Some named manifest of package `from` declares `d`. */
  ghost predicate Declares(style: Style, manifests: Manifests, dirs: seq<Text>, from: Text, d: Dep) {
    exists rel :: rel in dirs && DeclaredAt(style, manifests, rel, from, d)
  }

  ghost predicate DeclaredAt(style: Style, manifests: Manifests, rel: Text, from: Text, d: Dep) {
    var pkg := Named(manifests, rel);
    pkg.Some? && pkg.value.name == Some(from) && d in PackageDeps(style, rel, pkg.value)
  }

  /** Every entry of a named manifest is declared. */
  lemma EntryDeclared(
      style: Style, manifests: Manifests, dirs: seq<Text>, rel: Text, pkg: Package, kind: Kind, block: Block,
      name: Text)
    requires rel in dirs && Named(manifests, rel) == Some(pkg) && BlockOf(pkg, kind) == Some(block) && name in block
    ensures Declares(style, manifests, dirs, pkg.name.value, DepOf(style, rel, kind, name, block[name]))
  {
    var d := DepOf(style, rel, kind, name, block[name]);
    assert IsEntry(style, rel, block, kind, name, d);
    PackageDepsExactly(style, rel, pkg, d);
    assert DeclaredAt(style, manifests, rel, pkg.name.value, d);
  }

  ghost predicate IsPackageName(manifests: Manifests, dirs: seq<Text>, name: Text) {
    exists rel :: rel in dirs && HasName(manifests, rel, name)
  }

  ghost predicate HasName(manifests: Manifests, rel: Text, name: Text) {
    Named(manifests, rel).Some? && Named(manifests, rel).value.name == Some(name)
  }

  lemma {:induction false} ScanPaths(manifests: Manifests, dirs: seq<Text>, name: Text)
    ensures name in PathsOf(manifests, dirs) <==> IsPackageName(manifests, dirs, name)
    ensures [] !in PathsOf(manifests, dirs)
  {
    if dirs == [] {
    } else {
      var front, last := dirs[..|dirs| - 1], dirs[|dirs| - 1];
      ScanPaths(manifests, front, name);
      assert forall rel :: rel in dirs <==> rel in front || rel == last;
      assert IsPackageName(manifests, dirs, name) <==>
             IsPackageName(manifests, front, name) || HasName(manifests, last, name);
    }
  }

  lemma {:induction false} ScanAdjacency(style: Style, manifests: Manifests, dirs: seq<Text>, from: Text, d: Dep)
    ensures d in DepsOf(AdjacencyOf(style, manifests, dirs), from) <==> Declares(style, manifests, dirs, from, d)
  {
    if dirs == [] {
    } else {
      var front, last := dirs[..|dirs| - 1], dirs[|dirs| - 1];
      ScanAdjacency(style, manifests, front, from, d);
      assert forall rel :: rel in dirs <==> rel in front || rel == last;
      assert Declares(style, manifests, dirs, from, d) <==>
             Declares(style, manifests, front, from, d) || DeclaredAt(style, manifests, last, from, d);
    }
  }

  /** The scan knows exactly the named packages, and exactly what they declare. */
  lemma ScanContents(style: Style, manifests: Manifests, dirs: seq<Text>)
    ensures var scan := ScanAll(style, manifests, dirs);
            && [] !in scan.paths
            && (forall name :: name in scan.paths <==> IsPackageName(manifests, dirs, name))
            && (forall from, d :: d in DepsOf(scan.adjacency, from) <==> Declares(style, manifests, dirs, from, d))
  {
    ScanPaths(manifests, dirs, []);
    forall name ensures name in PathsOf(manifests, dirs) <==> IsPackageName(manifests, dirs, name) {
      ScanPaths(manifests, dirs, name);
    }
    forall from, d
      ensures d in DepsOf(AdjacencyOf(style, manifests, dirs), from) <==> Declares(style, manifests, dirs, from, d)
    {
      ScanAdjacency(style, manifests, dirs, from, d);
    }
  }

  /** Directory `i` is the last of a list that holds a package of the given name. */
  ghost predicate IsLastOf(manifests: Manifests, dirs: seq<Text>, i: nat, name: Text) {
    && i < |dirs| && HasName(manifests, dirs[i], name)
    && forall j :: i < j < |dirs| ==> !HasName(manifests, dirs[j], name)
  }

  /** Of several directories with one package name the last one scanned gives its path. */
  lemma {:induction false} LastDirectoryWins(manifests: Manifests, dirs: seq<Text>, i: nat, name: Text)
    requires IsLastOf(manifests, dirs, i, name)
    ensures name in PathsOf(manifests, dirs) && PathsOf(manifests, dirs)[name] == DirectoryOf(dirs[i])
  {
    if i == |dirs| - 1 {
    } else {
      LastDirectoryWins(manifests, dirs[..|dirs| - 1], i, name);
      assert !HasName(manifests, dirs[|dirs| - 1], name);
    }
  }

  /** The graph both builders compute for some list of directories. */
  ghost function GraphFor(sha: Hash, style: Style, manifests: Manifests, dirs: seq<Text>): Graph {
    GraphOf(sha, ScanAll(style, manifests, Sort(Leq, dirs)))
  }

  lemma SortedDirs(dirs: seq<Text>)
    ensures forall rel :: rel in Sort(Leq, dirs) <==> rel in dirs
  {
    SortMembers(Leq, dirs);
  }

  lemma SortEdgesContents(edges: seq<Edge>)
    requires DistinctIds(edges)
    ensures AscendingIds(Sort(IdLeq, edges))
    ensures forall e :: e in Sort(IdLeq, edges) <==> e in edges
  {
    SortKeepsDistinct(edges);
    IdLeqIsPreorder();
    SortSorts(IdLeq, edges);
    var sorted := Sort(IdLeq, edges);
    forall i, j | 0 <= i < j < |sorted| ensures Less(Ids(sorted)[i], Ids(sorted)[j]) {
      assert IdLeq(sorted[i], sorted[j]);
    }
  }

  /** Where an edge of the graph comes from: the first candidate with its id, which also
      gives its metadata. */
  lemma EdgeOrigin(sha: Hash, scan: Scan, e: Edge) returns (i: nat)
    requires e in GraphOf(sha, scan).edges
    ensures var cs := Candidates(scan.paths.Keys, scan.adjacency, SortSet(scan.paths.Keys));
            Origin(sha, cs, i, e, GraphOf(sha, scan).edgeMetadata)
  {
    var cs := Candidates(scan.paths.Keys, scan.adjacency, SortSet(scan.paths.Keys));
    FirstWinsContents(sha, cs);
    SortEdgesContents(FirstWins(sha, cs).edges);
    assert e in FirstWins(sha, cs).edges;
    i :| Origin(sha, cs, i, e, FirstWins(sha, cs).metadata);
  }

  /** The workspace has a package `to` that a manifest of `from` declares. */
  ghost predicate IsInternal(style: Style, manifests: Manifests, dirs: seq<Text>, from: Text, to: Text) {
    IsPackageName(manifests, dirs, to) && exists d: Dep :: d.target == to && Declares(style, manifests, dirs, from, d)
  }

  lemma SortedInternal(style: Style, manifests: Manifests, dirs: seq<Text>, from: Text, to: Text)
    ensures IsInternal(style, manifests, Sort(Leq, dirs), from, to) <==> IsInternal(style, manifests, dirs, from, to)
  {
    SortedDirs(dirs);
    var sorted := Sort(Leq, dirs);
    forall name ensures IsPackageName(manifests, sorted, name) <==> IsPackageName(manifests, dirs, name) {
    }
    forall d ensures Declares(style, manifests, sorted, from, d) <==> Declares(style, manifests, dirs, from, d) {
    }
  }

  lemma EdgeIsInternal(sha: Hash, style: Style, manifests: Manifests, dirs: seq<Text>, e: Edge)
    requires e in GraphFor(sha, style, manifests, dirs).edges
    ensures IsPackageName(manifests, dirs, e.from) && IsInternal(style, manifests, dirs, e.from, e.to)
    ensures e.id == EdgeId(sha, e.from, e.to, DEFAULT_EDGE_TYPE)
  {
    var sorted := Sort(Leq, dirs);
    var scan := ScanAll(style, manifests, sorted);
    var cs := Candidates(scan.paths.Keys, scan.adjacency, SortSet(scan.paths.Keys));
    var i := EdgeOrigin(sha, scan, e);
    assert cs[i] in cs;
    CandidateMembers(scan.paths.Keys, scan.adjacency, SortSet(scan.paths.Keys), cs[i]);
    ScanPaths(manifests, sorted, e.from);
    ScanPaths(manifests, sorted, e.to);
    ScanAdjacency(style, manifests, sorted, e.from, cs[i].dep);
    SortedInternal(style, manifests, dirs, e.from, e.to);
    SortedDirs(dirs);
  }

  lemma InternalIsKept(sha: Hash, style: Style, manifests: Manifests, dirs: seq<Text>, from: Text, to: Text)
    requires IsInternal(style, manifests, dirs, from, to)
    ensures EdgeId(sha, from, to, DEFAULT_EDGE_TYPE) in Ids(GraphFor(sha, style, manifests, dirs).edges)
  {
    var sorted := Sort(Leq, dirs);
    SortedInternal(style, manifests, dirs, from, to);
    var d: Dep :| d.target == to && Declares(style, manifests, sorted, from, d);
    var rel :| rel in sorted && DeclaredAt(style, manifests, rel, from, d);
    assert HasName(manifests, rel, from);
    ScanPaths(manifests, sorted, from);
    ScanPaths(manifests, sorted, to);
    ScanAdjacency(style, manifests, sorted, from, d);
    DeclarationKept(sha, ScanAll(style, manifests, sorted), from, d);
  }

  /** Every edge joins two packages of the workspace, the first of which declares the second;
      and every such declaration has its edge id in the graph. */
  lemma EdgesAreDeclarations(sha: Hash, style: Style, manifests: Manifests, dirs: seq<Text>)
    ensures var edges := GraphFor(sha, style, manifests, dirs).edges;
            && (forall e <- edges ::
                  IsPackageName(manifests, dirs, e.from) && IsInternal(style, manifests, dirs, e.from, e.to))
            && (forall from, to | IsInternal(style, manifests, dirs, from, to) ::
                  EdgeId(sha, from, to, DEFAULT_EDGE_TYPE) in Ids(edges))
  {
    forall e | e in GraphFor(sha, style, manifests, dirs).edges
      ensures IsPackageName(manifests, dirs, e.from) && IsInternal(style, manifests, dirs, e.from, e.to)
    {
      EdgeIsInternal(sha, style, manifests, dirs, e);
    }
    forall from, to | IsInternal(style, manifests, dirs, from, to)
      ensures EdgeId(sha, from, to, DEFAULT_EDGE_TYPE) in Ids(GraphFor(sha, style, manifests, dirs).edges)
    {
      InternalIsKept(sha, style, manifests, dirs, from, to);
    }
  }

  /** No two internal dependencies share a truncated edge id. */
  ghost predicate IdsSeparate(sha: Hash, style: Style, manifests: Manifests, dirs: seq<Text>) {
    forall f, t, f', t' |
      && IsInternal(style, manifests, dirs, f, t) && IsInternal(style, manifests, dirs, f', t')
      && EdgeId(sha, f, t, DEFAULT_EDGE_TYPE) == EdgeId(sha, f', t', DEFAULT_EDGE_TYPE) :: f == f' && t == t'
  }

  ghost predicate EdgesComplete(sha: Hash, style: Style, manifests: Manifests, dirs: seq<Text>) {
    forall from, to :: IsInternal(style, manifests, dirs, from, to) <==>
                       HasEdge(GraphFor(sha, style, manifests, dirs).edges, from, to)
  }

  /** The edges are exactly the internal dependencies if and only if no two of those share a
      truncated id. */
  lemma EdgesCompleteIffSeparate(sha: Hash, style: Style, manifests: Manifests, dirs: seq<Text>)
    ensures EdgesComplete(sha, style, manifests, dirs) <==> IdsSeparate(sha, style, manifests, dirs)
  {
    if IdsSeparate(sha, style, manifests, dirs) {
      SeparateComplete(sha, style, manifests, dirs);
    }
    if EdgesComplete(sha, style, manifests, dirs) {
      CompleteSeparate(sha, style, manifests, dirs);
    }
  }

  lemma SeparateComplete(sha: Hash, style: Style, manifests: Manifests, dirs: seq<Text>)
    requires IdsSeparate(sha, style, manifests, dirs)
    ensures EdgesComplete(sha, style, manifests, dirs)
  {
    var edges := GraphFor(sha, style, manifests, dirs).edges;
    forall from, to ensures IsInternal(style, manifests, dirs, from, to) <==> HasEdge(edges, from, to) {
      if HasEdge(edges, from, to) {
        var i :| 0 <= i < |edges| && edges[i].from == from && edges[i].to == to;
        EdgeIsInternal(sha, style, manifests, dirs, edges[i]);
      }
      if IsInternal(style, manifests, dirs, from, to) {
        InternalIsKept(sha, style, manifests, dirs, from, to);
        IdsMembers(edges);
        var e :| e in edges && e.id == EdgeId(sha, from, to, DEFAULT_EDGE_TYPE);
        EdgeIsInternal(sha, style, manifests, dirs, e);
      }
    }
  }

  lemma CompleteSeparate(sha: Hash, style: Style, manifests: Manifests, dirs: seq<Text>)
    requires EdgesComplete(sha, style, manifests, dirs)
    ensures IdsSeparate(sha, style, manifests, dirs)
  {
    var edges := GraphFor(sha, style, manifests, dirs).edges;
    var scan := ScanAll(style, manifests, Sort(Leq, dirs));
    var cs := Candidates(scan.paths.Keys, scan.adjacency, SortSet(scan.paths.Keys));
    FirstWinsContents(sha, cs);
    SortEdgesContents(FirstWins(sha, cs).edges);
    forall f, t, f', t' |
      && IsInternal(style, manifests, dirs, f, t) && IsInternal(style, manifests, dirs, f', t')
      && EdgeId(sha, f, t, DEFAULT_EDGE_TYPE) == EdgeId(sha, f', t', DEFAULT_EDGE_TYPE)
      ensures f == f' && t == t'
    {
      var i :| 0 <= i < |edges| && edges[i].from == f && edges[i].to == t;
      var j :| 0 <= j < |edges| && edges[j].from == f' && edges[j].to == t';
      EdgeIsInternal(sha, style, manifests, dirs, edges[i]);
      EdgeIsInternal(sha, style, manifests, dirs, edges[j]);
      SameIdSameEdge(edges, edges[i], edges[j]);
    }
  }

  /** Two packages that depend on each other, each in a directory of its name. */
  function Mutual(a: Text, b: Text, spec: Specifier): Manifests {
    map[a := Parsed(Package(Some(a), Some(map[b := spec]), None, None, None)),
        b := Parsed(Package(Some(b), Some(map[a := spec]), None, None, None))]
  }

  lemma DependsOn(manifests: Manifests, dirs: seq<Text>, a: Text, b: Text, spec: Specifier)
    requires a in dirs && b in dirs && HasName(manifests, b, b)
    requires Named(manifests, a) == Some(Package(Some(a), Some(map[b := spec]), None, None, None))
    ensures IsInternal(Pnpm, manifests, dirs, a, b)
  {
    var pkg, block := Package(Some(a), Some(map[b := spec]), None, None, None), map[b := spec];
    EntryDeclared(Pnpm, manifests, dirs, a, pkg, Dependency, block, b);
    assert DepOf(Pnpm, a, Dependency, b, spec).target == b;
    assert IsPackageName(manifests, dirs, b);
  }

  lemma CollisionLoses(
      sha: Hash, manifests: Manifests, dirs: seq<Text>, from: Text, to: Text, from': Text, to': Text)
    requires IsInternal(Pnpm, manifests, dirs, from, to) && IsInternal(Pnpm, manifests, dirs, from', to')
    requires EdgeId(sha, from, to, DEFAULT_EDGE_TYPE) == EdgeId(sha, from', to', DEFAULT_EDGE_TYPE)
    requires from != from' || to != to'
    ensures !EdgesComplete(sha, Pnpm, manifests, dirs)
  {
    EdgesCompleteIffSeparate(sha, Pnpm, manifests, dirs);
  }

  /** An input where edges are lost: with a hash that tells no two texts apart the two
      dependencies get one edge. */
  lemma ConstantHashLoses(digest: Text, a: Text, b: Text, spec: Specifier)
    requires a != [] && b != [] && a != b
    ensures !EdgesComplete(_ => digest, Pnpm, Mutual(a, b, spec), [a, b])
  {
    var manifests, dirs := Mutual(a, b, spec), [a, b];
    assert dirs[0] == a && dirs[1] == b;
    DependsOn(manifests, dirs, a, b, spec);
    DependsOn(manifests, dirs, b, a, spec);
    CollisionLoses(_ => digest, manifests, dirs, a, b, b, a);
  }

  lemma DeclarationKept(sha: Hash, scan: Scan, from: Text, d: Dep)
    requires from in scan.paths && d.target in scan.paths && d in DepsOf(scan.adjacency, from)
    ensures EdgeId(sha, from, d.target, DEFAULT_EDGE_TYPE) in Ids(GraphOf(sha, scan).edges)
  {
    var names := scan.paths.Keys;
    var cs := Candidates(names, scan.adjacency, SortSet(names));
    CandidateMembers(names, scan.adjacency, SortSet(names), Candidate(from, d));
    var i :| 0 <= i < |cs| && cs[i] == Candidate(from, d);
    FirstWinsContents(sha, cs);
    var built := FirstWins(sha, cs);
    assert CandidateId(sha, cs[i]) in Ids(built.edges);
    SortEdgesContents(built.edges);
    IdsMembers(built.edges);
    IdsMembers(Sort(IdLeq, built.edges));
  }

  /** Dependency `k` of a list is the one an edge to `to` takes its metadata from: no other to the
      same package has a lesser kind, and none before it has the same. */
  ghost predicate IsFirstLeast(deps: seq<Dep>, to: Text, k: nat) {
    && k < |deps| && deps[k].target == to
    && (forall j :: 0 <= j < |deps| && deps[j].target == to ==> Leq(KindText(deps[k].kind), KindText(deps[j].kind)))
    && (forall j :: 0 <= j < k && deps[j].target == to ==> deps[j].kind != deps[k].kind)
  }

  /** An edge's metadata is that of the alphabetically least kind under which the dependency
      is declared, so `optionalDependency` wins over `peerDependency`; of several declarations
      of that kind, in different directories, it is that of the first scanned. */
  lemma LeastKindWins(sha: Hash, scan: Scan, e: Edge) returns (k: nat)
    requires e in GraphOf(sha, scan).edges
    ensures var deps, metadata := DepsOf(scan.adjacency, e.from), GraphOf(sha, scan).edgeMetadata;
            && IsFirstLeast(deps, e.to, k)
            && e.id in metadata && metadata[e.id] == Metadata(deps[k].kind, deps[k].protocol)
  {
    var names := scan.paths.Keys;
    var cs, deps := Candidates(names, scan.adjacency, SortSet(names)), DepsOf(scan.adjacency, e.from);
    var i := EdgeOrigin(sha, scan, e);
    assert cs[i] in cs;
    CandidateMembers(names, scan.adjacency, SortSet(names), cs[i]);
    k := FirstDeclared(sha, names, scan.adjacency, i);
    forall j | 0 <= j < |deps| && deps[j].target == e.to ensures Leq(KindText(deps[k].kind), KindText(deps[j].kind)) {
      LeastDeclared(sha, names, scan.adjacency, i, deps[j]);
    }
  }

  /** The first candidate with its id comes from the first declaration of its target and kind:
      sorting the declarations is stable. */
  lemma FirstDeclared(sha: Hash, names: set<Text>, adjacency: map<Text, seq<Dep>>, i: nat) returns (k: nat)
    requires FirstWithId(sha, Candidates(names, adjacency, SortSet(names)), i)
    requires Candidates(names, adjacency, SortSet(names))[i].from in names
    requires Candidates(names, adjacency, SortSet(names))[i].dep.target in names
    ensures var c := Candidates(names, adjacency, SortSet(names))[i];
            var deps := DepsOf(adjacency, c.from);
            && k < |deps| && deps[k] == c.dep
            && forall j :: 0 <= j < k && deps[j].target == c.dep.target ==> deps[j].kind != c.dep.kind
  {
    var cs := Candidates(names, adjacency, SortSet(names));
    var c := cs[i];
    var deps := DepsOf(adjacency, c.from);
    FirstCandidateLeads(sha, cs, i);
    SortSetAscending(names);
    EqualCandidates(names, adjacency, SortSet(names), c.from, c.dep);
    DepLeqIsPreorder();
    SortStable(DepLeq, c.dep, Internal(names, deps));
    EqualInternal(names, deps, c.dep);
    k := LeadIsFirstEqual(DepLeq, c.dep, deps);
    forall j | 0 <= j < |deps|
      ensures DepLeq(c.dep, deps[j]) && DepLeq(deps[j], c.dep) <==>
              deps[j].target == c.dep.target && deps[j].kind == c.dep.kind
    {
      EqualDeps(c.dep, deps[j]);
    }
  }

  lemma EqualDeps(d: Dep, e: Dep)
    ensures DepLeq(d, e) && DepLeq(e, d) <==> e.target == d.target && e.kind == d.kind
  {
    LeqIsTotalOrder();
    if KindText(d.kind) == KindText(e.kind) {
      KindTextInjective(d.kind, e.kind);
    }
  }

  lemma EqualCandidate(c: Candidate, c': Candidate)
    ensures CandidateLeq(c, c') && CandidateLeq(c', c) <==>
            c'.from == c.from && c'.dep.target == c.dep.target && c'.dep.kind == c.dep.kind
  {
    LeqIsTotalOrder();
    EqualDeps(c.dep, c'.dep);
  }

  lemma FirstCandidateLeads(sha: Hash, cs: seq<Candidate>, i: nat)
    requires FirstWithId(sha, cs, i)
    ensures Equals(CandidateLeq, cs[i], cs) != [] && Equals(CandidateLeq, cs[i], cs)[0] == cs[i]
  {
    forall j | 0 <= j <= i ensures CandidateLeq(cs[i], cs[j]) && CandidateLeq(cs[j], cs[i]) ==> j == i {
      EqualCandidate(cs[i], cs[j]);
    }
    EqualCandidate(cs[i], cs[i]);
    FirstEqualLeads(CandidateLeq, cs[i], cs, i);
  }

  lemma {:induction false} EqualFrom(from: Text, list: seq<Dep>, c: Candidate)
    ensures Equals(CandidateLeq, c, From(from, list)) ==
            if c.from == from then From(from, Equals(DepLeq, c.dep, list)) else []
  {
    if list == [] {
    } else {
      EqualFrom(from, list[1..], c);
      EqualCandidate(c, Candidate(from, list[0]));
      EqualDeps(c.dep, list[0]);
      EqualsCons(CandidateLeq, c, Candidate(from, list[0]), From(from, list[1..]));
    }
  }

  lemma {:induction false} OtherCandidates(
      names: set<Text>, adjacency: map<Text, seq<Dep>>, order: seq<Text>, from: Text, d: Dep)
    requires from !in order
    ensures Equals(CandidateLeq, Candidate(from, d), Candidates(names, adjacency, order)) == []
  {
    if order == [] {
    } else {
      var front, last := order[..|order| - 1], order[|order| - 1];
      OtherCandidates(names, adjacency, front, from, d);
      var list := Kept(names, DepsOf(adjacency, last));
      EqualFrom(last, list, Candidate(from, d));
      EqualsConcat(CandidateLeq, Candidate(from, d), Candidates(names, adjacency, front), From(last, list));
    }
  }

  /** The candidates like one of package `from` are its kept dependencies like it. */
  lemma {:induction false} EqualCandidates(
      names: set<Text>, adjacency: map<Text, seq<Dep>>, order: seq<Text>, from: Text, d: Dep)
    requires Ascending(order) && from in order
    ensures Equals(CandidateLeq, Candidate(from, d), Candidates(names, adjacency, order)) ==
            From(from, Equals(DepLeq, d, Kept(names, DepsOf(adjacency, from))))
  {
    var front, last := order[..|order| - 1], order[|order| - 1];
    var list := Kept(names, DepsOf(adjacency, last));
    EqualFrom(last, list, Candidate(from, d));
    EqualsConcat(CandidateLeq, Candidate(from, d), Candidates(names, adjacency, front), From(last, list));
    if last == from {
      assert forall i :: 0 <= i < |front| ==> Less(order[i], last);
      OtherCandidates(names, adjacency, front, from, d);
    } else {
      EqualCandidates(names, adjacency, front, from, d);
    }
  }

  lemma {:induction false} EqualInternal(names: set<Text>, deps: seq<Dep>, d: Dep)
    requires d.target in names
    ensures Equals(DepLeq, d, Internal(names, deps)) == Equals(DepLeq, d, deps)
  {
    if deps == [] {
    } else {
      EqualInternal(names, deps[1..], d);
      EqualDeps(d, deps[0]);
      EqualsConcat(DepLeq, d, if deps[0].target in names then [deps[0]] else [], Internal(names, deps[1..]));
    }
  }

  lemma LeastDeclared(sha: Hash, names: set<Text>, adjacency: map<Text, seq<Dep>>, i: nat, d: Dep)
    requires FirstWithId(sha, Candidates(names, adjacency, SortSet(names)), i)
    requires var c := Candidates(names, adjacency, SortSet(names))[i];
             c.from in names && d in DepsOf(adjacency, c.from) && d.target == c.dep.target && d.target in names
    ensures Leq(KindText(Candidates(names, adjacency, SortSet(names))[i].dep.kind), KindText(d.kind))
  {
    var cs := Candidates(names, adjacency, SortSet(names));
    SortSetAscending(names);
    CandidatesSorted(names, adjacency, SortSet(names));
    CandidateMembers(names, adjacency, SortSet(names), Candidate(cs[i].from, d));
    FirstIsLeast(sha, cs, i, Candidate(cs[i].from, d));
  }

  lemma FirstIsLeast(sha: Hash, cs: seq<Candidate>, i: nat, c: Candidate)
    requires Sorted(CandidateLeq, cs) && FirstWithId(sha, cs, i) && c in cs
    requires c.from == cs[i].from && c.dep.target == cs[i].dep.target
    ensures Leq(KindText(cs[i].dep.kind), KindText(c.dep.kind))
  {
    var j :| 0 <= j < |cs| && cs[j] == c;
    assert CandidateId(sha, cs[j]) == CandidateId(sha, cs[i]);
    LeqTotal(KindText(c.dep.kind), KindText(c.dep.kind));
    assert i < j ==> CandidateLeq(cs[i], cs[j]);
  }

  // -------------------------------------------------------------------- round trip

  lemma EdgeWellFormed(sha: Hash, scan: Scan, e: Edge)
    requires e in GraphOf(sha, scan).edges
    ensures e.from in scan.paths && e.to in scan.paths
    ensures e.edgeType == DEFAULT_EDGE_TYPE && e.id == EdgeId(sha, e.from, e.to, e.edgeType)
  {
    var names := scan.paths.Keys;
    var cs := Candidates(names, scan.adjacency, SortSet(names));
    var i := EdgeOrigin(sha, scan, e);
    assert cs[i] in cs;
    CandidateMembers(names, scan.adjacency, SortSet(names), cs[i]);
  }

  lemma GraphWellFormed(sha: Hash, scan: Scan)
    requires [] !in scan.paths
    ensures WellFormedGraph(sha, scan.paths.Keys, GraphOf(sha, scan).nodes, GraphOf(sha, scan).edges)
  {
    var g := GraphOf(sha, scan);
    var names := scan.paths.Keys;
    var cs := Candidates(names, scan.adjacency, SortSet(names));
    assert names - {[]} == names;
    assert |DEFAULT_EDGE_TYPE| == 20;
    FirstWinsContents(sha, cs);
    SortEdgesContents(FirstWins(sha, cs).edges);
    forall e | e in g.edges
      ensures e.from in names && e.to in names && e.edgeType == DEFAULT_EDGE_TYPE &&
              e.id == EdgeId(sha, e.from, e.to, e.edgeType)
    {
      EdgeWellFormed(sha, scan, e);
    }
  }

  /** The graph round trip: projecting a built package graph to its adjacency map and
      rebuilding the canonical topology gives back its nodes, its edges and its hash. */
  lemma PackageGraphRoundTrip(
      sha: Hash, style: Style, manifests: Manifests, dirs: seq<Text>, adj: Adjacency, raws: seq<RawEdge>)
    requires var g := GraphFor(sha, style, manifests, dirs); Projects(g.nodes, g.edges, adj)
    requires ListsEdges(adj, raws)
    ensures var g := GraphFor(sha, style, manifests, dirs);
            Canonical(sha, AdjacencyNodes(adj), raws) == Topology(SURFACE_VERSION, g.hash, g.nodes, g.edges)
  {
    var scan := ScanAll(style, manifests, Sort(Leq, dirs));
    ScanContents(style, manifests, Sort(Leq, dirs));
    GraphWellFormed(sha, scan);
    var g := GraphOf(sha, scan);
    ProjectionRoundTrip(sha, scan.paths.Keys, g.nodes, g.edges, adj, raws);
  }
}
