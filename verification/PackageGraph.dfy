/** The workspace package graph: the one-pass pnpm builder and the two-pass yarn builder. */
module PackageGraph {
  import opened CanonicalTopology
  import opened GraphSurface
  import opened Results
  import opened Sorting
  import opened Texts

  // --------------------------------------------------------------------- manifests

  /** The value of one dependency entry: a specifier, or something that is not a string. */
  datatype Specifier = SpecText(s: Text) | SpecOther

  type Block = map<Text, Specifier>

  datatype Package = Package(
    name: Option<Text>, dependencies: Option<Block>, devDependencies: Option<Block>,
    peerDependencies: Option<Block>, optionalDependencies: Option<Block>)

  datatype Manifest = Unparsable | Parsed(pkg: Package)

  /** The manifests that exist, by directory. */
  type Manifests = map<Text, Manifest>

  datatype Kind = Dependency | DevDependency | PeerDependency | OptionalDependency

  function KindText(k: Kind): Text {
    match k
    case Dependency => Ascii("dependency")
    case DevDependency => Ascii("devDependency")
    case PeerDependency => Ascii("peerDependency")
    case OptionalDependency => Ascii("optionalDependency")
  }

  datatype Protocol = Workspace | Catalog | Portal | Link | Semver

  function ProtocolText(p: Protocol): Text {
    match p
    case Workspace => Ascii("workspace")
    case Catalog => Ascii("catalog")
    case Portal => Ascii("portal")
    case Link => Ascii("link")
    case Semver => Ascii("semver")
  }

  function PnpmProtocol(spec: Specifier): Protocol {
    if spec.SpecOther? then Semver
    else if Ascii("workspace:") <= spec.s then Workspace
    else if Ascii("catalog:") <= spec.s then Catalog
    else Semver
  }

  function YarnProtocol(spec: Specifier): Protocol {
    if spec.SpecOther? then Semver
    else if Ascii("workspace:") <= spec.s then Workspace
    else if Ascii("portal:") <= spec.s then Portal
    else if Ascii("link:") <= spec.s then Link
    else Semver
  }

  /** The path of a `portal:` or `link:` specifier. */
  function LocalPath(spec: Specifier): Option<Text> {
    match YarnProtocol(spec)
    case Portal => Some(spec.s[|Ascii("portal:")|..])
    case Link => Some(spec.s[|Ascii("link:")|..])
    case _ => None
  }

  /** How the yarn builder finds the package a local path leads to. `join` joins two paths and
      normalises the result; `known` has the name of the package in each directory. */
  datatype Locals = Locals(join: (Text, Text) -> Text, known: map<Text, Text>)

  function DirectoryOf(rel: Text): Text {
    if rel == [] then Ascii(".") else rel
  }

  function ResolveLocalPath(join: (Text, Text) -> Text, fromRel: Text, target: Text): Text {
    StripHere(join(DirectoryOf(fromRel), StripHere(Trim(target))))
  }

  function StripSlashes(rel: Text): Text {
    if rel != [] && rel[|rel| - 1] == SLASH then StripSlashes(rel[..|rel| - 1]) else rel
  }

  function NormaliseRel(rel: Text): Text {
    if rel == [] || rel == Ascii(".") then Ascii(".") else StripSlashes(rel)
  }

  /** The two builders. They differ in how they classify specifiers, resolve targets and spell
      keys, and in the number of their passes. */
  datatype Style = Pnpm | Yarn(locals: Locals)

  function ProtocolOf(style: Style, spec: Specifier): Protocol {
    match style
    case Pnpm => PnpmProtocol(spec)
    case Yarn(_) => YarnProtocol(spec)
  }

  /** The package an entry of a manifest in directory `rel` stands for: its name, unless it has
      a local path that leads to another package of the workspace. */
  function TargetOf(style: Style, rel: Text, name: Text, spec: Specifier): Text {
    if style.Pnpm? || LocalPath(spec).None? then name
    else
      var at := NormaliseRel(ResolveLocalPath(style.locals.join, rel, LocalPath(spec).value));
      if at in style.locals.known then style.locals.known[at] else name
  }

  /** A dependency block and the kind its entries have. */
  datatype Section = Section(block: Option<Block>, kind: Kind)

  /** The four blocks in the order they are read. */
  function Sections(pkg: Package): seq<Section> {
    [Section(pkg.dependencies, Dependency), Section(pkg.devDependencies, DevDependency),
     Section(pkg.peerDependencies, PeerDependency), Section(pkg.optionalDependencies, OptionalDependency)]
  }

  // -------------------------------------------------------- what a package declares

  datatype Dep = Dep(target: Text, kind: Kind, protocol: Protocol)

  function DepOf(style: Style, rel: Text, kind: Kind, name: Text, spec: Specifier): Dep {
    Dep(TargetOf(style, rel, name, spec), kind, ProtocolOf(style, spec))
  }

  /** The entries of a block under the first `n` of the given names, in that order. */
  function Entries(style: Style, rel: Text, block: Block, kind: Kind, names: seq<Text>, n: nat): (deps: seq<Dep>)
    requires n <= |names| && forall i :: 0 <= i < |names| ==> names[i] in block
    ensures |deps| == n
    ensures forall i :: 0 <= i < n ==> deps[i] == DepOf(style, rel, kind, names[i], block[names[i]])
  {
    if n == 0 then []
    else
      var last := names[n - 1];
      Entries(style, rel, block, kind, names, n - 1) + [DepOf(style, rel, kind, last, block[last])]
  }

  /** All entries of a block, by name. */
  ghost function BlockDeps(style: Style, rel: Text, block: Block, kind: Kind): seq<Dep> {
    Entries(style, rel, block, kind, SortSet(block.Keys), |SortSet(block.Keys)|)
  }

  ghost function SectionDeps(style: Style, rel: Text, section: Section): seq<Dep> {
    match section.block
    case None => []
    case Some(block) => BlockDeps(style, rel, block, section.kind)
  }

  ghost function Lists(style: Style, rel: Text, sections: seq<Section>): (lists: seq<seq<Dep>>)
    ensures |lists| == |sections|
    ensures forall i :: 0 <= i < |sections| ==> lists[i] == SectionDeps(style, rel, sections[i])
  {
    seq(|sections|, i requires 0 <= i < |sections| => SectionDeps(style, rel, sections[i]))
  }

  /** The first `n` lists, one after the other. */
  ghost function Flatten(lists: seq<seq<Dep>>, n: nat): seq<Dep>
    requires n <= |lists|
  {
    if n == 0 then [] else Flatten(lists, n - 1) + lists[n - 1]
  }

  /** All entries of a list of sections. */
  ghost function SectionsDeps(style: Style, rel: Text, sections: seq<Section>): seq<Dep> {
    Flatten(Lists(style, rel, sections), |sections|)
  }

  // ------------------------------------------------------------ the duplicate keys

  /** How a builder spells the key of an entry it has seen. */
  function KeyText(style: Style, d: Dep): Text {
    match style
    case Pnpm => KindText(d.kind) + [BAR] + d.target
    case Yarn(_) => KindText(d.kind) + [BAR] + (d.target + [BAR] + ProtocolText(d.protocol))
  }

  /** Two entries a builder takes for one. */
  predicate SameKey(style: Style, d: Dep, e: Dep) {
    d.kind == e.kind && d.target == e.target && (style.Pnpm? || d.protocol == e.protocol)
  }

  lemma KindTextInjective(k: Kind, l: Kind)
    requires KindText(k) == KindText(l)
    ensures k == l
  {
    assert |KindText(k)| == |KindText(l)|;
    assert |KindText(Dependency)| == 10 && |KindText(DevDependency)| == 13;
    assert |KindText(PeerDependency)| == 14 && |KindText(OptionalDependency)| == 18;
  }

  lemma ProtocolTextInjective(p: Protocol, q: Protocol)
    requires ProtocolText(p) == ProtocolText(q)
    ensures p == q
  {
    assert |ProtocolText(p)| == |ProtocolText(q)|;
    assert |ProtocolText(Workspace)| == 9 && |ProtocolText(Catalog)| == 7 && |ProtocolText(Link)| == 4;
    assert |ProtocolText(Portal)| == 6 && |ProtocolText(Semver)| == 6;
    assert ProtocolText(Portal)[0] != ProtocolText(Semver)[0];
  }

  lemma KindBarFree(k: Kind)
    ensures BAR !in KindText(k)
  {
  }

  lemma ProtocolBarFree(p: Protocol)
    ensures BAR !in ProtocolText(p)
  {
  }

  /** The joined keys are equal exactly for entries of one kind and target (and, for yarn, one
      protocol), whatever bars the names have in them. */
  lemma KeysSeparate(style: Style, d: Dep, e: Dep)
    ensures KeyText(style, d) == KeyText(style, e) <==> SameKey(style, d, e)
  {
    if KeyText(style, d) == KeyText(style, e) {
      KindBarFree(d.kind);
      KindBarFree(e.kind);
      match style
      case Pnpm =>
        SeparatorTellsApart(BAR, KindText(d.kind), KindText(e.kind), d.target, e.target);
      case Yarn(_) =>
        var x, y := d.target + [BAR] + ProtocolText(d.protocol), e.target + [BAR] + ProtocolText(e.protocol);
        SeparatorTellsApart(BAR, KindText(d.kind), KindText(e.kind), x, y);
        ProtocolBarFree(d.protocol);
        ProtocolBarFree(e.protocol);
        SeparatorTellsApart(BAR, d.target, e.target, ProtocolText(d.protocol), ProtocolText(e.protocol));
        ProtocolTextInjective(d.protocol, e.protocol);
      KindTextInjective(d.kind, e.kind);
    }
  }

  ghost predicate Holds(style: Style, deps: seq<Dep>, d: Dep) {
    exists i :: 0 <= i < |deps| && SameKey(style, deps[i], d)
  }

  /** An entry is appended unless one with its key is there. */
  ghost function AddNew(style: Style, deps: seq<Dep>, d: Dep): seq<Dep> {
    if Holds(style, deps, d) then deps else deps + [d]
  }

  ghost function AddAll(style: Style, deps: seq<Dep>, more: seq<Dep>): seq<Dep> {
    if more == [] then deps else AddNew(style, AddAll(style, deps, more[..|more| - 1]), more[|more| - 1])
  }

  /** What one manifest declares: of entries with one key, the first. */
  ghost function PackageDeps(style: Style, rel: Text, pkg: Package): seq<Dep> {
    AddAll(style, [], SectionsDeps(style, rel, Sections(pkg)))
  }

  lemma AddAllAppend(style: Style, deps: seq<Dep>, more: seq<Dep>, d: Dep)
    ensures AddAll(style, deps, more + [d]) == AddNew(style, AddAll(style, deps, more), d)
  {
    assert (more + [d])[..|more|] == more;
  }

  lemma {:induction false} AddAllConcat(style: Style, deps: seq<Dep>, a: seq<Dep>, b: seq<Dep>)
    ensures AddAll(style, deps, a + b) == AddAll(style, AddAll(style, deps, a), b)
    decreases |b|
  {
    if b == [] {
      assert a + b == a;
    } else {
      var front, last := b[..|b| - 1], b[|b| - 1];
      AddAllConcat(style, deps, a, front);
      AddAllAppend(style, deps, a + front, last);
      assert a + b == a + front + [last];
    }
  }

  /** The set of keys already seen, as text. */
  ghost predicate Seen(style: Style, seen: set<Text>, deps: seq<Dep>) {
    forall t :: t in seen <==> exists i :: 0 <= i < |deps| && KeyText(style, deps[i]) == t
  }

  /** Testing the key of an entry is testing for its like; a new one is remembered. */
  lemma SeenStep(style: Style, seen: set<Text>, deps: seq<Dep>, d: Dep)
    requires Seen(style, seen, deps)
    ensures KeyText(style, d) in seen <==> Holds(style, deps, d)
    ensures Seen(style, seen + {KeyText(style, d)}, deps + [d])
  {
    forall i | 0 <= i < |deps| ensures KeyText(style, deps[i]) == KeyText(style, d) <==> SameKey(style, deps[i], d) {
      KeysSeparate(style, deps[i], d);
    }
    var grown, key := deps + [d], KeyText(style, d);
    forall t ensures t in seen + {key} <==> exists i :: 0 <= i < |grown| && KeyText(style, grown[i]) == t {
      if t in seen {
        var i :| 0 <= i < |deps| && KeyText(style, deps[i]) == t;
        assert grown[i] == deps[i];
      }
      assert grown[|deps|] == d;
      assert forall i :: 0 <= i < |deps| ==> grown[i] == deps[i];
    }
  }

  /** One block of a manifest: its entries by name, those with a key not seen before. */
  method CollectBlock(
      style: Style, rel: Text, block: Block, kind: Kind, before: seq<Dep>, seenBefore: set<Text>,
      ghost prior: seq<Dep>, ghost own: seq<Dep>)
    returns (edgeSet: seq<Dep>, seenForKind: set<Text>)
    requires before == prior + own && Seen(style, seenBefore, own)
    ensures edgeSet == prior + AddAll(style, own, BlockDeps(style, rel, block, kind))
    ensures Seen(style, seenForKind, AddAll(style, own, BlockDeps(style, rel, block, kind)))
  {
    var sortedDepNames := SortedElements(block.Keys);
    edgeSet, seenForKind := before, seenBefore;
    ghost var added := own;
    for j := 0 to |sortedDepNames|
      invariant added == AddAll(style, own, Entries(style, rel, block, kind, sortedDepNames, j))
      invariant edgeSet == prior + added && Seen(style, seenForKind, added)
    {
      var dep := sortedDepNames[j];
      EntryAdds(style, rel, block, kind, sortedDepNames, j, own);
      edgeSet, seenForKind :=
        CollectEntry(style, rel, kind, dep, block[dep], edgeSet, seenForKind, prior, added);
      added := AddNew(style, added, DepOf(style, rel, kind, dep, block[dep]));
    }
  }

  lemma EntryAdds(style: Style, rel: Text, block: Block, kind: Kind, names: seq<Text>, j: nat, own: seq<Dep>)
    requires j < |names| && forall i :: 0 <= i < |names| ==> names[i] in block
    ensures AddAll(style, own, Entries(style, rel, block, kind, names, j + 1)) ==
            AddNew(style, AddAll(style, own, Entries(style, rel, block, kind, names, j)),
                   DepOf(style, rel, kind, names[j], block[names[j]]))
  {
    AddAllAppend(style, own, Entries(style, rel, block, kind, names, j),
                 DepOf(style, rel, kind, names[j], block[names[j]]));
  }

  /** One entry: classified, its target resolved, and pushed. */
  method CollectEntry(
      style: Style, rel: Text, kind: Kind, dep: Text, specifier: Specifier, before: seq<Dep>, seenBefore: set<Text>,
      ghost prior: seq<Dep>, ghost own: seq<Dep>)
    returns (edgeSet: seq<Dep>, seenForKind: set<Text>)
    requires before == prior + own && Seen(style, seenBefore, own)
    ensures var added := AddNew(style, own, DepOf(style, rel, kind, dep, specifier));
            edgeSet == prior + added && Seen(style, seenForKind, added)
  {
    var d := Dep(TargetOf(style, rel, dep, specifier), kind, ProtocolOf(style, specifier));
    edgeSet, seenForKind := Push(style, before, seenBefore, d, prior, own);
  }

  /** The innermost step: an entry is pushed when its key is new. */
  method Push(style: Style, before: seq<Dep>, seenBefore: set<Text>, d: Dep, ghost prior: seq<Dep>, ghost own: seq<Dep>)
    returns (edgeSet: seq<Dep>, seenForKind: set<Text>)
    requires before == prior + own && Seen(style, seenBefore, own)
    ensures edgeSet == prior + AddNew(style, own, d) && Seen(style, seenForKind, AddNew(style, own, d))
  {
    SeenStep(style, seenBefore, own, d);
    edgeSet, seenForKind := before, seenBefore;
    var key := KeyText(style, d);
    if key in seenForKind {
      return;
    }
    seenForKind := seenForKind + {key};
    edgeSet := edgeSet + [d];
  }

  /** One block, when the manifest has it. */
  method CollectSection(
      style: Style, rel: Text, section: Section, before: seq<Dep>, seenBefore: set<Text>,
      ghost prior: seq<Dep>, ghost own: seq<Dep>)
    returns (edgeSet: seq<Dep>, seenForKind: set<Text>)
    requires before == prior + own && Seen(style, seenBefore, own)
    ensures edgeSet == prior + AddAll(style, own, SectionDeps(style, rel, section))
    ensures Seen(style, seenForKind, AddAll(style, own, SectionDeps(style, rel, section)))
  {
    edgeSet, seenForKind := before, seenBefore;
    if section.block.Some? {
      edgeSet, seenForKind :=
        CollectBlock(style, rel, section.block.value, section.kind, edgeSet, seenForKind, prior, own);
    }
  }

  lemma FlattenStep(style: Style, lists: seq<seq<Dep>>, k: nat)
    requires k < |lists|
    ensures AddAll(style, [], Flatten(lists, k + 1)) == AddAll(style, AddAll(style, [], Flatten(lists, k)), lists[k])
  {
    AddAllConcat(style, [], Flatten(lists, k), lists[k]);
  }

  /** The blocks of one manifest, one after the other, appended to what its name already has. */
  method CollectDeps(style: Style, rel: Text, sections: seq<Section>, prior: seq<Dep>) returns (edgeSet: seq<Dep>)
    ensures edgeSet == prior + AddAll(style, [], SectionsDeps(style, rel, sections))
  {
    edgeSet := prior;
    var seenForKind: set<Text> := {};
    ghost var own: seq<Dep>, lists := [], Lists(style, rel, sections);
    for k := 0 to |sections|
      invariant own == AddAll(style, [], Flatten(lists, k))
      invariant edgeSet == prior + own && Seen(style, seenForKind, own)
    {
      FlattenStep(style, lists, k);
      edgeSet, seenForKind := CollectSection(style, rel, sections[k], edgeSet, seenForKind, prior, own);
      own := AddAll(style, own, lists[k]);
    }
  }

  /** One package: its four blocks. */
  method CollectPackage(style: Style, rel: Text, pkg: Package, prior: seq<Dep>) returns (edgeSet: seq<Dep>)
    ensures edgeSet == prior + PackageDeps(style, rel, pkg)
  {
    edgeSet := CollectDeps(style, rel, Sections(pkg), prior);
  }

  // ------------------------------------------------------------------ scanning

  /** What is known after reading some manifests: a directory for each package name, and
      what each name declares. */
  datatype Scan = Scan(paths: map<Text, Text>, adjacency: map<Text, seq<Dep>>)

  /** The package a directory holds, when its manifest parses and has a name. */
  function Named(manifests: Manifests, rel: Text): Option<Package> {
    if rel !in manifests || manifests[rel].Unparsable? then None
    else
      var pkg := manifests[rel].pkg;
      if pkg.name.Some? && pkg.name.value != [] then Some(pkg) else None
  }

  function DepsOf(adjacency: map<Text, seq<Dep>>, name: Text): seq<Dep> {
    if name in adjacency then adjacency[name] else []
  }

  /** Of several directories with one package name the last gives its path. */
  function PathsOf(manifests: Manifests, dirs: seq<Text>): map<Text, Text> {
    if dirs == [] then map[]
    else
      var paths, rel := PathsOf(manifests, dirs[..|dirs| - 1]), dirs[|dirs| - 1];
      match Named(manifests, rel)
      case None => paths
      case Some(pkg) => paths[pkg.name.value := DirectoryOf(rel)]
  }

  /** Directories with one package name add up. */
  ghost function AdjacencyOf(style: Style, manifests: Manifests, dirs: seq<Text>): map<Text, seq<Dep>> {
    if dirs == [] then map[]
    else
      var adjacency, rel := AdjacencyOf(style, manifests, dirs[..|dirs| - 1]), dirs[|dirs| - 1];
      match Named(manifests, rel)
      case None => adjacency
      case Some(pkg) =>
        adjacency[pkg.name.value := DepsOf(adjacency, pkg.name.value) + PackageDeps(style, rel, pkg)]
  }

  ghost function ScanAll(style: Style, manifests: Manifests, dirs: seq<Text>): Scan {
    Scan(PathsOf(manifests, dirs), AdjacencyOf(style, manifests, dirs))
  }

  // --------------------------------------------------------------- from scan to graph

  predicate DepLeq(a: Dep, b: Dep) {
    if a.target != b.target then Leq(a.target, b.target) else Leq(KindText(a.kind), KindText(b.kind))
  }

  function Internal(names: set<Text>, deps: seq<Dep>): seq<Dep> {
    if deps == [] then []
    else (if deps[0].target in names then [deps[0]] else []) + Internal(names, deps[1..])
  }

  /** The internal dependencies of a package, by target and then by kind. */
  function Kept(names: set<Text>, deps: seq<Dep>): seq<Dep> {
    Sort(DepLeq, Internal(names, deps))
  }

  datatype Candidate = Candidate(from: Text, dep: Dep)

  function From(from: Text, deps: seq<Dep>): (r: seq<Candidate>)
    ensures |r| == |deps| && forall i :: 0 <= i < |deps| ==> r[i] == Candidate(from, deps[i])
  {
    if deps == [] then [] else [Candidate(from, deps[0])] + From(from, deps[1..])
  }

  /** All candidate edges, package by package. */
  function Candidates(names: set<Text>, adjacency: map<Text, seq<Dep>>, order: seq<Text>): seq<Candidate> {
    if order == [] then []
    else
      var last := order[|order| - 1];
      Candidates(names, adjacency, order[..|order| - 1]) + From(last, Kept(names, DepsOf(adjacency, last)))
  }

  datatype Metadata = Metadata(kind: Kind, protocol: Protocol)

  datatype Built = Built(edges: seq<Edge>, metadata: map<Text, Metadata>)

  function CandidateId(sha: Hash, c: Candidate): Text {
    EdgeId(sha, c.from, c.dep.target, DEFAULT_EDGE_TYPE)
  }

  function CandidateEdge(sha: Hash, c: Candidate): Edge {
    Edge(CandidateId(sha, c), c.from, c.dep.target, DEFAULT_EDGE_TYPE)
  }

  /** The first candidate with each id becomes an edge and gives its metadata. */
  function FirstWins(sha: Hash, cs: seq<Candidate>): Built {
    if cs == [] then Built([], map[])
    else
      var built, c := FirstWins(sha, cs[..|cs| - 1]), cs[|cs| - 1];
      if CandidateId(sha, c) in built.metadata then built
      else Built(built.edges + [CandidateEdge(sha, c)],
                 built.metadata[CandidateId(sha, c) := Metadata(c.dep.kind, c.dep.protocol)])
  }

  datatype Graph = Graph(
    nodes: seq<Node>, edges: seq<Edge>, hash: Text, packagePaths: map<Text, Text>, edgeMetadata: map<Text, Metadata>)

  ghost function GraphOf(sha: Hash, scan: Scan): Graph {
    var names := scan.paths.Keys;
    var order := SortSet(names);
    var built := FirstWins(sha, Candidates(names, scan.adjacency, order));
    var nodes, edges := Map(NodeOf, order), Sort(IdLeq, built.edges);
    Graph(nodes, edges, GraphSurfaceHash(sha, nodes, edges), scan.paths, built.metadata)
  }

  /** The edges of one package, first seen id by first seen id. */
  method AddEdges(sha: Hash, from: Text, list: seq<Dep>, before: Built, ghost done: seq<Candidate>)
    returns (built: Built)
    requires before == FirstWins(sha, done)
    ensures built == FirstWins(sha, done + From(from, list))
  {
    var edges, edgeMetadata, seenEdgeIds := before.edges, before.metadata, before.metadata.Keys;
    assert done + From(from, list[..0]) == done;
    for j := 0 to |list|
      invariant Built(edges, edgeMetadata) == FirstWins(sha, done + From(from, list[..j]))
      invariant seenEdgeIds == edgeMetadata.Keys
    {
      var e := list[j];
      var id := EdgeId(sha, from, e.target, DEFAULT_EDGE_TYPE);
      FromAppend(from, list, j, done);
      FirstWinsAppend(sha, done + From(from, list[..j]), Candidate(from, e));
      if id in seenEdgeIds {
        continue;
      }
      seenEdgeIds := seenEdgeIds + {id};
      edges := edges + [Edge(id, from, e.target, DEFAULT_EDGE_TYPE)];
      edgeMetadata := edgeMetadata[id := Metadata(e.kind, e.protocol)];
    }
    assert list[..|list|] == list;
    built := Built(edges, edgeMetadata);
  }

  lemma {:induction false} FirstWinsAppend(sha: Hash, cs: seq<Candidate>, c: Candidate)
    ensures var built := FirstWins(sha, cs);
            FirstWins(sha, cs + [c]) ==
            if CandidateId(sha, c) in built.metadata then built
            else Built(built.edges + [CandidateEdge(sha, c)],
                       built.metadata[CandidateId(sha, c) := Metadata(c.dep.kind, c.dep.protocol)])
  {
    assert (cs + [c])[..|cs|] == cs;
  }

  lemma FromAppend(from: Text, list: seq<Dep>, j: nat, done: seq<Candidate>)
    requires j < |list|
    ensures done + From(from, list[..j + 1]) == done + From(from, list[..j]) + [Candidate(from, list[j])]
  {
  }

  lemma CandidatesStep(names: set<Text>, adjacency: map<Text, seq<Dep>>, order: seq<Text>, i: nat)
    requires i < |order|
    ensures Candidates(names, adjacency, order[..i + 1]) ==
            Candidates(names, adjacency, order[..i]) + From(order[i], Kept(names, DepsOf(adjacency, order[i])))
  {
    assert order[..i + 1][..i] == order[..i];
  }

  /** The part both builders share: filter, sort, and make the edges. */
  method FinishGraph(sha: Hash, scan: Scan) returns (g: Graph)
    ensures g == GraphOf(sha, scan)
  {
    var names := scan.paths.Keys;
    var order := SortedElements(names);
    var built := Built([], map[]);
    for i := 0 to |order|
      invariant built == FirstWins(sha, Candidates(names, scan.adjacency, order[..i]))
    {
      var list := Kept(names, DepsOf(scan.adjacency, order[i]));
      built := AddEdges(sha, order[i], list, built, Candidates(names, scan.adjacency, order[..i]));
      CandidatesStep(names, scan.adjacency, order, i);
    }
    assert order[..|order|] == order;
    var nodes, sorted := Map(NodeOf, order), Sort(IdLeq, built.edges);
    g := Graph(nodes, sorted, GraphSurfaceHash(sha, nodes, sorted), scan.paths, built.metadata);
  }

  // ----------------------------------------------------------------- the two builders

  lemma ScanStep(style: Style, manifests: Manifests, dirs: seq<Text>, i: nat)
    requires i < |dirs|
    ensures var paths, adjacency := PathsOf(manifests, dirs[..i]), AdjacencyOf(style, manifests, dirs[..i]);
            var pkg := Named(manifests, dirs[i]);
            if pkg.None? then
              PathsOf(manifests, dirs[..i + 1]) == paths && AdjacencyOf(style, manifests, dirs[..i + 1]) == adjacency
            else
              var name := pkg.value.name.value;
              && PathsOf(manifests, dirs[..i + 1]) == paths[name := DirectoryOf(dirs[i])]
              && AdjacencyOf(style, manifests, dirs[..i + 1]) ==
                 adjacency[name := DepsOf(adjacency, name) + PackageDeps(style, dirs[i], pkg.value)]
  {
    assert dirs[..i + 1][..i] == dirs[..i];
  }

  /** The pnpm builder's one pass over the manifests in directory order. */
  method ScanManifests(manifests: Manifests, scanList: seq<Text>) returns (scan: Scan)
    ensures scan == ScanAll(Pnpm, manifests, scanList)
  {
    var packagePaths: map<Text, Text> := map[];
    var adjacency: map<Text, seq<Dep>> := map[];
    for i := 0 to |scanList|
      invariant packagePaths == PathsOf(manifests, scanList[..i])
      invariant adjacency == AdjacencyOf(Pnpm, manifests, scanList[..i])
    {
      ScanStep(Pnpm, manifests, scanList, i);
      var rel := scanList[i];
      var found := Named(manifests, rel);
      if found.None? {
        continue;
      }
      var pkg, name := found.value, found.value.name.value;
      packagePaths := packagePaths[name := DirectoryOf(rel)];
      var edgeSet := CollectPackage(Pnpm, rel, pkg, DepsOf(adjacency, name));
      adjacency := adjacency[name := edgeSet];
    }
    assert scanList[..|scanList|] == scanList;
    scan := Scan(packagePaths, adjacency);
  }

  method BuildPnpmPackageGraph(sha: Hash, manifests: Manifests, matchedDirs: seq<Text>) returns (g: Graph)
    ensures g == GraphOf(sha, ScanAll(Pnpm, manifests, Sort(Leq, matchedDirs)))
  {
    var scan := ScanManifests(manifests, Sort(Leq, matchedDirs));
    g := FinishGraph(sha, scan);
  }

  /** What the yarn builder's first pass keeps of a named manifest. */
  datatype PkgRecord = PkgRecord(rel: Text, name: Text, raw: Package)

  function Records(manifests: Manifests, dirs: seq<Text>): seq<PkgRecord> {
    if dirs == [] then []
    else
      var front, rel := Records(manifests, dirs[..|dirs| - 1]), dirs[|dirs| - 1];
      match Named(manifests, rel)
      case None => front
      case Some(pkg) => front + [PkgRecord(rel, pkg.name.value, pkg)]
  }

  function RecordName(record: PkgRecord): Text { record.name }

  /** The package names in the order they were first met: the order of the path record. */
  function NameOrder(records: seq<PkgRecord>): seq<Text> {
    FirstMet(Map(RecordName, records))
  }

  lemma NameOrderAppend(records: seq<PkgRecord>, record: PkgRecord)
    ensures NameOrder(records + [record]) == Met(NameOrder(records), record.name)
  {
    MapAppend(RecordName, records, record);
    FirstMetAppend(Map(RecordName, records), record.name);
  }

  /** They are the names that have a path. */
  lemma {:induction false} NamesWithPaths(manifests: Manifests, dirs: seq<Text>)
    ensures forall name :: name in NameOrder(Records(manifests, dirs)) <==> name in PathsOf(manifests, dirs)
  {
    if dirs == [] {
    } else {
      var front, rel := dirs[..|dirs| - 1], dirs[|dirs| - 1];
      NamesWithPaths(manifests, front);
      match Named(manifests, rel)
      case None =>
      case Some(pkg) =>
        NameOrderAppend(Records(manifests, front), PkgRecord(rel, pkg.name.value, pkg));
    }
  }

  /** What its second pass makes of them. */
  ghost function Declared(style: Style, records: seq<PkgRecord>): map<Text, seq<Dep>> {
    if records == [] then map[]
    else
      var adjacency, record := Declared(style, records[..|records| - 1]), records[|records| - 1];
      adjacency[record.name := DepsOf(adjacency, record.name) + PackageDeps(style, record.rel, record.raw)]
  }

  /** The two passes together collect the same declarations as one pass. */
  lemma {:induction false} TwoPassesAreOne(style: Style, manifests: Manifests, dirs: seq<Text>)
    ensures Declared(style, Records(manifests, dirs)) == AdjacencyOf(style, manifests, dirs)
  {
    if dirs == [] {
    } else {
      var front := dirs[..|dirs| - 1];
      TwoPassesAreOne(style, manifests, front);
      match Named(manifests, dirs[|dirs| - 1])
      case None =>
      case Some(pkg) =>
        var records := Records(manifests, dirs);
        assert records[..|records| - 1] == Records(manifests, front);
    }
  }

  /** The yarn builder's first pass: the package names, their directories and manifests. */
  method LoadManifests(manifests: Manifests, scanList: seq<Text>)
    returns (packagePaths: map<Text, Text>, names: seq<Text>, pkgRecords: seq<PkgRecord>)
    ensures packagePaths == PathsOf(manifests, scanList)
    ensures pkgRecords == Records(manifests, scanList)
    ensures names == NameOrder(pkgRecords)
  {
    packagePaths, names, pkgRecords := map[], [], [];
    for i := 0 to |scanList|
      invariant packagePaths == PathsOf(manifests, scanList[..i])
      invariant pkgRecords == Records(manifests, scanList[..i])
      invariant names == NameOrder(pkgRecords)
    {
      assert scanList[..i + 1][..i] == scanList[..i];
      var rel := scanList[i];
      var found := Named(manifests, rel);
      if found.None? {
        continue;
      }
      var name := found.value.name.value;
      packagePaths := packagePaths[name := DirectoryOf(rel)];
      names := Met(names, name);
      NameOrderAppend(pkgRecords, PkgRecord(rel, name, found.value));
      pkgRecords := pkgRecords + [PkgRecord(rel, name, found.value)];
    }
    assert scanList[..|scanList|] == scanList;
  }

  /** The name of the package in each directory: of two that normalise alike the later stays. */
  function PathIndex(paths: map<Text, Text>, names: seq<Text>): map<Text, Text>
    requires forall name <- names :: name in paths
  {
    if names == [] then map[]
    else
      var last := names[|names| - 1];
      PathIndex(paths, names[..|names| - 1])[NormaliseRel(paths[last]) := last]
  }

  method IndexPaths(packagePaths: map<Text, Text>, names: seq<Text>) returns (pathToName: map<Text, Text>)
    requires forall name <- names :: name in packagePaths
    ensures pathToName == PathIndex(packagePaths, names)
  {
    pathToName := map[];
    for i := 0 to |names|
      invariant pathToName == PathIndex(packagePaths, names[..i])
    {
      assert names[..i + 1][..i] == names[..i];
      pathToName := pathToName[NormaliseRel(packagePaths[names[i]]) := names[i]];
    }
    assert names[..|names|] == names;
  }

  /** How the yarn builder reads the manifests of these directories. */
  function YarnStyle(join: (Text, Text) -> Text, manifests: Manifests, dirs: seq<Text>): Style {
    NamesWithPaths(manifests, dirs);
    Yarn(Locals(join, PathIndex(PathsOf(manifests, dirs), NameOrder(Records(manifests, dirs)))))
  }

  /** The second pass: what the packages declare. */
  method DeclareAll(style: Style, pkgRecords: seq<PkgRecord>) returns (adjacency: map<Text, seq<Dep>>)
    ensures adjacency == Declared(style, pkgRecords)
  {
    adjacency := map[];
    for i := 0 to |pkgRecords|
      invariant adjacency == Declared(style, pkgRecords[..i])
    {
      assert pkgRecords[..i + 1][..i] == pkgRecords[..i];
      var record := pkgRecords[i];
      var edgeSet := CollectPackage(style, record.rel, record.raw, DepsOf(adjacency, record.name));
      adjacency := adjacency[record.name := edgeSet];
    }
    assert pkgRecords[..|pkgRecords|] == pkgRecords;
  }

  /** The yarn builder. */
  method BuildYarnPnpPackageGraph(
      sha: Hash, join: (Text, Text) -> Text, manifests: Manifests, matchedDirs: seq<Text>) returns (g: Graph)
    ensures var dirs := Sort(Leq, matchedDirs);
            g == GraphOf(sha, ScanAll(YarnStyle(join, manifests, dirs), manifests, dirs))
  {
    var scanList := Sort(Leq, matchedDirs);
    var packagePaths, names, pkgRecords := LoadManifests(manifests, scanList);
    NamesWithPaths(manifests, scanList);
    var pathToName := IndexPaths(packagePaths, names);
    var style := Yarn(Locals(join, pathToName));
    var adjacency := DeclareAll(style, pkgRecords);
    TwoPassesAreOne(style, manifests, scanList);
    g := FinishGraph(sha, Scan(packagePaths, adjacency));
  }
}
