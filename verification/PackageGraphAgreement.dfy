/** The pnpm and the yarn graph builder agree on manifests without local specifiers. */
module PackageGraphAgreement {
  import opened PackageGraph
  import opened PackageGraphFacts
  import opened Sorting
  import opened Texts

  // ------------------------------------------------------------- no local specifiers

  ghost predicate IsPlain(block: Block) {
    forall name <- block :: LocalPath(block[name]).None?
  }

  ghost predicate PlainPackage(pkg: Package) {
    forall kind :: BlockOf(pkg, kind).Some? ==> IsPlain(BlockOf(pkg, kind).value)
  }

  /** No manifest has a `portal:` or `link:` specifier. */
  ghost predicate NoLocalSpecifiers(manifests: Manifests) {
    forall rel <- manifests :: manifests[rel].Parsed? ==> PlainPackage(manifests[rel].pkg)
  }

  lemma PlainSection(pkg: Package, i: nat)
    requires PlainPackage(pkg) && i < 4
    ensures Sections(pkg)[i].block.Some? ==> IsPlain(Sections(pkg)[i].block.value)
  {
    assert Sections(pkg)[i].block == BlockOf(pkg, Sections(pkg)[i].kind);
  }

  // --------------------------------------------------------------- no key comes twice

  ghost predicate DistinctEntries(deps: seq<Dep>) {
    forall i, j :: 0 <= i < j < |deps| ==> !(deps[i].kind == deps[j].kind && deps[i].target == deps[j].target)
  }

  lemma {:induction false} AddAllDistinct(style: Style, deps: seq<Dep>)
    requires DistinctEntries(deps)
    ensures AddAll(style, [], deps) == deps
  {
    if deps == [] {
    } else {
      var front, last := deps[..|deps| - 1], deps[|deps| - 1];
      assert deps == front + [last];
      AddAllDistinct(style, front);
      assert forall i :: 0 <= i < |front| ==> front[i] == deps[i];
    }
  }

  lemma PlainEntries(style: Style, rel: Text, section: Section)
    requires section.block.Some? ==> IsPlain(section.block.value)
    ensures var deps := SectionDeps(style, rel, section);
            DistinctEntries(deps) && forall i :: 0 <= i < |deps| ==> deps[i].kind == section.kind
  {
    if section.block.Some? {
      var names := SortSet(section.block.value.Keys);
      SortSetAscending(section.block.value.Keys);
      assert forall i :: 0 <= i < |names| ==> names[i] in names;
      assert forall i :: 0 <= i < |names| ==> SectionDeps(style, rel, section)[i].target == names[i];
    }
  }

  /** Lists without repetition, of different kinds, make one without repetition. */
  lemma {:induction false} FlattenDistinct(lists: seq<seq<Dep>>, kinds: seq<Kind>, n: nat)
    requires n <= |lists| == |kinds|
    requires forall i, j :: 0 <= i < j < |kinds| ==> kinds[i] != kinds[j]
    requires forall i :: 0 <= i < |lists| ==> DistinctEntries(lists[i])
    requires forall i, j :: 0 <= i < |lists| && 0 <= j < |lists[i]| ==> lists[i][j].kind == kinds[i]
    ensures DistinctEntries(Flatten(lists, n))
  {
    if n == 0 {
    } else {
      FlattenDistinct(lists, kinds, n - 1);
      var before := Flatten(lists, n - 1);
      forall i | 0 <= i < |before| ensures before[i].kind != kinds[n - 1] {
        FlattenMembers(lists, n - 1, before[i]);
      }
    }
  }

  lemma PlainDistinct(style: Style, rel: Text, pkg: Package)
    requires PlainPackage(pkg)
    ensures PackageDeps(style, rel, pkg) == SectionsDeps(style, rel, Sections(pkg))
  {
    var sections := Sections(pkg);
    var lists := Lists(style, rel, sections);
    forall i | 0 <= i < 4
      ensures DistinctEntries(lists[i]) && forall j :: 0 <= j < |lists[i]| ==> lists[i][j].kind == sections[i].kind
    {
      PlainSection(pkg, i);
      PlainEntries(style, rel, sections[i]);
    }
    FlattenDistinct(lists, [Dependency, DevDependency, PeerDependency, OptionalDependency], 4);
    AddAllDistinct(style, SectionsDeps(style, rel, sections));
  }

  // ----------------------------------------------------------------- the same but for protocols

  /** A dependency without its protocol. */
  function Bare(d: Dep): Dep { Dep(d.target, d.kind, Semver) }

  function BareCandidate(c: Candidate): Candidate { Candidate(c.from, Bare(c.dep)) }

  ghost predicate SameDeps(a: seq<Dep>, b: seq<Dep>) {
    Map(Bare, a) == Map(Bare, b)
  }

  lemma {:induction false} MapConcat<T, U>(f: T -> U, a: seq<T>, b: seq<T>)
    ensures Map(f, a + b) == Map(f, a) + Map(f, b)
  {
  }

  lemma EntriesAgree(style: Style, style': Style, rel: Text, block: Block, kind: Kind, names: seq<Text>)
    requires IsPlain(block) && forall i :: 0 <= i < |names| ==> names[i] in block
    ensures SameDeps(
              Entries(style, rel, block, kind, names, |names|), Entries(style', rel, block, kind, names, |names|))
  {
    var a, b := Entries(style, rel, block, kind, names, |names|), Entries(style', rel, block, kind, names, |names|);
    assert forall i :: 0 <= i < |names| ==> Bare(a[i]) == Bare(b[i]);
  }

  lemma SectionAgrees(style: Style, style': Style, rel: Text, section: Section)
    requires section.block.Some? ==> IsPlain(section.block.value)
    ensures SameDeps(SectionDeps(style, rel, section), SectionDeps(style', rel, section))
  {
    if section.block.Some? {
      var names := SortSet(section.block.value.Keys);
      assert forall i :: 0 <= i < |names| ==> names[i] in names;
      EntriesAgree(style, style', rel, section.block.value, section.kind, names);
    }
  }

  lemma {:induction false} FlattenAgrees(a: seq<seq<Dep>>, b: seq<seq<Dep>>, n: nat)
    requires n <= |a| == |b| && forall i :: 0 <= i < |a| ==> SameDeps(a[i], b[i])
    ensures SameDeps(Flatten(a, n), Flatten(b, n))
  {
    if n == 0 {
    } else {
      FlattenAgrees(a, b, n - 1);
      MapConcat(Bare, Flatten(a, n - 1), a[n - 1]);
      MapConcat(Bare, Flatten(b, n - 1), b[n - 1]);
    }
  }

  lemma PackageAgrees(style: Style, style': Style, rel: Text, pkg: Package)
    requires PlainPackage(pkg)
    ensures SameDeps(PackageDeps(style, rel, pkg), PackageDeps(style', rel, pkg))
  {
    var sections := Sections(pkg);
    var a, b := Lists(style, rel, sections), Lists(style', rel, sections);
    forall i | 0 <= i < 4 ensures SameDeps(a[i], b[i]) {
      PlainSection(pkg, i);
      SectionAgrees(style, style', rel, sections[i]);
    }
    FlattenAgrees(a, b, 4);
    PlainDistinct(style, rel, pkg);
    PlainDistinct(style', rel, pkg);
  }

  ghost predicate AdjacenciesAgree(a: map<Text, seq<Dep>>, b: map<Text, seq<Dep>>) {
    forall name :: SameDeps(DepsOf(a, name), DepsOf(b, name))
  }

  lemma {:induction false} ScansAgree(style: Style, style': Style, manifests: Manifests, dirs: seq<Text>)
    requires NoLocalSpecifiers(manifests)
    ensures AdjacenciesAgree(AdjacencyOf(style, manifests, dirs), AdjacencyOf(style', manifests, dirs))
  {
    if dirs == [] {
    } else {
      var front, last := dirs[..|dirs| - 1], dirs[|dirs| - 1];
      ScansAgree(style, style', manifests, front);
      match Named(manifests, last)
      case None =>
      case Some(pkg) =>
        PackageAgrees(style, style', last, pkg);
        OneMoreAgrees(AdjacencyOf(style, manifests, front), AdjacencyOf(style', manifests, front), pkg.name.value,
                      PackageDeps(style, last, pkg), PackageDeps(style', last, pkg));
    }
  }

  lemma OneMoreAgrees(
      a: map<Text, seq<Dep>>, b: map<Text, seq<Dep>>, name: Text, x: seq<Dep>, y: seq<Dep>)
    requires AdjacenciesAgree(a, b) && SameDeps(x, y)
    ensures AdjacenciesAgree(a[name := DepsOf(a, name) + x], b[name := DepsOf(b, name) + y])
  {
    MapConcat(Bare, DepsOf(a, name), x);
    MapConcat(Bare, DepsOf(b, name), y);
    var a', b' := a[name := DepsOf(a, name) + x], b[name := DepsOf(b, name) + y];
    forall n ensures SameDeps(DepsOf(a', n), DepsOf(b', n)) {
      assert SameDeps(DepsOf(a, n), DepsOf(b, n));
    }
  }

  lemma {:induction false} InternalBare(names: set<Text>, deps: seq<Dep>)
    ensures Map(Bare, Internal(names, deps)) == Internal(names, Map(Bare, deps))
  {
    if deps == [] {
    } else {
      InternalBare(names, deps[1..]);
      assert Map(Bare, deps)[1..] == Map(Bare, deps[1..]);
    }
  }

  lemma KeptAgree(names: set<Text>, a: seq<Dep>, b: seq<Dep>)
    requires SameDeps(a, b)
    ensures SameDeps(Kept(names, a), Kept(names, b))
  {
    InternalBare(names, a);
    InternalBare(names, b);
    SortMap(DepLeq, DepLeq, Bare, Internal(names, a));
    SortMap(DepLeq, DepLeq, Bare, Internal(names, b));
  }

  lemma {:induction false} CandidatesAgree(
      names: set<Text>, a: map<Text, seq<Dep>>, b: map<Text, seq<Dep>>, order: seq<Text>)
    requires AdjacenciesAgree(a, b)
    ensures Map(BareCandidate, Candidates(names, a, order)) == Map(BareCandidate, Candidates(names, b, order))
  {
    if order == [] {
    } else {
      var front, last := order[..|order| - 1], order[|order| - 1];
      CandidatesAgree(names, a, b, front);
      var x, y := Kept(names, DepsOf(a, last)), Kept(names, DepsOf(b, last));
      KeptAgree(names, DepsOf(a, last), DepsOf(b, last));
      FromAgree(last, x, y);
      MapConcat(BareCandidate, Candidates(names, a, front), From(last, x));
      MapConcat(BareCandidate, Candidates(names, b, front), From(last, y));
    }
  }

  lemma FromAgree(from: Text, x: seq<Dep>, y: seq<Dep>)
    requires SameDeps(x, y)
    ensures Map(BareCandidate, From(from, x)) == Map(BareCandidate, From(from, y))
  {
    assert |x| == |Map(Bare, x)| == |Map(Bare, y)| == |y|;
    forall i | 0 <= i < |x| ensures Bare(x[i]) == Bare(y[i]) {
      assert Map(Bare, x)[i] == Map(Bare, y)[i];
    }
  }

  /** Metadata that differs at most in the protocol. */
  ghost predicate SameKinds(a: map<Text, Metadata>, b: map<Text, Metadata>) {
    a.Keys == b.Keys && forall id <- a :: a[id].kind == b[id].kind
  }

  ghost predicate SameBuilt(a: Built, b: Built) {
    a.edges == b.edges && SameKinds(a.metadata, b.metadata)
  }

  lemma FirstWinsStep(sha: Hash, x: seq<Candidate>, y: seq<Candidate>, c: Candidate, d: Candidate)
    requires SameBuilt(FirstWins(sha, x), FirstWins(sha, y)) && BareCandidate(c) == BareCandidate(d)
    ensures SameBuilt(FirstWins(sha, x + [c]), FirstWins(sha, y + [d]))
  {
    FirstWinsAppend(sha, x, c);
    FirstWinsAppend(sha, y, d);
  }

  lemma {:induction false} FirstWinsAgree(sha: Hash, x: seq<Candidate>, y: seq<Candidate>, n: nat)
    requires n <= |x| == |y| && forall i :: 0 <= i < |x| ==> BareCandidate(x[i]) == BareCandidate(y[i])
    ensures SameBuilt(FirstWins(sha, x[..n]), FirstWins(sha, y[..n]))
  {
    if n == 0 {
      assert x[..0] == [] && y[..0] == [];
    } else {
      var m := n - 1;
      FirstWinsAgree(sha, x, y, m);
      FirstWinsStep(sha, x[..m], y[..m], x[m], y[m]);
      assert x[..n] == x[..m] + [x[m]] && y[..n] == y[..m] + [y[m]];
    }
  }

  lemma MapsAgree(x: seq<Candidate>, y: seq<Candidate>)
    requires Map(BareCandidate, x) == Map(BareCandidate, y)
    ensures |x| == |y| && forall i :: 0 <= i < |x| ==> BareCandidate(x[i]) == BareCandidate(y[i])
  {
    assert |x| == |Map(BareCandidate, x)| == |Map(BareCandidate, y)| == |y|;
    forall i | 0 <= i < |x| ensures BareCandidate(x[i]) == BareCandidate(y[i]) {
      assert Map(BareCandidate, x)[i] == Map(BareCandidate, y)[i];
    }
  }

  lemma BuiltsAgree(sha: Hash, x: seq<Candidate>, y: seq<Candidate>)
    requires Map(BareCandidate, x) == Map(BareCandidate, y)
    ensures SameBuilt(FirstWins(sha, x), FirstWins(sha, y))
  {
    MapsAgree(x, y);
    FirstWinsAgree(sha, x, y, |x|);
    assert x[..|x|] == x && y[..|y|] == y;
  }

  lemma GraphsAgree(
      sha: Hash, paths: map<Text, Text>, a: map<Text, seq<Dep>>, b: map<Text, seq<Dep>>, g: Graph, g': Graph)
    requires AdjacenciesAgree(a, b)
    requires g == GraphOf(sha, Scan(paths, a)) && g' == GraphOf(sha, Scan(paths, b))
    ensures g.nodes == g'.nodes && g.edges == g'.edges && g.hash == g'.hash && g.packagePaths == g'.packagePaths
    ensures SameKinds(g.edgeMetadata, g'.edgeMetadata)
  {
    var order := SortSet(paths.Keys);
    CandidatesAgree(paths.Keys, a, b, order);
    BuiltsAgree(sha, Candidates(paths.Keys, a, order), Candidates(paths.Keys, b, order));
  }

  /** On manifests without local specifiers the nodes, the edges, the hash, the directories and
      each edge's kind do not depend on the builder. */
  lemma BuildersAgree(sha: Hash, style: Style, style': Style, manifests: Manifests, dirs: seq<Text>)
    requires NoLocalSpecifiers(manifests)
    ensures var g, g' := GraphFor(sha, style, manifests, dirs), GraphFor(sha, style', manifests, dirs);
            && g.nodes == g'.nodes && g.edges == g'.edges && g.hash == g'.hash && g.packagePaths == g'.packagePaths
            && SameKinds(g.edgeMetadata, g'.edgeMetadata)
  {
    var sorted := Sort(Leq, dirs);
    ScansAgree(style, style', manifests, sorted);
    GraphsAgree(
      sha, PathsOf(manifests, sorted), AdjacencyOf(style, manifests, sorted), AdjacencyOf(style', manifests, sorted),
      GraphFor(sha, style, manifests, dirs), GraphFor(sha, style', manifests, dirs));
  }
}
