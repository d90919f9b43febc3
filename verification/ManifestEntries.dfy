/** What the package graph builders take from the manifests, in the manifests' own terms. */
module ManifestEntries {
  import opened GraphSurface
  import opened LocalTargets
  import opened PackageGraph
  import opened PackageGraphFacts
  import opened PackageGraphKinds
  import opened Results
  import opened Sorting
  import opened Texts

  // --------------------------------------------------------------------- protocols

  ghost predicate StartsWith(spec: Specifier, prefix: Text) {
    exists rest :: spec == SpecText(prefix + rest)
  }

  lemma StartsExactly(spec: Specifier, prefix: Text)
    ensures StartsWith(spec, prefix) <==> spec.SpecText? && prefix <= spec.s
  {
    if spec.SpecText? && prefix <= spec.s {
      assert spec == SpecText(prefix + spec.s[|prefix|..]);
    }
  }

  /** The protocol of a specifier, by its prefix. Each builder knows two or three prefixes; all
      else, strings or not, is `semver`. */
  ghost predicate HasProtocol(style: Style, spec: Specifier, p: Protocol) {
    match p
    case Workspace => StartsWith(spec, Ascii("workspace:"))
    case Catalog => style.Pnpm? && StartsWith(spec, Ascii("catalog:"))
    case Portal => style.Yarn? && StartsWith(spec, Ascii("portal:"))
    case Link => style.Yarn? && StartsWith(spec, Ascii("link:"))
    case Semver =>
      && !StartsWith(spec, Ascii("workspace:"))
      && (style.Pnpm? ==> !StartsWith(spec, Ascii("catalog:")))
      && (style.Yarn? ==> !StartsWith(spec, Ascii("portal:")) && !StartsWith(spec, Ascii("link:")))
  }

  lemma ProtocolExactly(style: Style, spec: Specifier, p: Protocol)
    ensures ProtocolOf(style, spec) == p <==> HasProtocol(style, spec, p)
  {
    StartsExactly(spec, Ascii("workspace:"));
    StartsExactly(spec, Ascii("catalog:"));
    StartsExactly(spec, Ascii("portal:"));
    StartsExactly(spec, Ascii("link:"));
    PrefixesDiffer(if spec.SpecText? then spec.s else []);
  }

  lemma PrefixesDiffer(s: Text)
    ensures Ascii("workspace:") <= s ==> s[0] == Code('w')
    ensures Ascii("catalog:") <= s ==> s[0] == Code('c')
    ensures Ascii("portal:") <= s ==> s[0] == Code('p')
    ensures Ascii("link:") <= s ==> s[0] == Code('l')
  {
    assert Ascii("workspace:")[0] == Code('w') && Ascii("catalog:")[0] == Code('c');
    assert Ascii("portal:")[0] == Code('p') && Ascii("link:")[0] == Code('l');
  }

  // ------------------------------------------------------------------- declarations

  /** A directory whose manifest parses and has the given non-empty name. */
  ghost predicate HoldsPackage(manifests: Manifests, rel: Text, name: Text, pkg: Package) {
    rel in manifests && manifests[rel] == Parsed(pkg) && pkg.name == Some(name) && name != []
  }

  /** The block of kind `kind` of the package has an entry for `name`. */
  ghost predicate HasEntry(pkg: Package, kind: Kind, name: Text, spec: Specifier) {
    match kind
    case Dependency => EntryOf(pkg.dependencies, name, spec)
    case DevDependency => EntryOf(pkg.devDependencies, name, spec)
    case PeerDependency => EntryOf(pkg.peerDependencies, name, spec)
    case OptionalDependency => EntryOf(pkg.optionalDependencies, name, spec)
  }

  ghost predicate EntryOf(block: Option<Block>, name: Text, spec: Specifier) {
    block.Some? && name in block.value && block.value[name] == spec
  }

  /** `d` stands for the entry `name` of a manifest in directory `rel` of package `from`. */
  ghost predicate EntryAt(style: Style, manifests: Manifests, rel: Text, from: Text, name: Text, d: Dep) {
    exists pkg, spec ::
      && HoldsPackage(manifests, rel, from, pkg) && HasEntry(pkg, d.kind, name, spec)
      && HasProtocol(style, spec, d.protocol) && d.target == TargetOf(style, rel, name, spec)
  }

  lemma DeclaredAtExactly(style: Style, manifests: Manifests, rel: Text, from: Text, d: Dep)
    ensures DeclaredAt(style, manifests, rel, from, d) <==> exists name :: EntryAt(style, manifests, rel, from, name, d)
  {
    var named := Named(manifests, rel);
    if DeclaredAt(style, manifests, rel, from, d) {
      var pkg := named.value;
      PackageDepsExactly(style, rel, pkg, d);
      var block := BlockOf(pkg, d.kind).value;
      var name :| IsEntry(style, rel, block, d.kind, name, d);
      ProtocolExactly(style, block[name], d.protocol);
      assert HasEntry(pkg, d.kind, name, block[name]);
      assert EntryAt(style, manifests, rel, from, name, d);
    }
    if name :| EntryAt(style, manifests, rel, from, name, d) {
      var pkg, spec :|
        && HoldsPackage(manifests, rel, from, pkg) && HasEntry(pkg, d.kind, name, spec)
        && HasProtocol(style, spec, d.protocol) && d.target == TargetOf(style, rel, name, spec);
      ProtocolExactly(style, spec, d.protocol);
      assert IsEntry(style, rel, BlockOf(pkg, d.kind).value, d.kind, name, d);
      PackageDepsExactly(style, rel, pkg, d);
    }
  }

  /** After the scan a package declares exactly what the entries in the manifests of its name
      say: the kind is the block's, the protocol that of the specifier's prefix. */
  lemma DeclarationsExactly(style: Style, manifests: Manifests, dirs: seq<Text>, from: Text, d: Dep)
    ensures d in DepsOf(ScanAll(style, manifests, dirs).adjacency, from) <==>
            exists rel, name :: rel in dirs && EntryAt(style, manifests, rel, from, name, d)
  {
    ScanAdjacency(style, manifests, dirs, from, d);
    forall rel
      ensures DeclaredAt(style, manifests, rel, from, d) <==>
              exists name :: EntryAt(style, manifests, rel, from, name, d)
    {
      DeclaredAtExactly(style, manifests, rel, from, d);
    }
  }

  /** The target is the entry's name, whatever the builder, but for yarn's two local prefixes. */
  lemma TargetIsName(style: Style, rel: Text, name: Text, spec: Specifier)
    requires style.Pnpm? || (!StartsWith(spec, Ascii("portal:")) && !StartsWith(spec, Ascii("link:")))
    ensures TargetOf(style, rel, name, spec) == name
  {
    StartsExactly(spec, Ascii("portal:"));
    StartsExactly(spec, Ascii("link:"));
  }

  // ------------------------------------------------------------------------ metadata

  /** The manifest in directory `i` declares `d`, and no earlier one a dependency on the same
      package under the same kind. */
  ghost predicate FirstDeclares(
      style: Style, manifests: Manifests, dirs: seq<Text>, from: Text, d: Dep, i: nat) {
    && i < |dirs| && DeclaredAt(style, manifests, dirs[i], from, d)
    && forall j, other ::
         0 <= j < i && DeclaredAt(style, manifests, dirs[j], from, other) && other.target == d.target ==>
           other.kind != d.kind
  }

  /** What the manifest in one directory adds to package `from`. */
  ghost function OwnDeps(style: Style, manifests: Manifests, rel: Text, from: Text): seq<Dep> {
    if HasName(manifests, rel, from) then PackageDeps(style, rel, Named(manifests, rel).value) else []
  }

  lemma DepsGrow(style: Style, manifests: Manifests, dirs: seq<Text>, from: Text)
    requires dirs != []
    ensures var front, last := dirs[..|dirs| - 1], dirs[|dirs| - 1];
            DepsOf(AdjacencyOf(style, manifests, dirs), from) ==
            DepsOf(AdjacencyOf(style, manifests, front), from) + OwnDeps(style, manifests, last, from)
  {
    var before := DepsOf(AdjacencyOf(style, manifests, dirs[..|dirs| - 1]), from);
    assert before + [] == before;
  }

  /** No declaration before `k` has its target and kind. */
  ghost predicate FirstOfKind(deps: seq<Dep>, k: nat) {
    k < |deps| && forall j :: 0 <= j < k && deps[j].target == deps[k].target ==> deps[j].kind != deps[k].kind
  }

  lemma FirstInLast(style: Style, manifests: Manifests, dirs: seq<Text>, from: Text, before: seq<Dep>, d: Dep)
    requires dirs != [] && d in OwnDeps(style, manifests, dirs[|dirs| - 1], from)
    requires before == DepsOf(AdjacencyOf(style, manifests, dirs[..|dirs| - 1]), from)
    requires forall other <- before :: other.target == d.target ==> other.kind != d.kind
    ensures FirstDeclares(style, manifests, dirs, from, d, |dirs| - 1)
  {
    var n := |dirs| - 1;
    var front := dirs[..n];
    forall j, other | 0 <= j < n && DeclaredAt(style, manifests, dirs[j], from, other) && other.target == d.target
      ensures other.kind != d.kind
    {
      assert front[j] == dirs[j] && front[j] in front;
      ScanAdjacency(style, manifests, front, from, other);
    }
  }

  lemma FirstStaysFirst(
      style: Style, manifests: Manifests, dirs: seq<Text>, n: nat, from: Text, d: Dep, i: nat)
    requires n <= |dirs| && FirstDeclares(style, manifests, dirs[..n], from, d, i)
    ensures FirstDeclares(style, manifests, dirs, from, d, i)
  {
    var front := dirs[..n];
    forall j, other | 0 <= j < i && DeclaredAt(style, manifests, dirs[j], from, other) && other.target == d.target
      ensures other.kind != d.kind
    {
      assert front[j] == dirs[j];
    }
  }

  /** A declaration before which none has its target and kind comes from the first directory that
      has such a one. */
  lemma {:induction false} FirstFrom(
      style: Style, manifests: Manifests, dirs: seq<Text>, from: Text, deps: seq<Dep>, k: nat) returns (i: nat)
    requires deps == DepsOf(AdjacencyOf(style, manifests, dirs), from) && FirstOfKind(deps, k)
    ensures FirstDeclares(style, manifests, dirs, from, deps[k], i)
    decreases |dirs|
  {
    if dirs == [] {
      assert false;
    } else {
      var n := |dirs| - 1;
      var before, own := LastAdds(style, manifests, dirs, from, deps);
      if k < |before| {
        EarlierIsFirst(before, own, deps, k);
        i := FirstFrom(style, manifests, dirs[..n], from, before, k);
        FirstStaysFirst(style, manifests, dirs, n, from, before[k], i);
      } else {
        i := n;
        LaterIsOwn(before, own, deps, k);
        FirstInLast(style, manifests, dirs, from, before, deps[k]);
      }
    }
  }

  lemma LastAdds(style: Style, manifests: Manifests, dirs: seq<Text>, from: Text, deps: seq<Dep>)
    returns (before: seq<Dep>, own: seq<Dep>)
    requires dirs != [] && deps == DepsOf(AdjacencyOf(style, manifests, dirs), from)
    ensures before == DepsOf(AdjacencyOf(style, manifests, dirs[..|dirs| - 1]), from)
    ensures own == OwnDeps(style, manifests, dirs[|dirs| - 1], from) && deps == before + own
  {
    DepsGrow(style, manifests, dirs, from);
    before := DepsOf(AdjacencyOf(style, manifests, dirs[..|dirs| - 1]), from);
    own := OwnDeps(style, manifests, dirs[|dirs| - 1], from);
  }

  lemma EarlierIsFirst(before: seq<Dep>, own: seq<Dep>, deps: seq<Dep>, k: nat)
    requires deps == before + own && k < |before| && FirstOfKind(deps, k)
    ensures FirstOfKind(before, k) && before[k] == deps[k]
  {
    assert forall j :: 0 <= j < |before| ==> before[j] == deps[j];
  }

  lemma LaterIsOwn(before: seq<Dep>, own: seq<Dep>, deps: seq<Dep>, k: nat)
    requires deps == before + own && |before| <= k && FirstOfKind(deps, k)
    ensures deps[k] in own
    ensures forall other <- before :: other.target == deps[k].target ==> other.kind != deps[k].kind
  {
    assert deps[k] == own[k - |before|];
    forall other | other in before ensures other.target == deps[k].target ==> other.kind != deps[k].kind {
      var j :| 0 <= j < |before| && before[j] == other;
      assert deps[j] == other;
    }
  }

  lemma LeastKind(deps: seq<Dep>, to: Text, k: nat, other: Dep)
    requires IsFirstLeast(deps, to, k) && other in deps && other.target == to
    ensures TextRank(deps[k].kind) <= TextRank(other.kind)
  {
    var j :| 0 <= j < |deps| && deps[j] == other;
    KindOrder(deps[k].kind, other.kind);
  }

  /** An edge's kind and protocol are those of a declaration of the alphabetically least kind, in
      the first directory in ascending order that declares its target under that kind. */
  lemma MetadataExactly(sha: Hash, style: Style, manifests: Manifests, dirs: seq<Text>, e: Edge)
    returns (i: nat, d: Dep)
    requires e in GraphFor(sha, style, manifests, dirs).edges
    ensures d.target == e.to && FirstDeclares(style, manifests, Sort(Leq, dirs), e.from, d, i)
    ensures forall other | Declares(style, manifests, dirs, e.from, other) && other.target == e.to ::
              TextRank(d.kind) <= TextRank(other.kind)
    ensures var metadata := GraphFor(sha, style, manifests, dirs).edgeMetadata;
            e.id in metadata && metadata[e.id] == Metadata(d.kind, d.protocol)
  {
    var sorted := Sort(Leq, dirs);
    var deps := DepsOf(AdjacencyOf(style, manifests, sorted), e.from);
    var k := LeastKindWins(sha, ScanAll(style, manifests, sorted), e);
    d := deps[k];
    i := FirstFrom(style, manifests, sorted, e.from, deps, k);
    forall other | Declares(style, manifests, dirs, e.from, other) && other.target == e.to
      ensures TextRank(d.kind) <= TextRank(other.kind)
    {
      DeclaredSorted(style, manifests, dirs, e.from, other);
      ScanAdjacency(style, manifests, sorted, e.from, other);
      LeastKind(deps, e.to, k, other);
    }
  }

  lemma DeclaredSorted(style: Style, manifests: Manifests, dirs: seq<Text>, from: Text, d: Dep)
    requires Declares(style, manifests, dirs, from, d)
    ensures Declares(style, manifests, Sort(Leq, dirs), from, d)
  {
    SortedDirs(dirs);
  }

  // ------------------------------------------------------------------------- paths

  ghost predicate HasPackage(manifests: Manifests, rel: Text, name: Text) {
    exists pkg :: HoldsPackage(manifests, rel, name, pkg)
  }

  lemma HasNameExactly(manifests: Manifests, rel: Text, name: Text)
    ensures HasName(manifests, rel, name) <==> HasPackage(manifests, rel, name)
  {
    if HasName(manifests, rel, name) {
      assert HoldsPackage(manifests, rel, name, Named(manifests, rel).value);
    }
  }

  /** Directory `i` is the last of the scanned that holds package `name`. */
  ghost predicate LastHolds(manifests: Manifests, dirs: seq<Text>, i: nat, name: Text) {
    && i < |dirs| && HasPackage(manifests, dirs[i], name)
    && forall j :: i < j < |dirs| ==> !HasPackage(manifests, dirs[j], name)
  }

  /** The graph has a path for a package exactly when some directory holds it: the last such
      directory in ascending order, with a dot for the root. */
  lemma PathsExactly(sha: Hash, style: Style, manifests: Manifests, dirs: seq<Text>, name: Text)
    ensures var paths, sorted := GraphFor(sha, style, manifests, dirs).packagePaths, Sort(Leq, dirs);
            && (name in paths <==> exists rel :: rel in dirs && HasPackage(manifests, rel, name))
            && forall i: nat | LastHolds(manifests, sorted, i, name) ::
                 name in paths && paths[name] == if sorted[i] == [] then Ascii(".") else sorted[i]
  {
    SortedDirs(dirs);
    ScannedPaths(manifests, Sort(Leq, dirs), name);
  }

  lemma ScannedPaths(manifests: Manifests, dirs: seq<Text>, name: Text)
    ensures var paths := PathsOf(manifests, dirs);
            && (name in paths <==> exists rel :: rel in dirs && HasPackage(manifests, rel, name))
            && forall i: nat | LastHolds(manifests, dirs, i, name) ::
                 name in paths && paths[name] == if dirs[i] == [] then Ascii(".") else dirs[i]
  {
    ScanPaths(manifests, dirs, name);
    forall rel ensures HasName(manifests, rel, name) <==> HasPackage(manifests, rel, name) {
      HasNameExactly(manifests, rel, name);
    }
    forall i: nat | LastHolds(manifests, dirs, i, name)
      ensures name in PathsOf(manifests, dirs)
      ensures PathsOf(manifests, dirs)[name] == if dirs[i] == [] then Ascii(".") else dirs[i]
    {
      LastDirectoryWins(manifests, dirs, i, name);
    }
  }

  /** `at` is the normal form of a path: a dot for the root, and no slash at the end. */
  ghost predicate Normal(path: Text, at: Text) {
    if path == [] || path == Ascii(".") then at == Ascii(".")
    else at <= path && (at == [] || at[|at| - 1] != SLASH) && forall i :: |at| <= i < |path| ==> path[i] == SLASH
  }

  lemma {:induction false} SlashesExactly(path: Text, at: Text)
    ensures StripSlashes(path) == at <==>
            at <= path && (at == [] || at[|at| - 1] != SLASH) && forall i :: |at| <= i < |path| ==> path[i] == SLASH
  {
    if path == [] || path[|path| - 1] != SLASH {
    } else {
      SlashesExactly(path[..|path| - 1], at);
    }
  }

  lemma NormalExactly(path: Text, at: Text)
    ensures NormaliseRel(path) == at <==> Normal(path, at)
  {
    SlashesExactly(path, at);
  }

  /** A local specifier leads to the normal form of its path, taken without white space around it
      and joined to the directory of the manifest. */
  lemma LocalDirectoryExactly(
      join: (Text, Text) -> Text, rel: Text, prefix: Text, a: Text, path: Text, b: Text, target: Text, plain: Text,
      at: Text)
    requires prefix == Ascii("portal:") || prefix == Ascii("link:")
    requires forall c <- a + b :: IsWhiteSpace(c)
    requires path != [] ==> !IsWhiteSpace(path[0]) && !IsWhiteSpace(path[|path| - 1])
    requires WithoutHere(path, target)
    requires WithoutHere(join(if rel == [] then Ascii(".") else rel, target), plain) && Normal(plain, at)
    ensures LocalPath(SpecText(prefix + (a + path + b))).Some?
    ensures LocalDirectory(join, rel, SpecText(prefix + (a + path + b))) == at
  {
    LocalPathIs(prefix, a + path + b);
    TrimExactly(a, path, b);
    HereExactly(path, target);
    HereExactly(join(if rel == [] then Ascii(".") else rel, target), plain);
    NormalExactly(plain, at);
  }

  lemma LocalPathIs(prefix: Text, path: Text)
    requires prefix == Ascii("portal:") || prefix == Ascii("link:")
    ensures LocalPath(SpecText(prefix + path)) == Some(path)
  {
    PrefixesDiffer(prefix + path);
    assert (prefix + path)[|prefix|..] == path;
    assert prefix <= prefix + path;
    assert (prefix + path)[0] == prefix[0];
    PrefixesDiffer(prefix);
  }
}
