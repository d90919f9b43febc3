/** Where the yarn builder's `portal:` and `link:` specifiers lead. */
module LocalTargets {
  import opened PackageGraph
  import opened PackageGraphFacts
  import opened Results
  import opened Sorting
  import opened Texts

  /** Name `i` is the last whose path normalises to `at`. */
  ghost predicate IsLastAt(paths: map<Text, Text>, names: seq<Text>, at: Text, i: nat) {
    && i < |names| && names[i] in paths && NormaliseRel(paths[names[i]]) == at
    && forall j :: i < j < |names| && names[j] in paths ==> NormaliseRel(paths[names[j]]) != at
  }

  /** The index has a directory exactly when the path of some package normalises to it, and
      holds the last such name. */
  lemma {:induction false} PathIndexExactly(paths: map<Text, Text>, names: seq<Text>, at: Text)
    requires forall name <- names :: name in paths
    ensures at in PathIndex(paths, names) <==> exists name <- names :: NormaliseRel(paths[name]) == at
    ensures at in PathIndex(paths, names) ==>
              exists i: nat :: IsLastAt(paths, names, at, i) && PathIndex(paths, names)[at] == names[i]
  {
    if names == [] {
    } else {
      var n := |names| - 1;
      var front, last := names[..n], names[n];
      PathIndexExactly(paths, front, at);
      assert names == front + [last];
      if NormaliseRel(paths[last]) == at {
        assert last in names;
        assert IsLastAt(paths, names, at, n);
      } else if at in PathIndex(paths, front) {
        var i: nat :| IsLastAt(paths, front, at, i) && PathIndex(paths, front)[at] == front[i];
        LastStays(paths, names, at, i);
      }
    }
  }

  lemma LastStays(paths: map<Text, Text>, names: seq<Text>, at: Text, i: nat)
    requires names != [] && IsLastAt(paths, names[..|names| - 1], at, i)
    requires names[|names| - 1] in paths && NormaliseRel(paths[names[|names| - 1]]) != at
    ensures IsLastAt(paths, names, at, i) && names[i] == names[..|names| - 1][i]
  {
    var front := names[..|names| - 1];
    forall j | i < j < |names| && names[j] in paths ensures NormaliseRel(paths[names[j]]) != at {
      assert j < |front| ==> front[j] == names[j];
    }
  }

  /** The order of the names: every package of the scanned directories once, those met in an
      earlier directory first. */
  lemma NamesAsMet(manifests: Manifests, dirs: seq<Text>)
    ensures var names := NameOrder(Records(manifests, dirs));
            && Distinct(names)
            && (forall name :: name in names <==> IsPackageName(manifests, dirs, name))
  {
    FirstMetContents(Map(RecordName, Records(manifests, dirs)));
    NamesWithPaths(manifests, dirs);
    forall name ensures name in PathsOf(manifests, dirs) <==> IsPackageName(manifests, dirs, name) {
      ScanPaths(manifests, dirs, name);
    }
  }

  /** Directory `i` is the first that holds a package of the given name. */
  ghost predicate IsFirstOf(manifests: Manifests, dirs: seq<Text>, i: nat, name: Text) {
    i < |dirs| && HasName(manifests, dirs[i], name) && forall j :: 0 <= j < i ==> !HasName(manifests, dirs[j], name)
  }

  /** Name `a` comes before name `b`. */
  ghost predicate Before(names: seq<Text>, a: Text, b: Text) {
    exists p, q :: 0 <= p < q < |names| && names[p] == a && names[q] == b
  }

  lemma {:induction false} EarlierMetFirst(manifests: Manifests, dirs: seq<Text>, i: nat, j: nat, a: Text, b: Text)
    requires IsFirstOf(manifests, dirs, i, a) && IsFirstOf(manifests, dirs, j, b) && i < j
    ensures Before(NameOrder(Records(manifests, dirs)), a, b)
  {
    var front, rel := dirs[..|dirs| - 1], dirs[|dirs| - 1];
    var records := Records(manifests, front);
    FrontFirst(manifests, dirs, i, a);
    if j < |dirs| - 1 {
      FrontFirst(manifests, dirs, j, b);
      EarlierMetFirst(manifests, front, i, j, a, b);
      if Named(manifests, rel).Some? {
        NameOrderAppend(records, PkgRecord(rel, Named(manifests, rel).value.name.value, Named(manifests, rel).value));
        BeforeStays(NameOrder(records), Named(manifests, rel).value.name.value, a, b);
      }
    } else {
      NameOrderAppend(records, PkgRecord(rel, b, Named(manifests, rel).value));
      NamesAsMet(manifests, front);
      assert front[i] in front;
      assert IsPackageName(manifests, front, a);
      assert !IsPackageName(manifests, front, b);
      LastMet(NameOrder(records), a, b);
    }
  }

  lemma FrontFirst(manifests: Manifests, dirs: seq<Text>, i: nat, name: Text)
    requires IsFirstOf(manifests, dirs, i, name) && i < |dirs| - 1
    ensures IsFirstOf(manifests, dirs[..|dirs| - 1], i, name)
  {
  }

  lemma BeforeStays(names: seq<Text>, x: Text, a: Text, b: Text)
    requires Before(names, a, b)
    ensures Before(Met(names, x), a, b)
  {
    var p, q :| 0 <= p < q < |names| && names[p] == a && names[q] == b;
    var more := Met(names, x);
    assert more[p] == a && more[q] == b;
  }

  lemma LastMet(names: seq<Text>, a: Text, b: Text)
    requires a in names && b !in names
    ensures Before(Met(names, b), a, b)
  {
    var p :| 0 <= p < |names| && names[p] == a;
    var more := Met(names, b);
    assert more[p] == a && more[|names|] == b;
  }

  /** The directory a local specifier in a manifest of directory `rel` leads to. */
  function LocalDirectory(join: (Text, Text) -> Text, rel: Text, spec: Specifier): Text
    requires LocalPath(spec).Some?
  {
    NormaliseRel(ResolveLocalPath(join, rel, LocalPath(spec).value))
  }

  /** No path normalises to `at`. */
  ghost predicate NoneAt(paths: map<Text, Text>, names: seq<Text>, at: Text) {
    forall other <- names :: other in paths ==> NormaliseRel(paths[other]) != at
  }

  /** What the index gives for a directory. */
  function Resolved(index: map<Text, Text>, at: Text, name: Text): Text {
    if at in index then index[at] else name
  }

  lemma ResolvedExactly(paths: map<Text, Text>, names: seq<Text>, at: Text, name: Text)
    requires forall other <- names :: other in paths
    ensures var target := Resolved(PathIndex(paths, names), at, name);
            if NoneAt(paths, names, at) then target == name
            else exists i: nat :: IsLastAt(paths, names, at, i) && target == names[i]
  {
    PathIndexExactly(paths, names, at);
  }

  /** A local specifier stands for the last package, in the order of the names, whose path is the
      directory it leads to; when there is none, for the dependency's own name. */
  lemma LocalTargetExactly(
      join: (Text, Text) -> Text, manifests: Manifests, dirs: seq<Text>, rel: Text, name: Text, spec: Specifier)
    requires LocalPath(spec).Some?
    ensures var (paths, names) := (PathsOf(manifests, dirs), NameOrder(Records(manifests, dirs)));
            var at := LocalDirectory(join, rel, spec);
            var target := TargetOf(YarnStyle(join, manifests, dirs), rel, name, spec);
            if NoneAt(paths, names, at) then target == name
            else exists i: nat :: IsLastAt(paths, names, at, i) && target == names[i]
  {
    var paths, names := PathsOf(manifests, dirs), NameOrder(Records(manifests, dirs));
    NamesWithPaths(manifests, dirs);
    ResolvedExactly(paths, names, LocalDirectory(join, rel, spec), name);
    TargetIsResolved(join, rel, name, spec, PathIndex(paths, names));
  }

  lemma TargetIsResolved(
      join: (Text, Text) -> Text, rel: Text, name: Text, spec: Specifier, index: map<Text, Text>)
    requires LocalPath(spec).Some?
    ensures TargetOf(Yarn(Locals(join, index)), rel, name, spec) ==
            Resolved(index, LocalDirectory(join, rel, spec), name)
  {
  }

  lemma LastIsOne(paths: map<Text, Text>, names: seq<Text>, at: Text, i: nat, k: nat)
    requires IsLastAt(paths, names, at, i) && IsLastAt(paths, names, at, k)
    ensures i == k
  {
  }

  lemma LocalTargetIs(
      join: (Text, Text) -> Text, manifests: Manifests, dirs: seq<Text>, rel: Text, name: Text, spec: Specifier, i: nat)
    requires LocalPath(spec).Some?
    requires IsLastAt(
               PathsOf(manifests, dirs), NameOrder(Records(manifests, dirs)), LocalDirectory(join, rel, spec), i)
    ensures TargetOf(YarnStyle(join, manifests, dirs), rel, name, spec) == NameOrder(Records(manifests, dirs))[i]
  {
    var paths, names := PathsOf(manifests, dirs), NameOrder(Records(manifests, dirs));
    var at := LocalDirectory(join, rel, spec);
    LocalTargetExactly(join, manifests, dirs, rel, name, spec);
    assert !NoneAt(paths, names, at) by {
      assert names[i] in names;
    }
    var k: nat :| IsLastAt(paths, names, at, k) &&
                  TargetOf(YarnStyle(join, manifests, dirs), rel, name, spec) == names[k];
    LastIsOne(paths, names, at, i, k);
  }

  /** So an entry with a local specifier is declared as a dependency on that package. */
  lemma LocalDependency(
      join: (Text, Text) -> Text, manifests: Manifests, dirs: seq<Text>, rel: Text, pkg: Package, kind: Kind,
      block: Block, name: Text, i: nat)
    requires rel in dirs && Named(manifests, rel) == Some(pkg) && BlockOf(pkg, kind) == Some(block) && name in block
    requires LocalPath(block[name]).Some?
    requires var at := LocalDirectory(join, rel, block[name]);
             IsLastAt(PathsOf(manifests, dirs), NameOrder(Records(manifests, dirs)), at, i)
    ensures var target := NameOrder(Records(manifests, dirs))[i];
            Declares(YarnStyle(join, manifests, dirs), manifests, dirs, pkg.name.value,
                     Dep(target, kind, YarnProtocol(block[name])))
  {
    LocalTargetIs(join, manifests, dirs, rel, name, block[name], i);
    EntryDeclared(YarnStyle(join, manifests, dirs), manifests, dirs, rel, pkg, kind, block, name);
  }
}
