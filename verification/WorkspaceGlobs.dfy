/** The expansion of a workspace's whole glob list. */
module WorkspaceGlobs {
  import opened Globs
  import opened Regex
  import opened Sorting
  import opened Texts

  /** The non-empty segments of an inclusion pattern. */
  function GlobSegments(pattern: Text): seq<Text> {
    NonEmpty(Split(pattern, SLASH))
  }

  /** Patterns with `..` or `**` in them are not expanded. */
  predicate Expandable(pattern: Text) {
    !Contains(pattern, DOUBLE_DOT) && !Contains(pattern, DOUBLE_STAR)
  }

  /** `p` is one of the paths an inclusion glob expands to. */
  ghost predicate Expansion(root: Dir, glob: Text, p: Text) {
    var pattern := StripHere(glob);
    Expandable(pattern) && GlobSegments(pattern) != [] && Found(root, GlobSegments(pattern), [], p)
  }

  lemma GlobSegmentsAreComponents(pattern: Text)
    ensures Components(GlobSegments(pattern))
  {
    var segments := GlobSegments(pattern);
    SplitPieces(pattern, SLASH);
    forall i | 0 <= i < |segments| ensures segments[i] != [] && SLASH !in segments[i] {
      NonEmptyMembers(Split(pattern, SLASH), segments[i]);
    }
  }

  function InclusionWarnings(glob: Text): seq<Warning> {
    var pattern := StripHere(glob);
    if Contains(pattern, DOUBLE_DOT) then [ParentSegment(glob)]
    else if Contains(pattern, DOUBLE_STAR) then [RecursiveGlob(glob)]
    else []
  }

  /** The warnings of a list of patterns, one after the other. */
  function AllWarnings(warn: Text -> seq<Warning>, globs: seq<Text>): seq<Warning> {
    if globs == [] then [] else AllWarnings(warn, globs[..|globs| - 1]) + warn(globs[|globs| - 1])
  }

  lemma WarningsStep(warn: Text -> seq<Warning>, globs: seq<Text>, i: nat)
    requires i < |globs|
    ensures AllWarnings(warn, globs[..i + 1]) == AllWarnings(warn, globs[..i]) + warn(globs[i])
  {
    assert globs[..i + 1][..i] == globs[..i];
  }

  /** The expansion of one glob: exactly the existing directories with as many components as
      the pattern has segments, each matching its segment and none of them ignored. */
  method ExpandOne(root: Dir, glob: Text) returns (results: set<Text>, warnings: seq<Warning>)
    requires WellFormed(root)
    ensures forall p :: p in results <==> Expansion(root, glob, p)
    ensures warnings == InclusionWarnings(glob)
  {
    var pattern := StripHere(glob);
    if Contains(pattern, DOUBLE_DOT) {
      return {}, [ParentSegment(glob)];
    }
    if Contains(pattern, DOUBLE_STAR) {
      return {}, [RecursiveGlob(glob)];
    }
    var segments := NonEmpty(Split(pattern, SLASH));
    if |segments| == 0 {
      return {}, [];
    }
    GlobSegmentsAreComponents(pattern);
    var out := new PathSet();
    assert segments[0..] == segments;
    WalkSegments(root, segments, 0, [], out, []);
    return out.items, [];
  }

  // ---------------------------------------------------------------- the glob list

  predicate IsExclusion(glob: Text) {
    glob != [] && glob[0] == BANG
  }

  /** The inclusion patterns of a list, trimmed. */
  function Inclusions(globs: seq<Text>): (r: seq<Text>)
    ensures forall g :: g in r <==> g != [] && !IsExclusion(g) && exists raw :: raw in globs && Trim(raw) == g
  {
    if globs == [] then []
    else
      var n := |globs| - 1;
      var last := Trim(globs[n]);
      assert globs == globs[..n] + [globs[n]];
      Inclusions(globs[..n]) + if last != [] && !IsExclusion(last) then [last] else []
  }

  /** The exclusion patterns of a list, trimmed and without their `!`. */
  function Exclusions(globs: seq<Text>): (r: seq<Text>)
    ensures forall x :: x in r <==> exists raw :: raw in globs && Trim(raw) == [BANG] + x
  {
    if globs == [] then []
    else
      var n := |globs| - 1;
      var last := Trim(globs[n]);
      assert globs == globs[..n] + [globs[n]];
      assert IsExclusion(last) ==> last == [BANG] + last[1..];
      Exclusions(globs[..n]) + if IsExclusion(last) then [last[1..]] else []
  }

  ghost predicate Included(root: Dir, globs: seq<Text>, p: Text) {
    exists g :: g in Inclusions(globs) && Expansion(root, g, p)
  }

  /** The exclusion pattern `x` covers `p`. */
  ghost predicate Covers(x: Text, p: Text) {
    !Contains(StripHere(x), DOUBLE_DOT) && Matches(PatternTokens(StripHere(x)), p)
  }

  ghost predicate Excluded(globs: seq<Text>, p: Text) {
    exists x :: x in Exclusions(globs) && Covers(x, p)
  }

  /** What the expansion of a glob list is. */
  ghost predicate IsGlobExpansion(root: Dir, globs: seq<Text>, matched: seq<Text>, excluded: seq<Text>) {
    && Ascending(matched) && Ascending(excluded)
    && (forall p :: p in matched <==> Included(root, globs, p) && !Excluded(globs, p))
    && (forall p :: p in excluded <==> Included(root, globs, p) && Excluded(globs, p))
  }

  method Partition(globs: seq<Text>) returns (includes: seq<Text>, excludes: seq<Text>)
    ensures includes == Inclusions(globs) && excludes == Exclusions(globs)
  {
    includes, excludes := [], [];
    for i := 0 to |globs|
      invariant includes == Inclusions(globs[..i]) && excludes == Exclusions(globs[..i])
    {
      assert globs[..i + 1][..i] == globs[..i];
      var trimmed := Trim(globs[i]);
      if |trimmed| == 0 {
        continue;
      }
      if trimmed[0] == BANG {
        excludes := excludes + [trimmed[1..]];
      } else {
        includes := includes + [trimmed];
      }
    }
    assert globs[..|globs|] == globs;
  }

  ghost predicate AnyExpansion(root: Dir, includes: seq<Text>, p: Text) {
    exists g :: g in includes && Expansion(root, g, p)
  }

  method ExpandIncludes(root: Dir, includes: seq<Text>) returns (matched: set<Text>, warnings: seq<Warning>)
    requires WellFormed(root)
    ensures forall p :: p in matched <==> AnyExpansion(root, includes, p)
    ensures warnings == AllWarnings(InclusionWarnings, includes)
  {
    matched, warnings := {}, [];
    for i := 0 to |includes|
      invariant forall p :: p in matched <==> AnyExpansion(root, includes[..i], p)
      invariant warnings == AllWarnings(InclusionWarnings, includes[..i])
    {
      WarningsStep(InclusionWarnings, includes, i);
      var expansion, more := ExpandOne(root, includes[i]);
      assert includes[..i + 1] == includes[..i] + [includes[i]];
      matched := matched + expansion;
      warnings := warnings + more;
    }
    assert includes[..|includes|] == includes;
  }

  predicate AnyMatcher(matchers: seq<Text>, p: Text) {
    exists k :: 0 <= k < |matchers| && Test(matchers[k], p)
  }

  ghost predicate AnyCovers(excludes: seq<Text>, p: Text) {
    exists x :: x in excludes && Covers(x, p)
  }

  method BuildMatchers(excludes: seq<Text>) returns (matchers: seq<Text>, warnings: seq<Warning>)
    ensures forall p :: AnyMatcher(matchers, p) <==> AnyCovers(excludes, p)
    ensures warnings == AllWarnings(ExclusionWarnings, excludes)
  {
    matchers, warnings := [], [];
    for i := 0 to |excludes|
      invariant forall p :: AnyMatcher(matchers, p) <==> AnyCovers(excludes[..i], p)
      invariant warnings == AllWarnings(ExclusionWarnings, excludes[..i])
    {
      WarningsStep(ExclusionWarnings, excludes, i);
      var re, more := BuildGlobMatcher(excludes[i]);
      assert excludes[..i + 1] == excludes[..i] + [excludes[i]];
      assert forall p :: Covers(excludes[i], p) <==> re.Some? && Test(re.value, p);
      assert forall p :: AnyCovers(excludes[..i + 1], p) <==> AnyCovers(excludes[..i], p) || Covers(excludes[i], p);
      if re.Some? {
        AnyMatcherGrows(matchers, re.value);
        matchers := matchers + [re.value];
      }
      warnings := warnings + more;
    }
    assert excludes[..|excludes|] == excludes;
  }

  lemma AnyMatcherGrows(matchers: seq<Text>, re: Text)
    ensures forall p :: AnyMatcher(matchers + [re], p) <==> AnyMatcher(matchers, p) || Test(re, p)
  {
    var all := matchers + [re];
    forall p ensures AnyMatcher(all, p) <==> AnyMatcher(matchers, p) || Test(re, p) {
      assert all[|matchers|] == re;
      if AnyMatcher(matchers, p) {
        var k :| 0 <= k < |matchers| && Test(matchers[k], p);
        assert all[k] == matchers[k];
      }
    }
  }

  /** The paths looked at so far, split by the matchers. */
  ghost predicate Separated(seen: seq<Text>, matchers: seq<Text>, matched: seq<Text>, excluded: seq<Text>) {
    && Ascending(matched) && Ascending(excluded)
    && (forall p :: p in matched <==> p in seen && !AnyMatcher(matchers, p))
    && (forall p :: p in excluded <==> p in seen && AnyMatcher(matchers, p))
  }

  lemma SeparateOne(all: seq<Text>, i: nat, matchers: seq<Text>, matched: seq<Text>, excluded: seq<Text>)
    requires Ascending(all) && i < |all| && Separated(all[..i], matchers, matched, excluded)
    ensures AnyMatcher(matchers, all[i]) ==> Separated(all[..i + 1], matchers, matched, excluded + [all[i]])
    ensures !AnyMatcher(matchers, all[i]) ==> Separated(all[..i + 1], matchers, matched + [all[i]], excluded)
  {
    assert all[..i + 1] == all[..i] + [all[i]];
    forall p | p in all[..i] ensures Less(p, all[i]) {
      var j :| 0 <= j < i && all[j] == p;
    }
    assert forall j :: 0 <= j < |matched| ==> matched[j] in matched;
    assert forall j :: 0 <= j < |excluded| ==> excluded[j] in excluded;
  }

  method Separate(all: seq<Text>, matchers: seq<Text>) returns (matchedDirs: seq<Text>, excludedDirs: seq<Text>)
    requires Ascending(all)
    ensures Separated(all, matchers, matchedDirs, excludedDirs)
  {
    matchedDirs, excludedDirs := [], [];
    for i := 0 to |all|
      invariant Separated(all[..i], matchers, matchedDirs, excludedDirs)
    {
      var rel := all[i];
      SeparateOne(all, i, matchers, matchedDirs, excludedDirs);
      if AnyMatcher(matchers, rel) {
        excludedDirs := excludedDirs + [rel];
      } else {
        matchedDirs := matchedDirs + [rel];
      }
    }
    assert all[..|all|] == all;
  }

  method ExpandWorkspaceGlobs(root: Dir, globs: seq<Text>)
    returns (matchedDirs: seq<Text>, excludedDirs: seq<Text>, warnings: seq<Warning>)
    requires WellFormed(root)
    ensures IsGlobExpansion(root, globs, matchedDirs, excludedDirs)
    ensures warnings ==
            AllWarnings(InclusionWarnings, Sort(Leq, Inclusions(globs))) +
            AllWarnings(ExclusionWarnings, Sort(Leq, Exclusions(globs)))
  {
    var includes, excludes := Partition(globs);
    includes, excludes := Sort(Leq, includes), Sort(Leq, excludes);
    var matched, matchers, more;
    matched, warnings := ExpandIncludes(root, includes);
    matchers, more := BuildMatchers(excludes);
    warnings := warnings + more;

    var all := SortedElements(matched);
    SortSetAscending(matched);
    matchedDirs, excludedDirs := Separate(all, matchers);
    SortOfSorted(Leq, excludedDirs);
    excludedDirs := Sort(Leq, excludedDirs);
    SortedPatterns(root, globs);
  }

  lemma SortedPatterns(root: Dir, globs: seq<Text>)
    ensures forall p :: AnyExpansion(root, Sort(Leq, Inclusions(globs)), p) <==> Included(root, globs, p)
    ensures forall p :: AnyCovers(Sort(Leq, Exclusions(globs)), p) <==> Excluded(globs, p)
  {
    SortMembers(Leq, Inclusions(globs));
    SortMembers(Leq, Exclusions(globs));
  }

  /** The two result lists partition the expansion, and they depend on the set of globs alone:
      not on their order or repetition. */
  lemma GlobOrderIrrelevant(
      root: Dir, globs: seq<Text>, globs': seq<Text>,
      matched: seq<Text>, excluded: seq<Text>, matched': seq<Text>, excluded': seq<Text>)
    requires IsGlobExpansion(root, globs, matched, excluded)
    requires IsGlobExpansion(root, globs', matched', excluded')
    requires forall g :: g in globs <==> g in globs'
    ensures matched == matched' && excluded == excluded'
    ensures forall p :: p in matched || p in excluded <==> Included(root, globs, p)
    ensures forall p :: !(p in matched && p in excluded)
  {
    assert forall g :: g in Inclusions(globs) <==> g in Inclusions(globs');
    assert forall x :: x in Exclusions(globs) <==> x in Exclusions(globs');
    assert forall p :: Included(root, globs, p) <==> Included(root, globs', p);
    assert forall p :: Excluded(globs, p) <==> Excluded(globs', p);
    AscendingUnique(matched, matched');
    AscendingUnique(excluded, excluded');
  }

  // ------------------------------------------------------- the two matchers compared

  lemma {:induction false} PatternIsSegment(pattern: Text)
    requires !Contains(pattern, DOUBLE_STAR)
    ensures PatternTokens(pattern) == SegmentTokens(pattern)
  {
    if pattern == [] {
    } else {
      assert StartsDoubleStar(pattern) ==> DOUBLE_STAR <= pattern;
      PatternIsSegment(pattern[1..]);
      SegmentTokensCons(pattern);
      assert SegmentTokens(pattern) == [SegmentTokens(pattern)[0]] + SegmentTokens(pattern)[1..];
    }
  }

  /** How many slashes a text has. */
  function Slashes(t: Text): nat {
    if t == [] then 0 else (if t[0] == SLASH then 1 else 0) + Slashes(t[1..])
  }

  /** A `**`-free pattern only matches texts with as many slashes as it has itself. */
  lemma {:induction false} MatchKeepsSlashes(pattern: Text, t: Text)
    requires SegmentMatches(pattern, t)
    ensures Slashes(t) == Slashes(pattern)
    decreases |pattern|, |t|
  {
    if pattern == [] {
    } else {
      SegmentTokensCons(pattern);
      if pattern[0] != STAR {
        MatchKeepsSlashes(pattern[1..], t[1..]);
      } else if SegmentMatches(pattern[1..], t) {
        MatchKeepsSlashes(pattern[1..], t);
      } else {
        MatchKeepsSlashes(pattern, t[1..]);
      }
    }
  }

  lemma {:induction false} SlashesConcat(a: Text, b: Text)
    ensures Slashes(a + b) == Slashes(a) + Slashes(b)
  {
    if a == [] {
      assert a + b == b;
    } else {
      assert (a + b)[1..] == a[1..] + b;
      SlashesConcat(a[1..], b);
    }
  }

  lemma {:induction false} NoSlashes(t: Text)
    ensures Slashes(t) == 0 <==> SLASH !in t
  {
    if t == [] {
    } else {
      NoSlashes(t[1..]);
      assert t == [t[0]] + t[1..];
    }
  }

  lemma {:induction false} PathSlashes(components: seq<Text>)
    requires components != [] && Components(components)
    ensures Slashes(JoinPath(components)) == |components| - 1
  {
    NoSlashes(components[0]);
    if |components| == 1 {
    } else {
      PathSlashes(components[1..]);
      SlashesConcat(components[0] + [SLASH], JoinPath(components[1..]));
      SlashesConcat(components[0], [SLASH]);
      assert [SLASH][1..] == [];
    }
  }

  /** Matching across the first slash: the piece before it against the first segment, the
      rest against the rest. */
  lemma {:induction false} MatchAcrossSlash(segment: Text, pattern: Text, piece: Text, t: Text)
    requires SLASH !in segment && SLASH !in piece
    ensures SegmentMatches(segment + [SLASH] + pattern, piece + [SLASH] + t) <==>
            SegmentMatches(segment, piece) && SegmentMatches(pattern, t)
    decreases |segment|, |piece|
  {
    var whole, path := segment + [SLASH] + pattern, piece + [SLASH] + t;
    SegmentTokensCons(whole);
    if piece != [] {
      assert path[1..] == piece[1..] + [SLASH] + t;
    } else {
      assert path[1..] == t;
    }
    if segment == [] {
      assert whole[1..] == pattern;
    } else {
      assert whole[1..] == segment[1..] + [SLASH] + pattern;
      SegmentTokensCons(segment);
      if segment[0] == STAR {
        MatchAcrossSlash(segment[1..], pattern, piece, t);
      }
      if piece != [] {
        MatchAcrossSlash(if segment[0] == STAR then segment else segment[1..], pattern, piece[1..], t);
      }
    }
  }

  /** The two matchers agree: the whole-path matcher accepts a path exactly when the path has
      as many components as the pattern has segments and each matches its segment. */
  lemma {:induction false} MatchersAgree(segments: seq<Text>, components: seq<Text>)
    requires segments != [] && Components(segments) && components != [] && Components(components)
    ensures SegmentMatches(JoinPath(segments), JoinPath(components)) <==>
            |segments| == |components| &&
            forall i :: 0 <= i < |segments| ==> SegmentMatches(segments[i], components[i])
    decreases |segments|
  {
    if |segments| > 1 && |components| > 1 {
      MatchAcrossSlash(segments[0], JoinPath(segments[1..]), components[0], JoinPath(components[1..]));
      MatchersAgree(segments[1..], components[1..]);
      if SegmentMatches(JoinPath(segments), JoinPath(components)) {
        forall i | 0 <= i < |segments| ensures SegmentMatches(segments[i], components[i]) {
          if i > 0 {
            assert SegmentMatches(segments[1..][i - 1], components[1..][i - 1]);
          }
        }
      }
    } else {
      PathSlashes(segments);
      PathSlashes(components);
      if SegmentMatches(JoinPath(segments), JoinPath(components)) {
        MatchKeepsSlashes(JoinPath(segments), JoinPath(components));
      }
    }
  }

  /** A pattern all of whose segments are non-empty: no leading, trailing or double slash. */
  predicate Normalised(pattern: Text) {
    [] !in Split(pattern, SLASH)
  }

  lemma {:induction false} SplitCounts(t: Text)
    ensures |Split(t, SLASH)| == Slashes(t) + 1
  {
    if t == [] {
    } else {
      SplitCounts(t[1..]);
    }
  }

  lemma {:induction false} NonEmptyShorter(parts: seq<Text>)
    ensures |NonEmpty(parts)| <= |parts|
    ensures [] in parts ==> |NonEmpty(parts)| < |parts|
  {
    if parts == [] {
    } else {
      var front := parts[..|parts| - 1];
      NonEmptyShorter(front);
      assert parts == front + [parts[|parts| - 1]];
    }
  }

  lemma TrimmedExclusion(g: Text)
    requires g != [] && Trim(g) == g
    ensures Trim([BANG] + g) == [BANG] + g
  {
    TrimEndClean(TrimStart(g));
    var t := [BANG] + g;
    assert TrimStart(t) == t;
    assert t[|t| - 1] == g[|g| - 1];
  }

  lemma {:induction false} TrimEndClean(t: Text)
    ensures TrimEnd(t) != [] ==> !IsWhiteSpace(TrimEnd(t)[|TrimEnd(t)| - 1])
  {
    if t == [] || !IsWhiteSpace(t[|t| - 1]) {
    } else {
      TrimEndClean(t[..|t| - 1]);
    }
  }

  /** What a path found by the walk looks like to the whole-path matcher. */
  lemma ExpansionCovered(root: Dir, g: Text, p: Text)
    requires Expansion(root, g, p)
    ensures Covers(g, p) <==> Normalised(StripHere(g))
  {
    var pattern := StripHere(g);
    var parts, segments := Split(pattern, SLASH), GlobSegments(pattern);
    var components :| Expands(root, segments, components) && p == JoinPath([] + components);
    assert [] + components == components;
    GlobSegmentsAreComponents(pattern);
    forall i | 0 <= i < |components| ensures components[i] != [] && SLASH !in components[i] {
      assert Allowed(segments[i], components[i]);
      MatchKeepsSlashes(segments[i], components[i]);
      NoSlashes(segments[i]);
      NoSlashes(components[i]);
    }
    PatternIsSegment(pattern);
    if Normalised(pattern) {
      assert forall i :: 0 <= i < |parts| ==> parts[i] in parts;
      NonEmptyAll(parts);
      JoinSplit(pattern, SLASH);
      assert forall i :: 0 <= i < |segments| ==> Allowed(segments[i], components[i]);
      MatchersAgree(segments, components);
    } else {
      PathSlashes(components);
      SplitCounts(pattern);
      NonEmptyShorter(parts);
      if SegmentMatches(pattern, p) {
        MatchKeepsSlashes(pattern, p);
      }
    }
  }

  // Including `g` and excluding `!g` together leaves nothing exactly when `g`'s pattern has
  // no empty segment or expands to nothing: a pattern with a slash at its end is expanded,
  // but its own exclusion matches none of the paths.
  lemma SelfExclusion(root: Dir, g: Text, matched: seq<Text>, excluded: seq<Text>)
    requires g != [] && Trim(g) == g && g[0] != BANG
    requires IsGlobExpansion(root, [g, [BANG] + g], matched, excluded)
    ensures forall p :: p in matched <==> Expansion(root, g, p) && !Normalised(StripHere(g))
    ensures matched == [] <==> Normalised(StripHere(g)) || forall p :: !Expansion(root, g, p)
  {
    var globs := [g, [BANG] + g];
    TrimmedExclusion(g);
    assert globs[0] == g && globs[1] == [BANG] + g;
    assert forall x :: x in Inclusions(globs) <==> x == g;
    assert [BANG] + g in globs;
    forall x ensures x in Exclusions(globs) <==> x == g {
      if x in Exclusions(globs) {
        assert [BANG] + x == [BANG] + g;
        assert ([BANG] + x)[1..] == x && ([BANG] + g)[1..] == g;
      }
    }
    forall p ensures p in matched <==> Expansion(root, g, p) && !Covers(g, p) {
      assert Included(root, globs, p) <==> Expansion(root, g, p);
      assert Excluded(globs, p) <==> Covers(g, p);
    }
    forall p | Expansion(root, g, p) ensures Covers(g, p) <==> Normalised(StripHere(g)) {
      ExpansionCovered(root, g, p);
    }
    if matched != [] {
      assert matched[0] in matched;
    }
  }

  /** A directory of one name with one directory in it. */
  function Nested(parent: Text, child: Text): Dir {
    Dir(map[parent := Folder(Dir(map[child := Folder(Dir(map[]))]))])
  }

  /** A name that is not ignored and means nothing but itself in a pattern. */
  predicate Plain(name: Text) {
    && name != [] && name !in ALWAYS_IGNORE
    && SLASH !in name && STAR !in name && DOT !in name && BANG !in name
    && forall i :: 0 <= i < |name| ==> !IsWhiteSpace(name[i])
  }

  lemma {:induction false} StarMatches(t: Text)
    requires SLASH !in t
    ensures SegmentMatches([STAR], t)
  {
    assert SegmentTokens([STAR]) == [NoSlashRun];
    if t == [] {
    } else {
      StarMatches(t[1..]);
    }
  }

  lemma NestedExpands(parent: Text, child: Text)
    requires Plain(parent) && Plain(child)
    ensures Expands(Nested(parent, child), [parent, [STAR]], [parent, child])
  {
    MatchLiteral(parent, [], parent);
    assert SegmentTokens(parent) + [] == SegmentTokens(parent);
    StarMatches(child);
    var root, inner := Nested(parent, child), Nested(parent, child).entries[parent].dir;
    assert parent != [DOT] && child != [DOT];
    assert [parent, child][1..] == [child] && [child][1..] == [];
    assert Lookup(inner, [child]).Some?;
    assert Lookup(root, [parent, child]) == Lookup(inner, [child]);
  }

  // `parent/*/`
  function ChildrenGlob(parent: Text): Text {
    parent + [SLASH, STAR, SLASH]
  }

  lemma ChildrenSegments(parent: Text)
    requires Plain(parent)
    ensures GlobSegments(ChildrenGlob(parent)) == [parent, [STAR]] && !Normalised(ChildrenGlob(parent))
  {
    var tail := [STAR, SLASH];
    assert ChildrenGlob(parent) == parent + [SLASH] + tail;
    SplitAfterPiece(parent, tail, SLASH);
    assert tail == [STAR] + [SLASH] + [];
    SplitAfterPiece([STAR], [], SLASH);
    assert [parent] + ([[STAR]] + [[]]) == [parent, [STAR], []];
    var parts := [parent, [STAR], []];
    assert parts[2] == [] && parts[..2] == [parent, [STAR]];
    NonEmptyAll([parent, [STAR]]);
  }

  /** A pattern with a unit that is not in the text does not occur in it. */
  lemma {:induction false} NotContained(t: Text, part: Text, c: CodeUnit)
    requires c in part && c !in t
    ensures !Contains(t, part)
  {
    if t == [] {
    } else {
      NotContained(t[1..], part, c);
    }
  }

  lemma PrefixFails(part: Text, t: Text, i: nat)
    requires i < |part| && (i < |t| ==> t[i] != part[i])
    ensures !(part <= t)
  {
  }

  lemma {:induction false} NoDoubleStar(a: Text, b: Text)
    requires STAR !in a && STAR !in b
    ensures !Contains(a + [STAR] + b, DOUBLE_STAR)
  {
    var t := a + [STAR] + b;
    if a == [] {
      assert t[1..] == b;
      NotContained(b, DOUBLE_STAR, STAR);
      PrefixFails(DOUBLE_STAR, t, 1);
    } else {
      assert t[1..] == a[1..] + [STAR] + b;
      PrefixFails(DOUBLE_STAR, t, 0);
      NoDoubleStar(a[1..], b);
    }
  }

  lemma ChildrenExpandable(parent: Text)
    requires Plain(parent)
    ensures Expandable(ChildrenGlob(parent))
  {
    var g := ChildrenGlob(parent);
    NotContained(g, DOUBLE_DOT, DOT);
    assert g == parent + [SLASH] + [STAR] + [SLASH];
    NoDoubleStar(parent + [SLASH], [SLASH]);
  }

  lemma ChildrenUntouched(parent: Text)
    requires Plain(parent)
    ensures var g := ChildrenGlob(parent); Trim(g) == g && StripHere(g) == g && g[0] != BANG
  {
    var g := ChildrenGlob(parent);
    assert g[0] == parent[0] && g[|g| - 1] == SLASH;
    assert Ascii("./")[0] == DOT;
  }

  lemma FoundHere(d: Dir, segments: seq<Text>, components: seq<Text>)
    requires Expands(d, segments, components)
    ensures Found(d, segments, [], JoinPath(components))
  {
    assert [] + components == components;
  }

  // For every such name: including `parent/*/` and excluding it again leaves the path of the
  // directory below `parent` in.
  lemma TrailingSlashSurvives(parent: Text, child: Text, matched: seq<Text>, excluded: seq<Text>)
    requires Plain(parent) && Plain(child)
    requires IsGlobExpansion(
               Nested(parent, child), [ChildrenGlob(parent), [BANG] + ChildrenGlob(parent)], matched, excluded)
    ensures parent + [SLASH] + child in matched
  {
    var g, root := ChildrenGlob(parent), Nested(parent, child);
    var p := parent + [SLASH] + child;
    ChildrenUntouched(parent);
    ChildrenSegments(parent);
    ChildrenExpandable(parent);
    NestedExpands(parent, child);
    FoundHere(root, [parent, [STAR]], [parent, child]);
    JoinCons(parent, [child], [SLASH]);
    assert [parent] + [child] == [parent, child];
    assert Expansion(root, g, p);
    SelfExclusion(root, g, matched, excluded);
  }

  // In particular `apps/web` under `apps/*/` and `!apps/*/`.
  lemma AppsWebSurvives(matched: seq<Text>, excluded: seq<Text>)
    requires IsGlobExpansion(
               Nested(Ascii("apps"), Ascii("web")), [Ascii("apps/*/"), Ascii("!apps/*/")], matched, excluded)
    ensures Ascii("apps/web") in matched
  {
    var apps, web := Ascii("apps"), Ascii("web");
    assert apps[0] == 0x61 && |web| == 3;
    assert Ascii("apps/*/") == ChildrenGlob(apps);
    assert Ascii("!apps/*/") == [BANG] + ChildrenGlob(apps);
    assert Ascii("apps/web") == apps + [SLASH] + web;
    TrailingSlashSurvives(apps, web, matched, excluded);
  }

  // --------------------------------------------------- what a recursive exclusion covers

  lemma {:induction false} MatchLiteral(literal: Text, tokens: seq<Token>, t: Text)
    requires STAR !in literal
    ensures Matches(SegmentTokens(literal) + tokens, t) <==>
            literal <= t && Matches(tokens, t[|literal|..])
    decreases |literal|
  {
    if literal == [] {
      assert SegmentTokens(literal) + tokens == tokens;
      assert t[0..] == t;
    } else {
      SegmentTokensCons(literal);
      var all := SegmentTokens(literal) + tokens;
      assert all[1..] == SegmentTokens(literal[1..]) + tokens;
      if t != [] && t[0] == literal[0] {
        MatchLiteral(literal[1..], tokens, t[1..]);
        assert literal <= t <==> literal[1..] <= t[1..];
        if literal <= t {
          assert t[1..][|literal| - 1..] == t[|literal|..];
        }
      }
    }
  }

  lemma {:induction false} MatchRun(tokens: seq<Token>, t: Text)
    ensures Matches([AnyRun] + tokens, t) <==>
            exists n :: 0 <= n <= |t| && OneLine(t[..n]) && Matches(tokens, t[n..])
    decreases |t|
  {
    var all := [AnyRun] + tokens;
    assert all[1..] == tokens;
    assert t[0..] == t && OneLine(t[..0]);
    if t == [] {
    } else {
      MatchRun(tokens, t[1..]);
      if n :| 0 <= n <= |t[1..]| && OneLine(t[1..][..n]) && Matches(tokens, t[1..][n..]) {
        assert t[..n + 1] == [t[0]] + t[1..][..n];
        assert t[n + 1..] == t[1..][n..];
        assert !IsLineTerminator(t[0]) ==> OneLine(t[..n + 1]);
      }
      if n :| 0 < n <= |t| && OneLine(t[..n]) && Matches(tokens, t[n..]) {
        assert t[..n][0] == t[0];
        assert t[1..][..n - 1] == t[..n][1..];
        assert t[1..][n - 1..] == t[n..];
      }
    }
  }

  // A name between two recursive wildcards.
  function RecursivePattern(name: Text): Text {
    [STAR, STAR, SLASH] + (name + [SLASH] + [STAR, STAR])
  }

  lemma PrependOne(token: Token, tokens: seq<Token>, rest: seq<Token>)
    requires tokens != [] && tokens[0] == token
    ensures tokens + rest == [token] + (tokens[1..] + rest)
  {
  }

  lemma {:induction false} LiteralPatternTokens(literal: Text, rest: Text)
    requires STAR !in literal
    ensures PatternTokens(literal + rest) == SegmentTokens(literal) + PatternTokens(rest)
  {
    if literal == [] {
      assert literal + rest == rest;
    } else {
      var all := literal + rest;
      assert all[0] == literal[0] != STAR;
      assert all[1..] == literal[1..] + rest;
      LiteralPatternTokens(literal[1..], rest);
      SegmentTokensCons(literal);
      PrependOne(UnitToken(literal[0]), SegmentTokens(literal), PatternTokens(rest));
    }
  }

  /** `t` has the name and a slash at position `n`, on one line. */
  ghost predicate NameAt(name: Text, t: Text, n: nat) {
    n <= |t| && OneLine(t[..n]) && (name + [SLASH]) <= t[n..] && OneLine(t[n..][|name| + 1..])
  }

  // A recursive exclusion of a name covers a path exactly when the path contains the name
  // followed by a slash, at any position.
  lemma RecursiveExclusion(name: Text, t: Text)
    requires STAR !in name
    ensures Matches(PatternTokens(RecursivePattern(name)), t) <==> exists n: nat :: NameAt(name, t, n)
  {
    var tokens := SegmentTokens(name + [SLASH]) + [AnyRun];
    RecursivePatternTokens(name);
    MatchRun(tokens, t);
    forall n: nat | n <= |t|
      ensures NameAt(name, t, n) <==> OneLine(t[..n]) && Matches(tokens, t[n..])
    {
      NameAtStart(name, t[n..]);
    }
  }

  lemma NameAtStart(name: Text, t: Text)
    requires STAR !in name
    ensures Matches(SegmentTokens(name + [SLASH]) + [AnyRun], t) <==>
            (name + [SLASH]) <= t && OneLine(t[|name| + 1..])
  {
    MatchLiteral(name + [SLASH], [AnyRun], t);
    if (name + [SLASH]) <= t {
      AnyRunMatches(t[|name| + 1..]);
    }
  }

  lemma TrailingStars()
    ensures PatternTokens([STAR, STAR]) == [AnyRun]
  {
    assert [STAR, STAR][2..] == [];
  }

  lemma RecursiveStart(inner: Text)
    ensures PatternTokens([STAR, STAR, SLASH] + inner) == [AnyRun] + PatternTokens(inner)
  {
    assert ([STAR, STAR, SLASH] + inner)[3..] == inner;
  }

  lemma RecursivePatternTokens(name: Text)
    requires STAR !in name
    ensures PatternTokens(RecursivePattern(name)) == [AnyRun] + (SegmentTokens(name + [SLASH]) + [AnyRun])
  {
    var inner := name + [SLASH] + [STAR, STAR];
    LiteralPatternTokens(name + [SLASH], [STAR, STAR]);
    TrailingStars();
    RecursiveStart(inner);
  }

  // In particular a directory of that name at the top is not covered: its path has no slash
  // after the name.
  lemma RecursiveExclusionSkipsTheDirectory(name: Text)
    requires STAR !in name && SLASH !in name && name != []
    ensures !Matches(PatternTokens(RecursivePattern(name)), name)
  {
    RecursiveExclusion(name, name);
    forall n: nat ensures !NameAt(name, name, n) {
      assert n <= |name| ==> |name[n..]| <= |name|;
    }
  }

  lemma {:induction false} ContainsAt(t: Text, part: Text)
    ensures Contains(t, part) <==> exists n: nat :: n <= |t| && part <= t[n..]
  {
    assert t[0..] == t;
    if t == [] {
    } else {
      ContainsAt(t[1..], part);
      if n: nat :| n <= |t[1..]| && part <= t[1..][n..] {
        assert t[1..][n..] == t[n + 1..];
      }
      if n: nat :| 0 < n <= |t| && part <= t[n..] {
        assert t[1..][n - 1..] == t[n..];
      }
    }
  }

  lemma {:induction false} OneLineConcat(a: Text, b: Text)
    requires OneLine(a) && OneLine(b)
    ensures OneLine(a + b)
  {
  }

  // A name followed by a slash ends in the part before the last component, when that has no
  // slash.
  lemma NameBeforeLast(parent: Text, name: Text, n: nat)
    requires SLASH !in name && n <= |parent| + 1 + |name|
    ensures (name + [SLASH]) <= (parent + [SLASH] + name)[n..] <==>
            n <= |parent| + 1 && (name + [SLASH]) <= (parent + [SLASH])[n..]
  {
    var p, q, part := parent + [SLASH] + name, parent + [SLASH], name + [SLASH];
    if part <= p[n..] {
      assert p[n + |name|] == part[|name|] == SLASH;
      assert n + |name| <= |parent|;
      assert p[n..][..|part|] == q[n..][..|part|];
    }
    if n <= |q| && part <= q[n..] {
      assert p[n..][..|part|] == q[n..][..|part|];
    }
  }

  // A nested directory of that name is covered exactly when its parent's path, with a slash
  // after it, has the name and a slash in it: when a component above it ends with the name.
  lemma NestedExclusionExactly(parent: Text, name: Text)
    requires STAR !in name && SLASH !in name && OneLine(parent) && OneLine(name)
    ensures Matches(PatternTokens(RecursivePattern(name)), parent + [SLASH] + name) <==>
            Contains(parent + [SLASH], name + [SLASH])
  {
    var p := parent + [SLASH] + name;
    OneLineConcat(parent, [SLASH]);
    OneLineConcat(parent + [SLASH], name);
    RecursiveExclusion(name, p);
    ContainsAt(parent + [SLASH], name + [SLASH]);
    forall n: nat | n <= |p|
      ensures NameAt(name, p, n) <==> n <= |parent| + 1 && (name + [SLASH]) <= (parent + [SLASH])[n..]
    {
      NameBeforeLast(parent, name, n);
    }
  }

  // So excluding `x` everywhere covers `x/x` and `ax/x`, but not `a/x`.
  lemma NestedExamples()
    ensures var tokens := PatternTokens(RecursivePattern(Ascii("x")));
            Matches(tokens, Ascii("x/x")) && Matches(tokens, Ascii("ax/x")) && !Matches(tokens, Ascii("a/x"))
  {
    var a, x := Ascii("a"), Ascii("x");
    assert a[0] == 0x61 && x[0] == 0x78;
    assert Ascii("x/x") == x + [SLASH] + x && Ascii("a/x") == a + [SLASH] + x;
    assert Ascii("ax/x") == (a + x) + [SLASH] + x;
    NestedExclusionExactly(x, x);
    NestedExclusionExactly(a + x, x);
    NestedExclusionExactly(a, x);
    assert (a + x + [SLASH])[1..] == x + [SLASH];
    NotContained(a + [SLASH], x + [SLASH], x[0]);
  }

  lemma AnyRunMatches(t: Text)
    ensures Matches([AnyRun], t) <==> OneLine(t)
  {
    assert [AnyRun] == [AnyRun] + [];
    MatchRun([], t);
    if OneLine(t) {
      assert t[..|t|] == t && t[|t|..] == [];
    }
  }
}
