/** Workspace glob expansion: the directory walk for inclusion patterns, the whole-path
    matcher for exclusion patterns, and how the two relate. */
module Globs {
  import opened Regex
  import opened Results
  import opened Sorting
  import opened Texts

  // ------------------------------------------------------------- directory tree

  /** A directory: its entries by name. There are no symbolic links. */
  datatype Dir = Dir(entries: map<Text, Entry>)

  datatype Entry = File | Folder(dir: Dir)

  const DOT: CodeUnit := 0x2E
  const BANG: CodeUnit := 0x21

  const ALWAYS_IGNORE: set<Text> := {
    Ascii("node_modules"), Ascii(".git"), Ascii("dist"), Ascii("build"),
    Ascii(".turbo"), Ascii(".next"), Ascii(".arch-engine"), Ascii(".pnpm-store")
  }

  /** A name an entry can have. */
  predicate IsName(name: Text) {
    name != [] && SLASH !in name && name != [DOT]
  }

  ghost predicate WellFormed(d: Dir) {
    forall name <- d.entries :: IsName(name) && (d.entries[name].Folder? ==> WellFormed(d.entries[name].dir))
  }

  /** The directory a list of path components leads to; empty components and `.` stay put. */
  function Lookup(d: Dir, components: seq<Text>): Option<Dir>
    decreases |components|
  {
    if components == [] then Some(d)
    else if components[0] == [] || components[0] == [DOT] then Lookup(d, components[1..])
    else if components[0] in d.entries && d.entries[components[0]].Folder? then
      Lookup(d.entries[components[0]].dir, components[1..])
    else None
  }

  /** `path.join(cwd, rel)` as a directory, or nothing. */
  function Resolve(root: Dir, rel: Text): Option<Dir> {
    Lookup(root, Split(rel, SLASH))
  }

  function JoinPath(components: seq<Text>): Text {
    Join(components, [SLASH])
  }

  ghost predicate Components(components: seq<Text>) {
    forall i :: 0 <= i < |components| ==> components[i] != [] && SLASH !in components[i]
  }

  lemma ResolveJoinPath(root: Dir, components: seq<Text>)
    requires Components(components)
    ensures Resolve(root, JoinPath(components)) == Lookup(root, components)
  {
    if components == [] {
      assert Split([], SLASH) == [[]];
      assert Lookup(root, [[]]) == Lookup(root, [[]][1..]);
    } else {
      assert forall c <- components :: SLASH !in c;
      SplitJoin(components, SLASH);
    }
  }

  lemma {:induction false} LookupConcat(d: Dir, a: seq<Text>, b: seq<Text>)
    ensures Lookup(d, a + b) == if Lookup(d, a).Some? then Lookup(Lookup(d, a).value, b) else None
    decreases |a|
  {
    if a == [] {
      assert a + b == b;
    } else {
      assert (a + b)[1..] == a[1..] + b;
      if a[0] == [] || a[0] == [DOT] {
        LookupConcat(d, a[1..], b);
      } else if a[0] in d.entries && d.entries[a[0]].Folder? {
        LookupConcat(d.entries[a[0]].dir, a[1..], b);
      }
    }
  }

  // --------------------------------------------------------------------- patterns

  function UnitToken(c: CodeUnit): Token {
    if c == STAR then NoSlashRun else Unit(c)
  }

  /** What one path segment of a pattern matches. */
  function SegmentTokens(segment: Text): (tokens: seq<Token>)
    ensures |tokens| == |segment|
    ensures forall i :: 0 <= i < |segment| ==> tokens[i] == UnitToken(segment[i])
  {
    if segment == [] then []
    else SegmentTokens(segment[..|segment| - 1]) + [UnitToken(segment[|segment| - 1])]
  }

  predicate SegmentMatches(segment: Text, name: Text) {
    Matches(SegmentTokens(segment), name)
  }

  /** The builder's loop: one piece of expression text per unit of the segment. */
  method SegmentToRegex(segment: Text) returns (re: Text)
    ensures re == RegexText(SegmentTokens(segment))
    ensures forall name :: Test(re, name) == SegmentMatches(segment, name)
  {
    var pattern := [CARET];
    for i := 0 to |segment|
      invariant pattern == [CARET] + TokensText(SegmentTokens(segment[..i]))
    {
      var ch := segment[i];
      ghost var sofar := pattern;
      if ch == STAR {
        pattern := pattern + NO_SLASH_RUN;
      } else if IsEscaped(ch) {
        pattern := pattern + [ESCAPE, ch];
      } else {
        pattern := pattern + [ch];
      }
      assert pattern == sofar + TokenText(UnitToken(ch));
      GrowText(SegmentTokens(segment[..i]), UnitToken(ch));
      SegmentTokensGrow(segment, i);
    }
    assert segment[..|segment|] == segment;
    re := pattern + [DOLLAR];
    RegexRoundTrip(SegmentTokens(segment));
  }

  lemma SegmentTokensGrow(segment: Text, i: nat)
    requires i < |segment|
    ensures SegmentTokens(segment[..i + 1]) == SegmentTokens(segment[..i]) + [UnitToken(segment[i])]
  {
  }

  const DOUBLE_STAR: Text := [STAR, STAR]
  const DOUBLE_DOT: Text := [DOT, DOT]

  predicate StartsDoubleStar(t: Text) {
    |t| >= 2 && t[0] == STAR && t[1] == STAR
  }

  /** What a whole exclusion pattern matches: `**` and a slash after it become `.*`. */
  function PatternTokens(pattern: Text): seq<Token> {
    if pattern == [] then []
    else if StartsDoubleStar(pattern) then
      [AnyRun] + PatternTokens(if |pattern| > 2 && pattern[2] == SLASH then pattern[3..] else pattern[2..])
    else [UnitToken(pattern[0])] + PatternTokens(pattern[1..])
  }

  lemma {:induction false} PatternTokensStarFree(pattern: Text)
    ensures StarFree(PatternTokens(pattern))
    decreases |pattern|
  {
    if pattern == [] {
    } else if StartsDoubleStar(pattern) {
      PatternTokensStarFree(if |pattern| > 2 && pattern[2] == SLASH then pattern[3..] else pattern[2..]);
    } else {
      PatternTokensStarFree(pattern[1..]);
    }
  }

  datatype Warning = ParentSegment(glob: Text) | RecursiveGlob(glob: Text) | ExcludedParentSegment(glob: Text)

  function ExclusionWarnings(glob: Text): seq<Warning> {
    if Contains(StripHere(glob), DOUBLE_DOT) then [ExcludedParentSegment(glob)] else []
  }

  /** The exclusion matcher's builder. `None` is a pattern that is ignored with a warning. */
  method BuildGlobMatcher(glob: Text) returns (re: Option<Text>, warnings: seq<Warning>)
    ensures re.None? <==> Contains(StripHere(glob), DOUBLE_DOT)
    ensures warnings == ExclusionWarnings(glob)
    ensures re.Some? ==> re.value == RegexText(PatternTokens(StripHere(glob)))
    ensures re.Some? ==> forall t :: Test(re.value, t) == Matches(PatternTokens(StripHere(glob)), t)
  {
    var pattern := StripHere(glob);
    if Contains(pattern, DOUBLE_DOT) {
      return None, [ExcludedParentSegment(glob)];
    }
    ghost var tokens: seq<Token> := [];
    var text := [CARET];
    var i := 0;
    while i < |pattern|
      invariant 0 <= i <= |pattern|
      invariant text == [CARET] + TokensText(tokens)
      invariant tokens + PatternTokens(pattern[i..]) == PatternTokens(pattern)
    {
      var ch := pattern[i];
      ghost var token, sofar := if StartsDoubleStar(pattern[i..]) then AnyRun else UnitToken(ch), text;
      PatternStep(pattern, i, tokens);
      GrowText(tokens, token);
      if ch == STAR && i + 1 < |pattern| && pattern[i + 1] == STAR {
        text := text + ANY_RUN;
        i := i + 2;
        if i < |pattern| && pattern[i] == SLASH {
          i := i + 1;
        }
      } else if ch == STAR {
        text := text + NO_SLASH_RUN;
        i := i + 1;
      } else if IsEscaped(ch) {
        text := text + [ESCAPE, ch];
        i := i + 1;
      } else {
        text := text + [ch];
        i := i + 1;
      }
      assert text == sofar + TokenText(token);
      tokens := tokens + [token];
    }
    assert tokens == PatternTokens(pattern);
    PatternTokensStarFree(pattern);
    RegexRoundTrip(tokens);
    re, warnings := Some(text + [DOLLAR]), [];
  }

  /** Where the loop is after one piece of the pattern. */
  function NextIndex(pattern: Text, i: nat): (n: nat)
    requires i < |pattern|
    ensures i < n <= |pattern|
  {
    if pattern[i] == STAR && i + 1 < |pattern| && pattern[i + 1] == STAR then
      if i + 2 < |pattern| && pattern[i + 2] == SLASH then i + 3 else i + 2
    else i + 1
  }

  lemma PatternStep(pattern: Text, i: nat, tokens: seq<Token>)
    requires i < |pattern| && tokens + PatternTokens(pattern[i..]) == PatternTokens(pattern)
    ensures StartsDoubleStar(pattern[i..]) <==> pattern[i] == STAR && i + 1 < |pattern| && pattern[i + 1] == STAR
    ensures var token := if StartsDoubleStar(pattern[i..]) then AnyRun else UnitToken(pattern[i]);
            tokens + [token] + PatternTokens(pattern[NextIndex(pattern, i)..]) == PatternTokens(pattern)
  {
    var rest := pattern[i..];
    var token := if StartsDoubleStar(rest) then AnyRun else UnitToken(pattern[i]);
    var next := NextIndex(pattern, i);
    assert rest[next - i..] == pattern[next..];
    assert PatternTokens(rest) == [token] + PatternTokens(pattern[next..]);
    AppendOne(tokens, token, PatternTokens(pattern[next..]));
  }

  lemma AppendOne(tokens: seq<Token>, token: Token, rest: seq<Token>)
    ensures tokens + ([token] + rest) == tokens + [token] + rest
  {
  }

  // ------------------------------------------------------------- inclusion expansion

  /** `component` may stand where the pattern has `segment`. */
  predicate Allowed(segment: Text, component: Text) {
    && component != []
    && component !in ALWAYS_IGNORE
    && SegmentMatches(segment, component)
    && (component == [DOT] ==> segment == [DOT])
  }

  /** The components name an existing directory under `d`, one for each segment and each
      matching its segment. */
  ghost predicate Expands(d: Dir, segments: seq<Text>, components: seq<Text>) {
    && |components| == |segments|
    && Lookup(d, components).Some?
    && forall i :: 0 <= i < |segments| ==> Allowed(segments[i], components[i])
  }

  /** `p` is the path of an expansion found below the components `done`. */
  ghost predicate Found(d: Dir, segments: seq<Text>, done: seq<Text>, p: Text) {
    exists components :: Expands(d, segments, components) && p == JoinPath(done + components)
  }

  lemma ExpandsStep(d: Dir, segments: seq<Text>, components: seq<Text>)
    requires segments != [] && |components| == |segments|
    ensures Expands(d, segments, components) <==>
            && Allowed(segments[0], components[0])
            && Lookup(d, [components[0]]).Some?
            && Expands(Lookup(d, [components[0]]).value, segments[1..], components[1..])
  {
    assert components == [components[0]] + components[1..];
    LookupConcat(d, [components[0]], components[1..]);
    if
      && Allowed(segments[0], components[0])
      && forall i :: 0 <= i < |segments| - 1 ==> Allowed(segments[1..][i], components[1..][i])
    {
      forall i | 0 <= i < |segments| ensures Allowed(segments[i], components[i]) {
        if i > 0 {
          assert Allowed(segments[1..][i - 1], components[1..][i - 1]);
        }
      }
    }
  }

  /** Found below the component `c` of `d`. */
  ghost predicate FoundVia(d: Dir, c: Text, segments: seq<Text>, done: seq<Text>, p: Text) {
    Lookup(d, [c]).Some? && Found(Lookup(d, [c]).value, segments, done + [c], p)
  }

  lemma FoundDown(d: Dir, segments: seq<Text>, done: seq<Text>, p: Text) returns (c: Text)
    requires segments != [] && Found(d, segments, done, p)
    ensures Allowed(segments[0], c) && FoundVia(d, c, segments[1..], done, p)
  {
    var components :| Expands(d, segments, components) && p == JoinPath(done + components);
    ExpandsStep(d, segments, components);
    c := components[0];
    var rest := components[1..];
    assert done + components == done + [c] + rest;
    assert Expands(Lookup(d, [c]).value, segments[1..], rest);
  }

  lemma FoundUp(d: Dir, segments: seq<Text>, done: seq<Text>, c: Text, p: Text)
    requires segments != [] && Allowed(segments[0], c) && FoundVia(d, c, segments[1..], done, p)
    ensures Found(d, segments, done, p)
  {
    var rest :| Expands(Lookup(d, [c]).value, segments[1..], rest) && p == JoinPath(done + [c] + rest);
    var components := [c] + rest;
    assert components[1..] == rest;
    ExpandsStep(d, segments, components);
    assert done + components == done + [c] + rest;
  }

  /** One level of the walk: what is found is found below one of the allowed components. */
  lemma FoundStep(d: Dir, segments: seq<Text>, done: seq<Text>, p: Text)
    requires segments != []
    ensures Found(d, segments, done, p) <==>
            exists c :: Allowed(segments[0], c) && FoundVia(d, c, segments[1..], done, p)
  {
    if Found(d, segments, done, p) {
      var c := FoundDown(d, segments, done, p);
    }
    if c :| Allowed(segments[0], c) && FoundVia(d, c, segments[1..], done, p) {
      FoundUp(d, segments, done, c, p);
    }
  }

  lemma {:induction false} StarMatches(name: Text)
    requires SLASH !in name
    ensures Matches([NoSlashRun], name)
  {
    if name == [] {
    } else {
      StarMatches(name[1..]);
    }
  }

  lemma {:induction false} SegmentTokensCons(segment: Text)
    requires segment != []
    ensures SegmentTokens(segment)[1..] == SegmentTokens(segment[1..])
  {
  }

  lemma {:induction false} LiteralMatches(segment: Text, t: Text)
    requires STAR !in segment
    ensures SegmentMatches(segment, t) <==> t == segment
    decreases |segment|
  {
    if segment == [] {
    } else {
      SegmentTokensCons(segment);
      if t != [] {
        LiteralMatches(segment[1..], t[1..]);
        assert t == [t[0]] + t[1..] && segment == [segment[0]] + segment[1..];
      }
    }
  }

  class PathSet {
    var items: set<Text>

    constructor ()
      ensures items == {}
    {
      items := {};
    }
  }

  /** `joinRel` */
  function JoinRel(left: Text, right: Text): Text {
    if left == [] then right
    else if left[|left| - 1] == SLASH then left + right
    else left + [SLASH] + right
  }

  lemma {:induction false} JoinPathLast(done: seq<Text>)
    requires Components(done) && done != []
    ensures JoinPath(done) != [] && JoinPath(done)[|JoinPath(done)| - 1] != SLASH
  {
    if |done| > 1 {
      JoinPathLast(done[1..]);
    } else {
      assert done[0][|done[0]| - 1] in done[0];
    }
  }

  lemma JoinRelExtends(done: seq<Text>, c: Text)
    requires Components(done)
    ensures JoinRel(JoinPath(done), c) == JoinPath(done + [c])
  {
    if done == [] {
      assert done + [c] == [c];
    } else {
      JoinPathLast(done);
      JoinAppend(done, c, [SLASH]);
    }
  }

  /** The folders below `d` that a wildcard segment may step into. */
  function ChildFolders(d: Dir): set<Text> {
    set name | name in d.entries && d.entries[name].Folder? && name !in ALWAYS_IGNORE
  }

  lemma WildcardChildren(d: Dir, segment: Text, c: Text)
    requires WellFormed(d) && STAR in segment
    ensures Allowed(segment, c) && Lookup(d, [c]).Some? <==> c in ChildFolders(d) && SegmentMatches(segment, c)
    ensures c in ChildFolders(d) ==>
              Lookup(d, [c]) == Some(d.entries[c].dir) && WellFormed(d.entries[c].dir) && IsName(c)
  {
    assert [c][1..] == [];
    assert c in d.entries ==> IsName(c);
  }

  lemma LiteralChild(d: Dir, segment: Text, c: Text)
    requires STAR !in segment && segment != []
    ensures Allowed(segment, c) <==> c == segment && segment !in ALWAYS_IGNORE
  {
    LiteralMatches(segment, c);
  }

  lemma LookupWellFormed(d: Dir, components: seq<Text>)
    requires WellFormed(d) && Lookup(d, components).Some?
    ensures WellFormed(Lookup(d, components).value)
    decreases |components|
  {
    if components == [] {
    } else {
      if components[0] == [] || components[0] == [DOT] {
        LookupWellFormed(d, components[1..]);
      } else {
        LookupWellFormed(d.entries[components[0]].dir, components[1..]);
      }
    }
  }

  ghost predicate FoundAmong(d: Dir, names: set<Text>, segments: seq<Text>, done: seq<Text>, p: Text) {
    exists c :: c in names && FoundVia(d, c, segments, done, p)
  }

  lemma FoundLiteral(d: Dir, segments: seq<Text>, done: seq<Text>, p: Text)
    requires Components(segments) && segments != [] && STAR !in segments[0]
    ensures Found(d, segments, done, p) <==>
            segments[0] !in ALWAYS_IGNORE && FoundVia(d, segments[0], segments[1..], done, p)
  {
    FoundStep(d, segments, done, p);
    forall c ensures Allowed(segments[0], c) <==> c == segments[0] && segments[0] !in ALWAYS_IGNORE {
      LiteralChild(d, segments[0], c);
    }
  }

  lemma FoundWildcard(d: Dir, segments: seq<Text>, done: seq<Text>, names: set<Text>, p: Text)
    requires WellFormed(d) && segments != [] && STAR in segments[0]
    requires forall c :: c in names <==> c in ChildFolders(d) && SegmentMatches(segments[0], c)
    ensures Found(d, segments, done, p) <==> FoundAmong(d, names, segments[1..], done, p)
  {
    FoundStep(d, segments, done, p);
    forall c ensures Allowed(segments[0], c) && Lookup(d, [c]).Some? <==> c in names {
      WildcardChildren(d, segments[0], c);
    }
  }

  lemma WholeStarMatches(d: Dir, c: Text)
    requires WellFormed(d) && c in ChildFolders(d)
    ensures SegmentMatches([STAR], c)
  {
    WildcardChildren(d, [STAR], c);
    StarMatches(c);
    assert SegmentTokens([STAR]) == [NoSlashRun];
  }

  /** The recursive walk. `done` is the list of components the accumulated text stands for.
      Listing a directory cannot fail here: every accumulated path was found before. */
  method WalkSegments(
      root: Dir, segments: seq<Text>, idx: nat, accumulator: Text, out: PathSet, ghost done: seq<Text>)
    requires WellFormed(root) && Components(segments) && segments != []
    requires |done| == idx <= |segments| && Components(done) && accumulator == JoinPath(done)
    requires Lookup(root, done).Some?
    modifies out
    ensures forall p :: p in out.items <==>
              p in old(out.items) || Found(Lookup(root, done).value, segments[idx..], done, p)
    decreases |segments| - idx, 2
  {
    if idx == |segments| {
      FoundHere(Lookup(root, done).value, done);
      out.items := out.items + {accumulator};
      return;
    }
    var segment := segments[idx];
    ghost var rest := segments[idx..];
    assert rest[0] == segment && rest[1..] == segments[idx + 1..];
    ResolveJoinPath(root, done);
    LookupWellFormed(root, done);
    if STAR in segment {
      var d := Resolve(root, accumulator).value;
      var names := ChildFolders(d);
      if segment == [STAR] {
        forall c | c in names { WholeStarMatches(d, c); }
      } else {
        var re := SegmentToRegex(segment);
        names := set c | c in names && Test(re, c);
      }
      WalkChildren(root, segments, idx, accumulator, d, names, out, done);
      forall p { FoundWildcard(d, rest, done, names, p); }
      return;
    }
    forall p { FoundLiteral(Lookup(root, done).value, rest, done, p); }
    if segment in ALWAYS_IGNORE {
      return;
    }
    var candidate := JoinRel(accumulator, segment);
    JoinRelExtends(done, segment);
    ResolveJoinPath(root, done + [segment]);
    LookupConcat(root, done, [segment]);
    if Resolve(root, candidate).None? {
      return;
    }
    WalkSegments(root, segments, idx + 1, candidate, out, done + [segment]);
  }

  lemma FoundHere(d: Dir, done: seq<Text>)
    ensures forall p :: Found(d, [], done, p) <==> p == JoinPath(done)
  {
    assert Expands(d, [], []);
    assert done + [] == done;
  }

  /** The wildcard step: the walk continues below each of the named folders. */
  method WalkChildren(
      root: Dir, segments: seq<Text>, idx: nat, accumulator: Text, d: Dir, names: set<Text>, out: PathSet,
      ghost done: seq<Text>)
    requires WellFormed(root) && Components(segments) && segments != []
    requires |done| == idx < |segments| && Components(done) && accumulator == JoinPath(done)
    requires Lookup(root, done) == Some(d) && WellFormed(d) && names <= ChildFolders(d)
    modifies out
    ensures AddedAmong(old(out.items), out.items, d, names, segments[idx + 1..], done)
    decreases |segments| - idx, 1
  {
    var children := SortedElements(names);
    ghost var walked: set<Text> := {};
    ghost var before, rest := out.items, segments[idx + 1..];
    for i := 0 to |children|
      invariant forall c :: c in walked <==> c in children[..i]
      invariant AddedAmong(before, out.items, d, walked, rest, done)
    {
      assert children[..i + 1] == children[..i] + [children[i]];
      ghost var between := out.items;
      WalkChild(root, segments, idx, accumulator, d, children[i], out, done);
      AddedOne(before, between, out.items, d, walked, children[i], rest, done);
      walked := walked + {children[i]};
    }
    assert children[..|children|] == children;
    assert walked == names;
  }

  /** One child of the wildcard step. */
  method WalkChild(
      root: Dir, segments: seq<Text>, idx: nat, accumulator: Text, d: Dir, child: Text, out: PathSet,
      ghost done: seq<Text>)
    requires WellFormed(root) && Components(segments) && segments != []
    requires |done| == idx < |segments| && Components(done) && accumulator == JoinPath(done)
    requires Lookup(root, done) == Some(d) && WellFormed(d) && child in ChildFolders(d)
    modifies out
    ensures forall p :: p in out.items <==>
              p in old(out.items) || FoundVia(d, child, segments[idx + 1..], done, p)
    decreases |segments| - idx, 0
  {
    StepInto(root, done, d, child, segments[idx + 1..]);
    WalkSegments(root, segments, idx + 1, JoinRel(accumulator, child), out, done + [child]);
  }

  lemma StepInto(root: Dir, done: seq<Text>, d: Dir, child: Text, segments: seq<Text>)
    requires Components(done) && Lookup(root, done) == Some(d) && WellFormed(d) && child in ChildFolders(d)
    ensures Components(done + [child]) && JoinRel(JoinPath(done), child) == JoinPath(done + [child])
    ensures Lookup(root, done + [child]).Some?
    ensures forall p :: Found(Lookup(root, done + [child]).value, segments, done + [child], p) <==>
                        FoundVia(d, child, segments, done, p)
  {
    WildcardChildren(d, [STAR], child);
    LookupConcat(root, done, [child]);
    JoinRelExtends(done, child);
  }

  /** A walk below the named folders added exactly what is found there. */
  ghost predicate AddedAmong(
      before: set<Text>, after: set<Text>, d: Dir, names: set<Text>, segments: seq<Text>, done: seq<Text>) {
    forall p :: p in after <==> p in before || FoundAmong(d, names, segments, done, p)
  }

  lemma AddedOne(
      before: set<Text>, between: set<Text>, after: set<Text>, d: Dir, names: set<Text>, c: Text,
      segments: seq<Text>, done: seq<Text>)
    requires AddedAmong(before, between, d, names, segments, done)
    requires forall p :: p in after <==> p in between || FoundVia(d, c, segments, done, p)
    ensures AddedAmong(before, after, d, names + {c}, segments, done)
  {
    forall p ensures FoundAmong(d, names + {c}, segments, done, p) <==>
                     FoundAmong(d, names, segments, done, p) || FoundVia(d, c, segments, done, p)
    {
    }
  }
}
