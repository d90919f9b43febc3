/** What glob patterns mean, in the terms of pattern and path alone. */
module GlobMeaning {
  import opened Globs
  import opened Regex
  import opened Texts
  import opened WorkspaceGlobs

  /** The pieces, one after the other. */
  function Glued(pieces: seq<Text>): Text {
    Join(pieces, [])
  }

  lemma GluedCons(piece: Text, pieces: seq<Text>)
    ensures Glued([piece] + pieces) == piece + Glued(pieces)
  {
    if pieces == [] {
      assert piece + [] == piece;
    } else {
      assert ([piece] + pieces)[1..] == pieces;
      assert piece + [] == piece;
    }
  }

  // ------------------------------------------------------------------- expressions

  /** What each token takes: its unit, a run without a slash, a run in one line. */
  ghost predicate Takes(token: Token, piece: Text) {
    match token
    case Unit(c) => piece == [c]
    case NoSlashRun => SLASH !in piece
    case AnyRun => OneLine(piece)
  }

  ghost predicate TakenBy(tokens: seq<Token>, pieces: seq<Text>, t: Text) {
    && |pieces| == |tokens| && Glued(pieces) == t
    && forall i :: 0 <= i < |tokens| ==> Takes(tokens[i], pieces[i])
  }

  lemma TakenCons(token: Token, tokens: seq<Token>, piece: Text, pieces: seq<Text>, t: Text)
    requires Takes(token, piece) && TakenBy(tokens, pieces, t)
    ensures TakenBy([token] + tokens, [piece] + pieces, piece + t)
  {
    GluedCons(piece, pieces);
  }

  lemma {:induction false} MatchedPieces(tokens: seq<Token>, t: Text) returns (pieces: seq<Text>)
    requires Matches(tokens, t)
    ensures TakenBy(tokens, pieces, t)
    decreases |tokens|, |t|
  {
    if tokens == [] {
      pieces := [];
    } else {
      assert tokens == [tokens[0]] + tokens[1..];
      if tokens[0].Unit? {
        pieces := MatchedPieces(tokens[1..], t[1..]);
        TakenCons(tokens[0], tokens[1..], [t[0]], pieces, t[1..]);
        assert t == [t[0]] + t[1..];
        pieces := [[t[0]]] + pieces;
      } else if Matches(tokens[1..], t) {
        pieces := MatchedPieces(tokens[1..], t);
        TakenCons(tokens[0], tokens[1..], [], pieces, t);
        assert [] + t == t;
        pieces := [[]] + pieces;
      } else {
        pieces := MatchedPieces(tokens, t[1..]);
        pieces := LongerRun(tokens, pieces, t);
      }
    }
  }

  lemma LongerRun(tokens: seq<Token>, pieces: seq<Text>, t: Text) returns (longer: seq<Text>)
    requires t != [] && tokens != [] && TakenBy(tokens, pieces, t[1..])
    requires (tokens[0] == NoSlashRun && t[0] != SLASH) || (tokens[0] == AnyRun && !IsLineTerminator(t[0]))
    ensures TakenBy(tokens, longer, t)
  {
    var first, rest := [t[0]] + pieces[0], pieces[1..];
    assert pieces == [pieces[0]] + rest;
    GluedCons(pieces[0], rest);
    GluedCons(first, rest);
    assert t == [t[0]] + t[1..];
    ConcatAssociative([t[0]], pieces[0], Glued(rest));
    longer := [first] + rest;
  }

  lemma {:induction false} RunMatches(tokens: seq<Token>, piece: Text, t: Text)
    requires tokens != [] && !tokens[0].Unit? && Takes(tokens[0], piece) && Matches(tokens[1..], t)
    ensures Matches(tokens, piece + t)
    decreases |piece|
  {
    if piece == [] {
      assert piece + t == t;
    } else {
      assert (piece + t)[1..] == piece[1..] + t;
      RunMatches(tokens, piece[1..], t);
    }
  }

  lemma {:induction false} PiecesMatch(tokens: seq<Token>, pieces: seq<Text>, t: Text)
    requires TakenBy(tokens, pieces, t)
    ensures Matches(tokens, t)
    decreases |tokens|
  {
    if tokens == [] {
    } else {
      var rest := pieces[1..];
      assert pieces == [pieces[0]] + rest;
      GluedCons(pieces[0], rest);
      assert TakenBy(tokens[1..], rest, Glued(rest));
      PiecesMatch(tokens[1..], rest, Glued(rest));
      if tokens[0].Unit? {
        assert t[1..] == Glued(rest);
      } else {
        RunMatches(tokens, pieces[0], Glued(rest));
      }
    }
  }

  /** A text matches exactly when it falls into pieces, one for each token, that the tokens take. */
  lemma MatchesExactly(tokens: seq<Token>, t: Text)
    ensures Matches(tokens, t) <==> exists pieces :: TakenBy(tokens, pieces, t)
  {
    if Matches(tokens, t) {
      var pieces := MatchedPieces(tokens, t);
    }
    if pieces :| TakenBy(tokens, pieces, t) {
      PiecesMatch(tokens, pieces, t);
    }
  }

  // ---------------------------------------------------------------------- segments

  /** A star stands for any run without a slash, every other unit for itself. */
  ghost predicate Fits(segment: Text, pieces: seq<Text>, name: Text) {
    && |pieces| == |segment| && Glued(pieces) == name
    && forall i :: 0 <= i < |segment| ==>
         if segment[i] == Code('*') then Code('/') !in pieces[i] else pieces[i] == [segment[i]]
  }

  lemma SegmentExactly(segment: Text, name: Text)
    ensures SegmentMatches(segment, name) <==> exists pieces :: Fits(segment, pieces, name)
  {
    MatchesExactly(SegmentTokens(segment), name);
    forall pieces ensures Fits(segment, pieces, name) <==> TakenBy(SegmentTokens(segment), pieces, name) {
      FitsIsTaken(segment, pieces, name);
    }
  }

  lemma FitsIsTaken(segment: Text, pieces: seq<Text>, name: Text)
    ensures Fits(segment, pieces, name) <==> TakenBy(SegmentTokens(segment), pieces, name)
  {
    var tokens := SegmentTokens(segment);
    if |pieces| == |segment| {
      forall i | 0 <= i < |segment|
        ensures Takes(tokens[i], pieces[i]) <==>
                if segment[i] == Code('*') then Code('/') !in pieces[i] else pieces[i] == [segment[i]]
      {
        assert tokens[i] == UnitToken(segment[i]);
      }
    }
  }

  /** How a unit of a segment is written in an expression. */
  ghost predicate Writes(c: CodeUnit, piece: Text) {
    if c == Code('*') then piece == Ascii("[^/]*")
    else if c in Ascii(".+?^${}()|[]\\") then piece == Ascii("\\") + [c]
    else piece == [c]
  }

  /** The expression built for a segment, as text: a star becomes a bracket, and exactly the
      units special in expressions are escaped. */
  lemma SegmentTextExactly(segment: Text, pieces: seq<Text>)
    requires |pieces| == |segment| && forall i :: 0 <= i < |segment| ==> Writes(segment[i], pieces[i])
    ensures RegexText(SegmentTokens(segment)) == Ascii("^") + Glued(pieces) + Ascii("$")
  {
    var tokens := SegmentTokens(segment);
    forall i | 0 <= i < |segment| ensures TokenText(tokens[i]) == pieces[i] {
      assert tokens[i] == UnitToken(segment[i]);
      TokenIs(segment[i], pieces[i]);
    }
    GluedTokens(tokens, pieces);
    Anchors();
  }

  lemma Anchors()
    ensures Ascii("^") == [CARET] && Ascii("$") == [DOLLAR]
  {
  }

  lemma SpecialUnits(c: CodeUnit)
    ensures IsEscaped(c) <==> c in Ascii(".+?^${}()|[]\\")
  {
    var special := Ascii(".+?^${}()|[]\\");
    assert special == [0x2E, 0x2B, 0x3F, 0x5E, 0x24, 0x7B, 0x7D, 0x28, 0x29, 0x7C, 0x5B, 0x5D, 0x5C];
  }

  lemma TokenIs(c: CodeUnit, piece: Text)
    requires Writes(c, piece)
    ensures TokenText(UnitToken(c)) == piece
  {
    SpecialUnits(c);
    assert Ascii("[^/]*") == NO_SLASH_RUN;
    assert Ascii("\\") == [ESCAPE];
  }

  lemma GluedStep(token: Token, tokens: seq<Token>, pieces: seq<Text>)
    requires TokensText(tokens) == Glued(pieces)
    ensures TokensText([token] + tokens) == Glued([TokenText(token)] + pieces)
  {
    TokensTextCons(token, tokens);
    GluedCons(TokenText(token), pieces);
  }

  lemma {:induction false} GluedTokens(tokens: seq<Token>, pieces: seq<Text>)
    requires |pieces| == |tokens| && forall i :: 0 <= i < |tokens| ==> TokenText(tokens[i]) == pieces[i]
    ensures TokensText(tokens) == Glued(pieces)
    decreases |tokens|
  {
    if tokens == [] {
    } else {
      var (token, rest, others) := (tokens[0], tokens[1..], pieces[1..]);
      GluedTokens(rest, others);
      GluedStep(token, rest, others);
      assert tokens == [token] + rest;
      assert pieces == [TokenText(token)] + others;
    }
  }

  // ---------------------------------------------------------------- exclusion patterns

  ghost predicate HasInside(t: Text, part: Text) {
    exists before, after :: t == before + part + after
  }

  lemma TwoUnits()
    ensures Ascii("..") == DOUBLE_DOT && Ascii("**") == DOUBLE_STAR
  {
  }

  ghost predicate StartsWithUnit(t: Text, c: CodeUnit) {
    t != [] && t[0] == c
  }

  /** `part` is the longest part `part + rest` starts with: two stars with a slash behind them, two
      stars, a star, or any other unit. */
  ghost predicate IsFirstPart(part: Text, rest: Text) {
    || part == Ascii("**/")
    || (part == Ascii("**") && !StartsWithUnit(rest, Code('/')))
    || (part == Ascii("*") && !StartsWithUnit(rest, Code('*')))
    || (|part| == 1 && part[0] != Code('*'))
  }

  /** The parts of a pattern read from the left. */
  ghost predicate CutsUp(parts: seq<Text>) {
    parts == [] || (IsFirstPart(parts[0], Glued(parts[1..])) && CutsUp(parts[1..]))
  }

  function PartToken(part: Text): Token {
    if |part| == 1 then UnitToken(part[0]) else AnyRun
  }

  function PartTokens(parts: seq<Text>): (tokens: seq<Token>)
    ensures |tokens| == |parts| && forall i :: 0 <= i < |parts| ==> tokens[i] == PartToken(parts[i])
  {
    if parts == [] then [] else [PartToken(parts[0])] + PartTokens(parts[1..])
  }

  lemma StarTexts()
    ensures Ascii("**/") == [STAR, STAR, SLASH] && Ascii("**") == [STAR, STAR] && Ascii("*") == [STAR]
  {
  }

  lemma PartFirst(part: Text, rest: Text)
    requires IsFirstPart(part, rest)
    ensures PatternTokens(part + rest) == [PartToken(part)] + PatternTokens(rest)
  {
    StarTexts();
    var t := part + rest;
    if |part| == 3 {
      assert t[3..] == rest;
    } else if |part| == 2 {
      assert t[2..] == rest;
    } else {
      assert t[1..] == rest;
    }
  }

  lemma {:induction false} CutTokens(parts: seq<Text>)
    requires CutsUp(parts)
    ensures PatternTokens(Glued(parts)) == PartTokens(parts)
    decreases |parts|
  {
    if parts == [] {
    } else {
      assert parts == [parts[0]] + parts[1..];
      GluedCons(parts[0], parts[1..]);
      PartFirst(parts[0], Glued(parts[1..]));
      CutTokens(parts[1..]);
    }
  }

  lemma PartExists(pattern: Text) returns (n: nat)
    requires pattern != []
    ensures 0 < n <= |pattern| && IsFirstPart(pattern[..n], pattern[n..])
  {
    StarTexts();
    n := NextIndex(pattern, 0);
  }

  /** Every pattern can be read so. */
  lemma {:induction false} CutExists(pattern: Text) returns (parts: seq<Text>)
    ensures CutsUp(parts) && Glued(parts) == pattern
    decreases |pattern|
  {
    if pattern == [] {
      parts := [];
    } else {
      var n := PartExists(pattern);
      var rest := CutExists(pattern[n..]);
      GluedCons(pattern[..n], rest);
      assert pattern == pattern[..n] + pattern[n..];
      parts := [pattern[..n]] + rest;
      assert parts[1..] == rest;
    }
  }

  /** What each part stands for: two stars for any text in one line, a star for any without a
      slash, a unit for itself. */
  ghost predicate CoversPart(part: Text, piece: Text) {
    if part == Ascii("**") || part == Ascii("**/") then OneLine(piece)
    else if part == Ascii("*") then Code('/') !in piece
    else piece == part
  }

  ghost predicate CoveredBy(parts: seq<Text>, pieces: seq<Text>, t: Text) {
    && |pieces| == |parts| && Glued(pieces) == t
    && forall i :: 0 <= i < |parts| ==> CoversPart(parts[i], pieces[i])
  }

  lemma {:induction false} PartsAre(parts: seq<Text>, i: nat)
    requires CutsUp(parts) && i < |parts|
    ensures parts[i] == Ascii("**/") || parts[i] == Ascii("**") || |parts[i]| == 1
    decreases i
  {
    if i == 0 {
      StarTexts();
    } else {
      PartsAre(parts[1..], i - 1);
    }
  }

  lemma PartTaken(part: Text, piece: Text)
    requires part == Ascii("**/") || part == Ascii("**") || |part| == 1
    ensures CoversPart(part, piece) <==> Takes(PartToken(part), piece)
  {
    StarTexts();
    assert |part| == 1 ==> part == [part[0]];
  }

  lemma CoveredIsTaken(parts: seq<Text>, pieces: seq<Text>, t: Text)
    requires CutsUp(parts)
    ensures CoveredBy(parts, pieces, t) <==> TakenBy(PartTokens(parts), pieces, t)
  {
    if |pieces| == |parts| {
      forall i | 0 <= i < |parts| ensures CoversPart(parts[i], pieces[i]) <==> Takes(PartTokens(parts)[i], pieces[i]) {
        PartsAre(parts, i);
        PartTaken(parts[i], pieces[i]);
      }
    }
  }

  /** An exclusion covers a path exactly when the path falls into pieces that the parts of the
      pattern stand for; a pattern with two dots in it covers none. */
  lemma ExclusionExactly(glob: Text, parts: seq<Text>, t: Text)
    requires CutsUp(parts) && WithoutHere(glob, Glued(parts))
    ensures Covers(glob, t) <==>
            !HasInside(Glued(parts), Ascii("..")) && exists pieces :: CoveredBy(parts, pieces, t)
  {
    HereExactly(glob, Glued(parts));
    TwoUnits();
    ContainsExactly(Glued(parts), DOUBLE_DOT);
    CutTokens(parts);
    MatchesExactly(PartTokens(parts), t);
    forall pieces ensures CoveredBy(parts, pieces, t) <==> TakenBy(PartTokens(parts), pieces, t) {
      CoveredIsTaken(parts, pieces, t);
    }
  }

  ghost predicate WritesPart(part: Text, piece: Text) {
    if part == Ascii("**") || part == Ascii("**/") then piece == Ascii(".*")
    else |part| == 1 && Writes(part[0], piece)
  }

  /** The expression built for an exclusion, as text. */
  lemma ExclusionTextExactly(parts: seq<Text>, pieces: seq<Text>)
    requires CutsUp(parts)
    requires |pieces| == |parts| && forall i :: 0 <= i < |parts| ==> WritesPart(parts[i], pieces[i])
    ensures RegexText(PatternTokens(Glued(parts))) == Ascii("^") + Glued(pieces) + Ascii("$")
  {
    CutTokens(parts);
    var tokens := PartTokens(parts);
    forall i | 0 <= i < |parts| ensures TokenText(tokens[i]) == pieces[i] {
      PartWritten(parts[i], pieces[i]);
    }
    GluedTokens(tokens, pieces);
    Anchors();
  }

  lemma PartWritten(part: Text, piece: Text)
    requires WritesPart(part, piece)
    ensures TokenText(PartToken(part)) == piece
  {
    StarTexts();
    assert Ascii(".*") == ANY_RUN;
    if |part| == 1 {
      TokenIs(part[0], piece);
    }
  }

  // ---------------------------------------------------------------------- expansion

  /** The directories never walked into. */
  ghost predicate IsIgnored(name: Text) {
    || name == Ascii("node_modules") || name == Ascii(".git") || name == Ascii("dist") || name == Ascii("build")
    || name == Ascii(".turbo") || name == Ascii(".next") || name == Ascii(".arch-engine")
    || name == Ascii(".pnpm-store")
  }

  /** A component that may stand for a segment. A dot only stands for itself. */
  ghost predicate StandsFor(segment: Text, component: Text) {
    && component != [] && !IsIgnored(component) && (component == Ascii(".") ==> segment == Ascii("."))
    && exists pieces :: Fits(segment, pieces, component)
  }

  lemma AllowedExactly(segment: Text, component: Text)
    ensures Allowed(segment, component) <==> StandsFor(segment, component)
  {
    SegmentExactly(segment, component);
    assert Ascii(".") == [DOT];
    assert component in ALWAYS_IGNORE <==> IsIgnored(component);
  }

  /** The path `p` of a directory with as many components as there are parts, each standing for
      its part. */
  ghost predicate IsFound(root: Dir, parts: seq<Text>, components: seq<Text>, p: Text) {
    && |components| == |parts| && p == Join(components, Ascii("/")) && Lookup(root, components).Some?
    && forall i :: 0 <= i < |parts| ==> StandsFor(parts[i], components[i])
  }

  /** A glob of parts between slashes expands to exactly those paths, unless it has two dots or
      two stars in a row in it: then to none. */
  lemma ExpansionExactly(root: Dir, glob: Text, parts: seq<Text>, p: Text)
    requires Components(parts) && parts != [] && WithoutHere(glob, Join(parts, Ascii("/")))
    ensures Expansion(root, glob, p) <==>
            && !HasInside(Join(parts, Ascii("/")), Ascii("..")) && !HasInside(Join(parts, Ascii("/")), Ascii("**"))
            && exists components :: IsFound(root, parts, components, p)
  {
    var pattern := Join(parts, Ascii("/"));
    assert Ascii("/") == [SLASH];
    HereExactly(glob, pattern);
    TwoUnits();
    ContainsExactly(pattern, DOUBLE_DOT);
    ContainsExactly(pattern, DOUBLE_STAR);
    SegmentsOfParts(parts);
    forall components ensures IsFound(root, parts, components, p) <==>
                              Expands(root, parts, components) && p == JoinPath([] + components)
    {
      FoundExactly(root, parts, components, p);
    }
  }

  lemma SegmentsOfParts(parts: seq<Text>)
    requires Components(parts) && parts != []
    ensures GlobSegments(Join(parts, [SLASH])) == parts
  {
    assert forall part <- parts :: SLASH !in part;
    SplitJoin(parts, SLASH);
    NonEmptyAll(parts);
  }

  lemma FoundExactly(root: Dir, parts: seq<Text>, components: seq<Text>, p: Text)
    ensures IsFound(root, parts, components, p) <==>
            Expands(root, parts, components) && p == JoinPath([] + components)
  {
    assert [] + components == components;
    assert Ascii("/") == [SLASH];
    if |components| == |parts| {
      forall i | 0 <= i < |parts| ensures Allowed(parts[i], components[i]) <==> StandsFor(parts[i], components[i]) {
        AllowedExactly(parts[i], components[i]);
      }
    }
  }

  /** The warnings of one pattern, for inclusion and for exclusion. */
  lemma WarningsExactly(glob: Text, pattern: Text)
    requires WithoutHere(glob, pattern)
    ensures InclusionWarnings(glob) ==
            if HasInside(pattern, Ascii("..")) then [ParentSegment(glob)]
            else if HasInside(pattern, Ascii("**")) then [RecursiveGlob(glob)]
            else []
    ensures ExclusionWarnings(glob) ==
            if HasInside(pattern, Ascii("..")) then [ExcludedParentSegment(glob)] else []
  {
    HereExactly(glob, pattern);
    TwoUnits();
    ContainsExactly(pattern, DOUBLE_DOT);
    ContainsExactly(pattern, DOUBLE_STAR);
  }
}
