/** The line-based reader of `pnpm-workspace.yaml`. */
module PnpmWorkspace {
  import opened Results
  import opened Texts

  const TAB: CodeUnit := 0x09
  const CR: CodeUnit := 0x0D
  const SPACE: CodeUnit := 0x20
  const DOUBLE_QUOTE: CodeUnit := 0x22
  const HASH: CodeUnit := 0x23
  const SINGLE_QUOTE: CodeUnit := 0x27
  const DASH: CodeUnit := 0x2D

  // ----------------------------------------------------------------- line helpers

  /** Where the comment of a line starts, scanning from `i` with the given quote flags. */
  function CommentStart(line: Text, i: nat, inSingle: bool, inDouble: bool): (n: nat)
    requires i <= |line|
    ensures n <= |line|
    decreases |line| - i
  {
    if i == |line| then i
    else
      var ch := line[i];
      if ch == SINGLE_QUOTE && !inDouble then CommentStart(line, i + 1, !inSingle, inDouble)
      else if ch == DOUBLE_QUOTE && !inSingle then CommentStart(line, i + 1, inSingle, !inDouble)
      else if ch == HASH && !inSingle && !inDouble && (i == 0 || IsWhiteSpace(line[i - 1])) then i
      else CommentStart(line, i + 1, inSingle, inDouble)
  }

  function WithoutComment(line: Text): Text {
    line[..CommentStart(line, 0, false, false)]
  }

  method StripComment(line: Text) returns (r: Text)
    ensures r == WithoutComment(line)
  {
    var inSingle, inDouble := false, false;
    for i := 0 to |line|
      invariant CommentStart(line, i, inSingle, inDouble) == CommentStart(line, 0, false, false)
    {
      var ch := line[i];
      if ch == SINGLE_QUOTE && !inDouble {
        inSingle := !inSingle;
      } else if ch == DOUBLE_QUOTE && !inSingle {
        inDouble := !inDouble;
      } else if ch == HASH && !inSingle && !inDouble {
        if i == 0 || IsWhiteSpace(line[i - 1]) {
          return line[..i];
        }
      }
    }
    assert line[..|line|] == line;
    return line;
  }

  /** How many units at the start of `t` satisfy `p`. */
  function RunLength(t: Text, p: CodeUnit -> bool): (n: nat)
    ensures n <= |t| && (forall i :: 0 <= i < n ==> p(t[i])) && (n < |t| ==> !p(t[n]))
  {
    if t != [] && p(t[0]) then 1 + RunLength(t[1..], p) else 0
  }

  lemma {:induction false} RunLengthIs(t: Text, p: CodeUnit -> bool, n: nat)
    requires n <= |t| && (forall i :: 0 <= i < n ==> p(t[i])) && (n < |t| ==> !p(t[n]))
    ensures RunLength(t, p) == n
  {
  }

  method CountLeadingSpaces(s: Text) returns (n: nat)
    ensures n == RunLength(s, c => c == SPACE)
  {
    n := 0;
    while n < |s| && s[n] == SPACE
      invariant n <= |s| && forall i :: 0 <= i < n ==> s[i] == SPACE
    {
      n := n + 1;
    }
    RunLengthIs(s, c => c == SPACE, n);
  }

  function Unquote(s: Text): Text {
    if |s| >= 2 &&
       ((s[0] == DOUBLE_QUOTE && s[|s| - 1] == DOUBLE_QUOTE) || (s[0] == SINGLE_QUOTE && s[|s| - 1] == SINGLE_QUOTE))
    then s[1..|s| - 1]
    else s
  }

  predicate IsKeyStart(c: CodeUnit) {
    0x41 <= c <= 0x5A || 0x61 <= c <= 0x7A || c == 0x5F
  }

  predicate IsKeyPart(c: CodeUnit) {
    IsKeyStart(c) || IsDigit(c) || c == DASH
  }

  predicate HasLineTerminator(t: Text) {
    exists i :: 0 <= i < |t| && IsLineTerminator(t[i])
  }

  /** `^([A-Za-z_][A-Za-z0-9_-]*)\s*:(.*)$` as key and rest. */
  function MatchKey(s: Text): Option<(Text, Text)> {
    if s == [] || !IsKeyStart(s[0]) then None
    else
      var n := RunLength(s, IsKeyPart);
      var m := n + RunLength(s[n..], IsWhiteSpace);
      if m == |s| || s[m] != COLON || HasLineTerminator(s[m + 1..]) then None
      else Some((s[..n], s[m + 1..]))
  }

  /** `^(\s*)-\s+(.*)$` as the indent's length and the body. */
  function MatchListItem(s: Text): Option<(nat, Text)> {
    var n := RunLength(s, IsWhiteSpace);
    if n == |s| || s[n] != DASH then None
    else
      var gap := RunLength(s[n + 1..], IsWhiteSpace);
      var body := s[n + 1 + gap..];
      if gap == 0 || HasLineTerminator(body) then None else Some((n, body))
  }

  // ---------------------------------------------------------------- one line's effect

  datatype Key = Packages(inlineValue: bool) | Catalog | OtherKey

  /** What a line is, whatever the state it is met in. */
  datatype Kind =
    | Blank
    | Tabbed
    | KeyLine(key: Key)
    | Item(indent: nat, value: Text, atMargin: bool)
    | Content(atMargin: bool)

  function KeyOf(key: Text, rest: Text): Key {
    if key == Ascii("packages") then Packages(rest != [] && rest != Ascii("|") && rest != Ascii(">"))
    else if key == Ascii("catalog") || key == Ascii("catalogs") then Catalog
    else OtherKey
  }

  /** A line with something on it, without its comment. */
  function ClassifyText(stripped: Text): Kind {
    var indent := RunLength(stripped, c => c == SPACE);
    var key := MatchKey(stripped);
    if indent == 0 && key.Some? then KeyLine(KeyOf(key.value.0, Trim(key.value.1)))
    else
      match MatchListItem(stripped)
      case Some((itemIndent, body)) => Item(itemIndent, Unquote(Trim(body)), indent == 0)
      case None => Content(indent == 0)
  }

  function Classify(raw: Text): Kind {
    var stripped := WithoutComment(raw);
    if Trim(stripped) == [] then Blank
    else if raw[0] == TAB then Tabbed
    else ClassifyText(stripped)
  }

  datatype Problem = TabIndentation | InlinePackages

  datatype Warning = Warning(line: nat, problem: Problem)

  /** The parser's variables. An indent of -1 means no list item has been seen yet. */
  datatype State = State(
    packages: Option<seq<Text>>, inBlock: bool, indent: int, catalogs: bool, warnings: seq<Warning>)

  const START := State(None, false, -1, false, [])

  function PushItem(packages: Option<seq<Text>>, item: Text): Option<seq<Text>> {
    if item == [] then packages
    else Some((if packages.Some? then packages.value else []) + [item])
  }

  /** What one line does to the state. A line that ends the package list is processed again
      outside the list. */
  function Effect(st: State, kind: Kind, number: nat): State
    decreases st.inBlock
  {
    match kind
    case Blank => st
    case Tabbed => st.(warnings := st.warnings + [Warning(number, TabIndentation)])
    case KeyLine(Packages(inlineValue)) =>
      var packages := if st.packages.None? then Some([]) else st.packages;
      var warnings := if inlineValue then st.warnings + [Warning(number, InlinePackages)] else st.warnings;
      st.(packages := packages, inBlock := !inlineValue, indent := -1, warnings := warnings)
    case KeyLine(Catalog) => st.(catalogs := true, inBlock := false)
    case KeyLine(OtherKey) => st.(inBlock := false)
    case Item(itemIndent, value, _) =>
      if !st.inBlock then st
      else
        var first := if st.indent < 0 then itemIndent else st.indent;
        if itemIndent < first then Effect(st.(indent := first, inBlock := false), kind, number)
        else st.(indent := first, packages := PushItem(st.packages, value))
    case Content(atMargin) =>
      if st.inBlock && atMargin then Effect(st.(inBlock := false), kind, number) else st
  }

  function Effects(st: State, kinds: seq<Kind>, number: nat): State
    decreases |kinds|
  {
    if kinds == [] then st else Effects(Effect(st, kinds[0], number), kinds[1..], number + 1)
  }

  function Kinds(lines: seq<Text>): (kinds: seq<Kind>)
    ensures |kinds| == |lines| && forall i :: 0 <= i < |lines| ==> kinds[i] == Classify(lines[i])
  {
    seq(|lines|, i requires 0 <= i < |lines| => Classify(lines[i]))
  }

  lemma KindsConcat(a: seq<Text>, b: seq<Text>)
    ensures Kinds(a + b) == Kinds(a) + Kinds(b)
  {
  }

  lemma KindsOne(line: Text)
    ensures Kinds([line]) == [Classify(line)]
  {
  }

  // ------------------------------------------------------------------- the program

  datatype WorkspaceFile = WorkspaceFile(
    packages: Option<seq<Text>>, catalogsDetected: bool, warnings: seq<Warning>)

  datatype ParseError = NulBytes

  /** `text.replace(/\r\n/g, '\n')` */
  function UnixNewlines(text: Text): Text {
    if text == [] then []
    else if |text| >= 2 && text[0] == CR && text[1] == NEWLINE then [NEWLINE] + UnixNewlines(text[2..])
    else [text[0]] + UnixNewlines(text[1..])
  }

  function Parsed(text: Text): Result<WorkspaceFile, ParseError> {
    if 0 in text then Failure(NulBytes)
    else
      var st := Effects(START, Kinds(Split(UnixNewlines(text), NEWLINE)), 1);
      Success(WorkspaceFile(st.packages, st.catalogs, st.warnings))
  }

  /** The key branch of the parse loop. */
  method ReadKey(st: State, key: Text, rest: Text, number: nat) returns (st': State)
    ensures st' == Effect(st, KeyLine(KeyOf(key, rest)), number)
  {
    st' := st;
    if key == Ascii("packages") {
      st' := st'.(inBlock := true, indent := -1);
      if st'.packages.None? {
        st' := st'.(packages := Some([]));
      }
      if |rest| > 0 && rest != Ascii("|") && rest != Ascii(">") {
        st' := st'.(warnings := st'.warnings + [Warning(number, InlinePackages)], inBlock := false);
      }
    } else if key == Ascii("catalog") || key == Ascii("catalogs") {
      st' := st'.(catalogs := true, inBlock := false);
    } else {
      st' := st'.(inBlock := false);
    }
  }

  /** The package list's branch of the parse loop. */
  method ReadInList(st: State, stripped: Text, atMargin: bool) returns (st': State, again: bool)
    requires st.inBlock
    ensures var kind := match MatchListItem(stripped)
                        case Some((itemIndent, body)) => Item(itemIndent, Unquote(Trim(body)), atMargin)
                        case None => Content(atMargin);
            forall number ::
              Effect(st, kind, number) == if again then Effect(st', kind, number) else st'
    ensures again ==> !st'.inBlock
  {
    st', again := st, false;
    var listMatch := MatchListItem(stripped);
    if listMatch.Some? {
      var (itemIndent, body) := listMatch.value;
      if st'.indent < 0 {
        st' := st'.(indent := itemIndent);
      }
      if itemIndent < st'.indent {
        return st'.(inBlock := false), true;
      }
      st' := st'.(packages := PushItem(st'.packages, Unquote(Trim(body))));
      return;
    }
    if atMargin {
      return st'.(inBlock := false), true;
    }
  }

  /** The loop's body for a line with something on it that does not start with a tab. */
  method ReadText(st: State, stripped: Text, number: nat) returns (st': State, again: bool)
    ensures var kind := ClassifyText(stripped);
            Effect(st, kind, number) == if again then Effect(st', kind, number) else st'
    ensures again ==> st.inBlock && !st'.inBlock
  {
    st', again := st, false;
    var indent := CountLeadingSpaces(stripped);
    if indent == 0 {
      var keyMatch := MatchKey(stripped);
      if keyMatch.Some? {
        st' := ReadKey(st, keyMatch.value.0, Trim(keyMatch.value.1), number);
        return;
      }
    }
    if st.inBlock {
      st', again := ReadInList(st, stripped, indent <= 0);
    }
  }

  /** The body of the parse loop. `again` is the step back that has the line processed once
      more; it also leaves the package list, so it happens at most once a line. */
  method ReadLine(st: State, raw: Text, number: nat) returns (st': State, again: bool)
    ensures Effect(st, Classify(raw), number) == if again then Effect(st', Classify(raw), number) else st'
    ensures again ==> st.inBlock && !st'.inBlock
  {
    var stripped := StripComment(raw);
    var trimmed := Trim(stripped);
    if |trimmed| == 0 {
      return st, false;
    }
    if raw[0] == TAB {
      return st.(warnings := st.warnings + [Warning(number, TabIndentation)]), false;
    }
    st', again := ReadText(st, stripped, number);
  }

  lemma EffectsStep(st: State, kinds: seq<Kind>, i: nat)
    requires i < |kinds|
    ensures Effects(st, kinds[i..], i + 1) == Effects(Effect(st, kinds[i], i + 1), kinds[i + 1..], i + 2)
  {
    assert kinds[i..][1..] == kinds[i + 1..];
  }

  /** The parse loop, with its step back. */
  method ReadLines(lines: seq<Text>) returns (st: State)
    ensures st == Effects(START, Kinds(lines), 1)
  {
    ghost var kinds := Kinds(lines);
    st := START;
    assert kinds[0..] == kinds;
    var i := 0;
    while i < |lines|
      invariant 0 <= i <= |lines|
      invariant Effects(st, kinds[i..], i + 1) == Effects(START, kinds, 1)
      decreases |lines| - i, st.inBlock
    {
      EffectsStep(st, kinds, i);
      var again;
      st, again := ReadLine(st, lines[i], i + 1);
      if again {
        EffectsStep(st, kinds, i);
        i := i - 1;
      }
      i := i + 1;
    }
  }

  /** The parser. */
  method ParsePnpmWorkspaceYaml(text: Text) returns (r: Result<WorkspaceFile, ParseError>)
    ensures r == Parsed(text)
  {
    if 0 in text {
      return Failure(NulBytes);
    }
    var st := ReadLines(Split(UnixNewlines(text), NEWLINE));
    r := Success(WorkspaceFile(st.packages, st.catalogs, st.warnings));
  }

  // ----------------------------------------------- what blank lines and numbers change

  /** The state without its warnings: all a line's effect depends on. */
  function Core(st: State): State {
    st.(warnings := [])
  }

  lemma {:induction false} EffectIgnoresWarnings(st: State, st': State, kind: Kind, number: nat, number': nat)
    requires Core(st) == Core(st')
    ensures Core(Effect(st, kind, number)) == Core(Effect(st', kind, number'))
    decreases st.inBlock
  {
    if st.inBlock {
      EffectIgnoresWarnings(st.(inBlock := false), st'.(inBlock := false), kind, number, number');
    }
  }

  lemma {:induction false} EffectsIgnoreWarnings(st: State, st': State, kinds: seq<Kind>, number: nat, number': nat)
    requires Core(st) == Core(st')
    ensures Core(Effects(st, kinds, number)) == Core(Effects(st', kinds, number'))
    decreases |kinds|
  {
    if kinds == [] {
    } else {
      EffectIgnoresWarnings(st, st', kinds[0], number, number');
      EffectsIgnoreWarnings(
        Effect(st, kinds[0], number), Effect(st', kinds[0], number'), kinds[1..], number + 1, number' + 1);
    }
  }

  lemma {:induction false} EffectsConcat(st: State, a: seq<Kind>, b: seq<Kind>, number: nat)
    ensures Effects(st, a + b, number) == Effects(Effects(st, a, number), b, number + |a|)
    decreases |a|
  {
    if a == [] {
      assert a + b == b;
    } else {
      assert (a + b)[1..] == a[1..] + b;
      EffectsConcat(Effect(st, a[0], number), a[1..], b, number + 1);
    }
  }

  lemma OneEffect(st: State, kind: Kind, number: nat)
    ensures Effects(st, [kind], number) == Effect(st, kind, number)
  {
    assert [kind][1..] == [];
  }

  /** A line with nothing on it but white space and a comment. */
  predicate IsBlank(line: Text) {
    Trim(WithoutComment(line)) == []
  }

  /** Blank and comment-only lines, wherever they are put, change neither the packages nor the
      catalog flag. */
  lemma BlankLinesIrrelevant(a: seq<Text>, blank: Text, b: seq<Text>)
    requires IsBlank(blank)
    ensures Core(Effects(START, Kinds(a + [blank] + b), 1)) == Core(Effects(START, Kinds(a + b), 1))
  {
    KindsConcat(a + [blank], b);
    KindsConcat(a, [blank]);
    KindsOne(blank);
    KindsConcat(a, b);
    SkipBlankKind(Kinds(a), Kinds(b));
  }

  lemma SkipBlankKind(a: seq<Kind>, b: seq<Kind>)
    ensures Core(Effects(START, a + [Blank] + b, 1)) == Core(Effects(START, a + b, 1))
  {
    var st := Effects(START, a, 1);
    EffectsConcat(START, a + [Blank], b, 1);
    EffectsConcat(START, a, [Blank], 1);
    OneEffect(st, Blank, 1 + |a|);
    EffectsConcat(START, a, b, 1);
    EffectsIgnoreWarnings(st, st, b, 1 + |a + [Blank]|, 1 + |a|);
  }

  // ------------------------------------------------------- when there is a package list

  predicate SetsPackages(kind: Kind) { kind.KeyLine? && kind.key.Packages? }

  predicate SetsCatalog(kind: Kind) { kind == KeyLine(Catalog) }

  /** `packages` is null exactly when no line is a top-level `packages` key, and the catalog
      flag is set exactly when some line is a top-level `catalog` or `catalogs` key. */
  lemma {:induction false} FlagsExact(kinds: seq<Kind>)
    ensures var st := Effects(START, kinds, 1);
            && (st.inBlock ==> st.packages.Some?)
            && (st.packages.Some? <==> exists i :: 0 <= i < |kinds| && SetsPackages(kinds[i]))
            && (st.catalogs <==> exists i :: 0 <= i < |kinds| && SetsCatalog(kinds[i]))
    decreases |kinds|
  {
    if kinds == [] {
    } else {
      var front, last := kinds[..|kinds| - 1], kinds[|kinds| - 1];
      assert kinds == front + [last];
      FlagsExact(front);
      EffectsConcat(START, front, [last], 1);
      var st := Effects(START, front, 1);
      OneEffect(st, last, 1 + |front|);
      EffectFlags(st, last, 1 + |front|);
    }
  }

  lemma {:induction false} EffectFlags(st: State, kind: Kind, number: nat)
    requires st.inBlock ==> st.packages.Some?
    ensures var st' := Effect(st, kind, number);
            && (st'.inBlock ==> st'.packages.Some?)
            && (st'.packages.Some? <==> st.packages.Some? || SetsPackages(kind))
            && (st'.catalogs <==> st.catalogs || SetsCatalog(kind))
    decreases st.inBlock
  {
    if st.inBlock {
      EffectFlags(st.(inBlock := false), kind, number);
    }
  }

  // ------------------------------------------------------------ which items are listed

  /** The indent of the first item between lines `p` and `n`, or -1 without one. */
  function FirstIndent(kinds: seq<Kind>, p: nat, n: nat): int
    requires n <= |kinds|
  {
    if n <= p + 1 then -1 else NextIndent(FirstIndent(kinds, p, n - 1), kinds[n - 1])
  }

  function NextIndent(first: int, kind: Kind): int {
    if first < 0 && kind.Item? then kind.indent else first
  }

  /** The line ends a package list whose first item has the given indent. */
  predicate Ends(kind: Kind, first: int) {
    match kind
    case KeyLine(_) => true
    case Item(indent, _, _) => indent < first
    case Content(atMargin) => atMargin
    case _ => false
  }

  /** Line `p` opens a package list that no line before `n` ends. */
  ghost predicate Open(kinds: seq<Kind>, p: nat, n: nat) {
    && p < n <= |kinds|
    && kinds[p] == KeyLine(Packages(false))
    && forall q :: p < q < n ==> !Ends(kinds[q], FirstIndent(kinds, p, q))
  }

  ghost predicate InList(kinds: seq<Kind>, n: nat) {
    exists p: nat :: Open(kinds, p, n)
  }

  /** Line `i` is an item with a value in an open package list. */
  ghost predicate Listed(kinds: seq<Kind>, i: nat) {
    i < |kinds| && kinds[i].Item? && kinds[i].value != [] && InList(kinds, i + 1)
  }

  ghost function ListedValues(kinds: seq<Kind>, n: nat): seq<Text>
    requires n <= |kinds|
  {
    if n == 0 then []
    else ListedValues(kinds, n - 1) + if Listed(kinds, n - 1) then [kinds[n - 1].value] else []
  }

  /** What the parser's variables say about the lines read so far. */
  ghost predicate Tracks(kinds: seq<Kind>, n: nat, st: State)
    requires n <= |kinds|
  {
    && (forall p: nat :: Open(kinds, p, n) ==> st.inBlock && st.indent == FirstIndent(kinds, p, n))
    && (st.inBlock ==> st.packages.Some? && InList(kinds, n))
    && ListedValues(kinds, n) == if st.packages.Some? then st.packages.value else []
  }

  /** Whether a list is still open one line further, and its first indent then. */
  lemma OpenStep(kinds: seq<Kind>, p: nat, n: nat, next: nat)
    requires n < |kinds| && next == n + 1
    ensures Open(kinds, p, next) <==>
            if p == n then kinds[n] == KeyLine(Packages(false))
            else Open(kinds, p, n) && !Ends(kinds[n], FirstIndent(kinds, p, n))
    ensures p < n ==> FirstIndent(kinds, p, next) == NextIndent(FirstIndent(kinds, p, n), kinds[n])
  {
  }

  /** A key line closes any list, and opens one when it is a `packages` key with no value. */
  lemma KeyTracks(kinds: seq<Kind>, n: nat, next: nat, st: State, number: nat)
    requires n < |kinds| && next == n + 1 && Tracks(kinds, n, st) && kinds[n].KeyLine?
    ensures Tracks(kinds, next, Effect(st, kinds[n], number))
  {
    forall p: nat ensures Open(kinds, p, next) <==> p == n && kinds[n] == KeyLine(Packages(false)) {
      OpenStep(kinds, p, n, next);
    }
    assert kinds[n] == KeyLine(Packages(false)) ==> Open(kinds, n, next);
    assert FirstIndent(kinds, n, next) == -1;
  }

  /** Outside a list any other line changes nothing. */
  lemma OutsideTracks(kinds: seq<Kind>, n: nat, next: nat, st: State, number: nat)
    requires n < |kinds| && next == n + 1 && Tracks(kinds, n, st) && !kinds[n].KeyLine? && !st.inBlock
    ensures Tracks(kinds, next, Effect(st, kinds[n], number))
  {
    forall p: nat ensures !Open(kinds, p, next) {
      OpenStep(kinds, p, n, next);
    }
    assert !InList(kinds, next);
  }

  lemma InsideEffect(st: State, kind: Kind, number: nat)
    requires st.inBlock && !kind.KeyLine?
    ensures var st', ends := Effect(st, kind, number), Ends(kind, st.indent);
            && st'.inBlock == !ends
            && (!ends ==> st'.indent == NextIndent(st.indent, kind))
            && st'.packages == if kind.Item? && !ends then PushItem(st.packages, kind.value) else st.packages
  {
  }

  lemma InsideSteps(kinds: seq<Kind>, n: nat, next: nat, st: State)
    requires n < |kinds| && next == n + 1 && Tracks(kinds, n, st) && !kinds[n].KeyLine?
    ensures forall p: nat :: Open(kinds, p, next) <==> Open(kinds, p, n) && !Ends(kinds[n], st.indent)
    ensures forall p: nat | p < n :: FirstIndent(kinds, p, next) == NextIndent(FirstIndent(kinds, p, n), kinds[n])
  {
    forall p: nat
      ensures Open(kinds, p, next) <==> Open(kinds, p, n) && !Ends(kinds[n], st.indent)
      ensures p < n ==> FirstIndent(kinds, p, next) == NextIndent(FirstIndent(kinds, p, n), kinds[n])
    {
      OpenStep(kinds, p, n, next);
    }
  }

  /** A line that ends the list it is in leaves no list open. */
  lemma EndTracks(kinds: seq<Kind>, n: nat, next: nat, st: State, number: nat)
    requires n < |kinds| && next == n + 1 && Tracks(kinds, n, st) && !kinds[n].KeyLine?
    requires st.inBlock && Ends(kinds[n], st.indent)
    ensures Tracks(kinds, next, Effect(st, kinds[n], number))
  {
    InsideSteps(kinds, n, next, st);
    InsideEffect(st, kinds[n], number);
    assert !InList(kinds, next);
  }

  /** Any other line inside a list keeps it open. */
  lemma StayTracks(kinds: seq<Kind>, n: nat, next: nat, st: State, number: nat)
    requires n < |kinds| && next == n + 1 && Tracks(kinds, n, st) && !kinds[n].KeyLine?
    requires st.inBlock && !Ends(kinds[n], st.indent)
    ensures Tracks(kinds, next, Effect(st, kinds[n], number))
  {
    InsideSteps(kinds, n, next, st);
    InsideEffect(st, kinds[n], number);
    var p: nat :| Open(kinds, p, n);
    assert Open(kinds, p, next);
  }

  lemma TracksStep(kinds: seq<Kind>, n: nat, next: nat, st: State, number: nat)
    requires n < |kinds| && next == n + 1 && Tracks(kinds, n, st)
    ensures Tracks(kinds, next, Effect(st, kinds[n], number))
  {
    if kinds[n].KeyLine? {
      KeyTracks(kinds, n, next, st, number);
    } else if st.inBlock && Ends(kinds[n], st.indent) {
      EndTracks(kinds, n, next, st, number);
    } else if st.inBlock {
      StayTracks(kinds, n, next, st, number);
    } else {
      OutsideTracks(kinds, n, next, st, number);
    }
  }

  lemma LastEffect(kinds: seq<Kind>, n: nat)
    requires 0 < n <= |kinds|
    ensures Effects(START, kinds[..n], 1) == Effect(Effects(START, kinds[..n - 1], 1), kinds[n - 1], n)
  {
    assert kinds[..n] == kinds[..n - 1] + [kinds[n - 1]];
    EffectsConcat(START, kinds[..n - 1], [kinds[n - 1]], 1);
    OneEffect(Effects(START, kinds[..n - 1], 1), kinds[n - 1], n);
  }

  lemma {:induction false} StateTracks(kinds: seq<Kind>, n: nat)
    requires n <= |kinds|
    ensures Tracks(kinds, n, Effects(START, kinds[..n], 1))
  {
    if n == 0 {
    } else {
      StateTracks(kinds, n - 1);
      LastEffect(kinds, n);
      TracksStep(kinds, n - 1, n, Effects(START, kinds[..n - 1], 1), n);
    }
  }

  /** The packages are exactly the non-empty items, in their order, of the lists that top-level
      `packages` keys open: each up to the first key, outdented item or other line at the
      margin. */
  lemma PackagesExactly(kinds: seq<Kind>)
    ensures var st := Effects(START, kinds, 1);
            ListedValues(kinds, |kinds|) == if st.packages.Some? then st.packages.value else []
  {
    StateTracks(kinds, |kinds|);
    assert kinds[..|kinds|] == kinds;
  }
}
