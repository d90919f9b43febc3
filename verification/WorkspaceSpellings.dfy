/** Workspace files the ways people spell them, read back. Nothing here says how the parser
    takes comments, quotes or white space away. */
module WorkspaceSpellings {
  import opened PnpmWorkspace
  import opened Results
  import opened Texts

  // ------------------------------------------------------------------ what is written

  datatype Spelling = Plain | WithQuotesInside | SingleQuoted | DoubleQuoted

  /** A list item: the glob, how it is quoted, the spaces before and after the dash, and the
      comment behind it. */
  datatype Entry = Entry(glob: Text, spelling: Spelling, indent: nat, gap: nat, comment: Option<Text>)

  /** A key at the margin with a block list below it. */
  datatype Block = Block(key: Text, comment: Option<Text>, entries: seq<Entry>)

  /** Text that can stand in one line. */
  ghost predicate InLine(t: Text) {
    0 !in t && OneLine(t)
  }

  /** Which globs each spelling can hold. */
  ghost predicate Spellable(glob: Text, spelling: Spelling) {
    && glob != [] && InLine(glob)
    && match spelling
       case SingleQuoted => Code('\'') !in glob
       case DoubleQuoted => Code('"') !in glob
       case Plain =>
         && Code('\'') !in glob && Code('"') !in glob
         && !IsWhiteSpace(glob[0]) && !IsWhiteSpace(glob[|glob| - 1])
         && forall i :: 0 <= i < |glob| && glob[i] == Code('#') ==> i > 0 && !IsWhiteSpace(glob[i - 1])
       case WithQuotesInside =>
         && Code('#') !in glob && !IsWhiteSpace(glob[0]) && !IsWhiteSpace(glob[|glob| - 1])
         && !(|glob| > 1 && glob[0] == glob[|glob| - 1] && (glob[0] == Code('\'') || glob[0] == Code('"')))
  }

  ghost predicate Commentable(comment: Option<Text>) {
    comment.Some? ==> InLine(comment.value)
  }

  ghost predicate Writable(e: Entry) {
    && Spellable(e.glob, e.spelling) && e.gap > 0 && Commentable(e.comment)
    && (e.spelling == WithQuotesInside ==> e.comment == None)
  }

  ghost predicate IsLetter(c: CodeUnit) {
    Code('a') <= c <= Code('z') || Code('A') <= c <= Code('Z')
  }

  /** Letters, digits, underscores and dashes, starting with neither a digit nor a dash. */
  ghost predicate IsWord(key: Text) {
    && key != [] && (IsLetter(key[0]) || key[0] == Code('_'))
    && forall i :: 0 <= i < |key| ==>
         IsLetter(key[i]) || Code('0') <= key[i] <= Code('9') || key[i] == Code('_') || key[i] == Code('-')
  }

  /** No entry is further out than the first. */
  ghost predicate WritableBlock(b: Block) {
    && IsWord(b.key) && Commentable(b.comment)
    && (forall e <- b.entries :: Writable(e) && b.entries[0].indent <= e.indent)
  }

  function Spaces(n: nat): (t: Text)
    ensures |t| == n && forall i :: 0 <= i < n ==> t[i] == Code(' ')
  {
    seq(n, _ => Code(' '))
  }

  function Spelled(glob: Text, spelling: Spelling): Text {
    match spelling
    case Plain => glob
    case WithQuotesInside => glob
    case SingleQuoted => [Code('\'')] + glob + [Code('\'')]
    case DoubleQuoted => [Code('"')] + glob + [Code('"')]
  }

  function Tail(comment: Option<Text>): Text {
    match comment
    case None => []
    case Some(c) => [Code(' '), Code('#')] + c
  }

  function Front(e: Entry): Text {
    Spaces(e.indent) + [Code('-')] + Spaces(e.gap)
  }

  function EntryLine(e: Entry): Text {
    Front(e) + Spelled(e.glob, e.spelling) + Tail(e.comment)
  }

  function KeyLineOf(b: Block): Text {
    b.key + [Code(':')] + Tail(b.comment)
  }

  function EntryLines(entries: seq<Entry>): (lines: seq<Text>)
    ensures |lines| == |entries| && forall i :: 0 <= i < |lines| ==> lines[i] == EntryLine(entries[i])
  {
    seq(|entries|, i requires 0 <= i < |entries| => EntryLine(entries[i]))
  }

  function BlockLines(b: Block): seq<Text> {
    [KeyLineOf(b)] + EntryLines(b.entries)
  }

  function Lines(blocks: seq<Block>): seq<Text> {
    if blocks == [] then [] else BlockLines(blocks[0]) + Lines(blocks[1..])
  }

  /** The blocks as a file, with either kind of line end. */
  function FileText(blocks: seq<Block>, carriageReturns: bool): Text {
    Join(Lines(blocks) + [[]], if carriageReturns then [Code('\r'), Code('\n')] else [Code('\n')])
  }

  // --------------------------------------------------------------- where comments start

  lemma {:induction false} OutsideQuotes(line: Text, i: nat, n: nat)
    requires i <= n <= |line|
    requires forall k :: i <= k < n ==> line[k] != SINGLE_QUOTE && line[k] != DOUBLE_QUOTE
    requires forall k :: i <= k < n && line[k] == HASH ==> k > 0 && !IsWhiteSpace(line[k - 1])
    ensures CommentStart(line, i, false, false) == CommentStart(line, n, false, false)
    decreases n - i
  {
    if i == n {
    } else {
      OutsideQuotes(line, i + 1, n);
    }
  }

  lemma {:induction false} InsideQuotes(line: Text, i: nat, n: nat, single: bool)
    requires i <= n <= |line|
    requires forall k :: i <= k < n ==> line[k] != if single then SINGLE_QUOTE else DOUBLE_QUOTE
    ensures CommentStart(line, i, single, !single) == CommentStart(line, n, single, !single)
    decreases n - i
  {
    if i == n {
    } else {
      InsideQuotes(line, i + 1, n, single);
    }
  }

  lemma QuotedHasNoComment(line: Text, at: nat, end: nat, single: bool)
    requires at + 1 < end <= |line|
    requires line[at] == line[end - 1] == if single then SINGLE_QUOTE else DOUBLE_QUOTE
    requires forall k :: at < k < end - 1 ==> line[k] != line[at]
    ensures CommentStart(line, at, false, false) == CommentStart(line, end, false, false)
  {
    assert CommentStart(line, at, false, false) == CommentStart(line, at + 1, single, !single);
    InsideQuotes(line, at + 1, end - 1, single);
    assert CommentStart(line, end - 1, single, !single) == CommentStart(line, end, false, false);
  }

  /** Where `body` stands in `front + body + tail`. */
  lemma StandsAt(front: Text, body: Text, tail: Text)
    ensures var line := front + body + tail;
            forall k :: 0 <= k < |body| ==> line[|front| + k] == body[k]
  {
  }

  lemma PlainHasNoComment(line: Text, at: nat, glob: Text)
    requires at + |glob| <= |line| && (forall k :: 0 <= k < |glob| ==> line[at + k] == glob[k])
    requires Spellable(glob, Plain)
    ensures CommentStart(line, at, false, false) == CommentStart(line, at + |glob|, false, false)
  {
    forall k | at <= k < at + |glob|
      ensures line[k] != SINGLE_QUOTE && line[k] != DOUBLE_QUOTE
      ensures line[k] == HASH ==> k > 0 && !IsWhiteSpace(line[k - 1])
    {
      assert line[at + (k - at)] == glob[k - at];
      if k > at {
        assert line[at + (k - at - 1)] == glob[k - at - 1];
      }
    }
    OutsideQuotes(line, at, at + |glob|);
  }

  lemma QuotedBody(line: Text, at: nat, body: Text, glob: Text, quote: CodeUnit)
    requires at + |body| <= |line| && (forall k :: 0 <= k < |body| ==> line[at + k] == body[k])
    requires body == [quote] + glob + [quote] && quote !in glob
    ensures line[at] == line[at + |body| - 1] == quote && |body| > 1
    ensures forall k :: at < k < at + |body| - 1 ==> line[k] != quote
  {
    assert line[at + 0] == body[0] && line[at + (|body| - 1)] == body[|body| - 1];
    forall k | at < k < at + |body| - 1 ensures line[k] != quote {
      assert line[at + (k - at)] == body[k - at] == glob[k - at - 1];
    }
  }

  /** No comment starts inside a spelled glob. */
  lemma SpelledHasNoComment(line: Text, at: nat, glob: Text, spelling: Spelling)
    requires Spellable(glob, spelling) && spelling != WithQuotesInside
    requires var body := Spelled(glob, spelling);
             at + |body| <= |line| && forall k :: 0 <= k < |body| ==> line[at + k] == body[k]
    ensures CommentStart(line, at, false, false) ==
            CommentStart(line, at + |Spelled(glob, spelling)|, false, false)
  {
    var body := Spelled(glob, spelling);
    match spelling
    case Plain => PlainHasNoComment(line, at, glob);
    case SingleQuoted =>
      QuotedBody(line, at, body, glob, SINGLE_QUOTE);
      QuotedHasNoComment(line, at, at + |body|, true);
    case DoubleQuoted =>
      QuotedBody(line, at, body, glob, DOUBLE_QUOTE);
      QuotedHasNoComment(line, at, at + |body|, false);
  }

  /** What is left of a comment: the space before it. */
  function Pad(comment: Option<Text>): Text {
    if comment.Some? then [SPACE] else []
  }

  lemma TailIsComment(head: Text, comment: Option<Text>)
    requires CommentStart(head + Tail(comment), 0, false, false) ==
             CommentStart(head + Tail(comment), |head|, false, false)
    ensures WithoutComment(head + Tail(comment)) == head + Pad(comment)
  {
    var line := head + Tail(comment);
    if comment.Some? {
      HashStarts(line, |head|);
      CutAfter(head, comment.value, line);
    } else {
      CutAtEnd(head, line);
    }
  }

  lemma HashStarts(line: Text, i: nat)
    requires i + 1 < |line| && line[i] == SPACE && line[i + 1] == HASH
    ensures CommentStart(line, i, false, false) == i + 1
  {
    assert CommentStart(line, i, false, false) == CommentStart(line, i + 1, false, false);
  }

  lemma CutAfter(head: Text, c: Text, line: Text)
    requires line == head + ([SPACE, HASH] + c)
    ensures line[..|head| + 1] == head + [SPACE]
  {
  }

  lemma CutAtEnd(head: Text, line: Text)
    requires line == head + []
    ensures line[..|head|] == head + []
  {
  }

  lemma {:induction false} NoHash(line: Text, i: nat, inSingle: bool, inDouble: bool)
    requires i <= |line| && HASH !in line
    ensures CommentStart(line, i, inSingle, inDouble) == |line|
    decreases |line| - i
  {
    if i == |line| {
    } else {
      assert line[i] in line;
      NoHash(line, i + 1,
             if line[i] == SINGLE_QUOTE && !inDouble then !inSingle else inSingle,
             if line[i] == DOUBLE_QUOTE && !inSingle then !inDouble else inDouble);
    }
  }

  /** A line without a hash has no comment. */
  lemma NoHashStripped(line: Text)
    requires HASH !in line
    ensures WithoutComment(line) == line
  {
    NoHash(line, 0, false, false);
    assert line[..|line|] == line;
  }

  lemma FrontStripped(front: Text, glob: Text, spelling: Spelling, comment: Option<Text>)
    requires forall k :: 0 <= k < |front| ==> front[k] == SPACE || front[k] == DASH
    requires Spellable(glob, spelling) && spelling != WithQuotesInside
    ensures var body := Spelled(glob, spelling);
            WithoutComment(front + body + Tail(comment)) == front + body + Pad(comment)
  {
    var body, tail := Spelled(glob, spelling), Tail(comment);
    var line := front + body + tail;
    FrontHasNoComment(front, body + tail);
    ConcatAssociative(front, body, tail);
    StandsAt(front, body, tail);
    SpelledHasNoComment(line, |front|, glob, spelling);
    TailIsComment(front + body, comment);
  }

  lemma FrontHasNoComment(front: Text, rest: Text)
    requires forall k :: 0 <= k < |front| ==> front[k] == SPACE || front[k] == DASH
    ensures CommentStart(front + rest, 0, false, false) == CommentStart(front + rest, |front|, false, false)
  {
    OutsideQuotes(front + rest, 0, |front|);
  }

  lemma EntryStripped(e: Entry)
    requires Writable(e)
    ensures WithoutComment(EntryLine(e)) == Front(e) + Spelled(e.glob, e.spelling) + Pad(e.comment)
  {
    if e.spelling == WithQuotesInside {
      var line := Front(e) + e.glob;
      assert line + [] == line;
      NoHashStripped(line);
    } else {
      FrontStripped(Front(e), e.glob, e.spelling, e.comment);
    }
  }

  // ---------------------------------------------------------------- what each line is

  /** A text that starts and ends with something to see, and stays in its line. */
  ghost predicate Solid(t: Text) {
    t != [] && !IsWhiteSpace(t[0]) && !IsWhiteSpace(t[|t| - 1]) && InLine(t)
  }

  lemma QuotedEnds(quote: CodeUnit, glob: Text)
    requires (quote == SINGLE_QUOTE || quote == DOUBLE_QUOTE) && InLine(glob)
    ensures Solid([quote] + glob + [quote])
    ensures Unquote([quote] + glob + [quote]) == glob
  {
    var body := [quote] + glob + [quote];
    assert body[1..|body| - 1] == glob;
    assert 0 !in body;
  }

  lemma SpelledEnds(glob: Text, spelling: Spelling)
    requires Spellable(glob, spelling)
    ensures Solid(Spelled(glob, spelling))
    ensures Unquote(Spelled(glob, spelling)) == glob
  {
    match spelling
    case Plain => assert glob[0] in glob;
    case WithQuotesInside =>
    case SingleQuoted => QuotedEnds(SINGLE_QUOTE, glob);
    case DoubleQuoted => QuotedEnds(DOUBLE_QUOTE, glob);
  }

  lemma EntryMatched(indent: nat, gap: nat, body: Text, comment: Option<Text>)
    requires gap > 0 && body != [] && !IsWhiteSpace(body[0]) && OneLine(body)
    ensures var stripped := Spaces(indent) + [DASH] + Spaces(gap) + body + Pad(comment);
            && RunLength(stripped, c => c == SPACE) == indent
            && MatchListItem(stripped) == Some((indent, body + Pad(comment)))
  {
    var rest := body + Pad(comment);
    var stripped := Spaces(indent) + [DASH] + Spaces(gap) + body + Pad(comment);
    assert stripped[indent + 1..] == Spaces(gap) + rest;
    assert stripped[indent + 1 + gap..] == rest;
    DashMatched(stripped, indent, gap, rest);
  }

  lemma DashMatched(stripped: Text, indent: nat, gap: nat, rest: Text)
    requires indent + 1 + gap <= |stripped| && stripped[indent] == DASH && gap > 0
    requires forall k :: 0 <= k < indent ==> stripped[k] == SPACE
    requires var after := stripped[indent + 1..]; forall k :: 0 <= k < gap ==> after[k] == SPACE
    requires stripped[indent + 1 + gap..] == rest != [] && !IsWhiteSpace(rest[0]) && OneLine(rest)
    ensures RunLength(stripped, c => c == SPACE) == indent
    ensures MatchListItem(stripped) == Some((indent, rest))
  {
    RunLengthIs(stripped, c => c == SPACE, indent);
    RunLengthIs(stripped, IsWhiteSpace, indent);
    GapRun(stripped[indent + 1..], gap, stripped[indent + 1 + gap]);
    NoTerminator(rest);
    ListItemIs(stripped, indent, gap, rest);
  }

  lemma ListItemIs(stripped: Text, indent: nat, gap: nat, rest: Text)
    requires RunLength(stripped, IsWhiteSpace) == indent < |stripped| && stripped[indent] == DASH
    requires RunLength(stripped[indent + 1..], IsWhiteSpace) == gap > 0
    requires stripped[indent + 1 + gap..] == rest && !HasLineTerminator(rest)
    ensures MatchListItem(stripped) == Some((indent, rest))
  {
  }

  lemma NoTerminator(t: Text)
    requires OneLine(t)
    ensures !HasLineTerminator(t)
  {
  }

  lemma GapRun(after: Text, gap: nat, next: CodeUnit)
    requires gap < |after| && after[gap] == next && !IsWhiteSpace(next)
    requires forall k :: 0 <= k < gap ==> after[k] == SPACE
    ensures RunLength(after, IsWhiteSpace) == gap
  {
    RunLengthIs(after, IsWhiteSpace, gap);
  }

  lemma {:induction false} TrimNotEmpty(t: Text, k: nat)
    requires k < |t| && !IsWhiteSpace(t[k])
    ensures Trim(t) != []
  {
    if IsWhiteSpace(t[0]) {
      TrimNotEmpty(t[1..], k - 1);
    } else {
      TrimEndNotEmpty(t);
    }
  }

  lemma {:induction false} TrimEndNotEmpty(t: Text)
    requires t != [] && !IsWhiteSpace(t[0])
    ensures TrimEnd(t) != []
  {
    if !IsWhiteSpace(t[|t| - 1]) {
    } else {
      TrimEndNotEmpty(t[..|t| - 1]);
    }
  }

  lemma TrimPad(body: Text, comment: Option<Text>)
    requires body != [] ==> !IsWhiteSpace(body[0]) && !IsWhiteSpace(body[|body| - 1])
    ensures Trim(body + Pad(comment)) == body
  {
    assert [] + body + Pad(comment) == body + Pad(comment);
    TrimExactly([], body, Pad(comment));
  }

  /** A dash behind spaces: no key line, and no blank one. */
  lemma DashNotBlank(stripped: Text, indent: nat)
    requires indent < |stripped| && stripped[indent] == DASH
    ensures Trim(stripped) != [] && (indent == 0 ==> MatchKey(stripped).None?)
  {
    TrimNotEmpty(stripped, indent);
  }

  lemma ItemText(stripped: Text, indent: nat, rest: Text)
    requires RunLength(stripped, c => c == SPACE) == indent && MatchListItem(stripped) == Some((indent, rest))
    requires indent == 0 ==> MatchKey(stripped).None?
    ensures ClassifyText(stripped) == Item(indent, Unquote(Trim(rest)), indent == 0)
  {
  }

  lemma ItemLineKind(line: Text, indent: nat, gap: nat, body: Text, comment: Option<Text>)
    requires gap > 0 && Solid(body)
    requires WithoutComment(line) == Spaces(indent) + [DASH] + Spaces(gap) + body + Pad(comment)
    ensures Classify(line) == Item(indent, Unquote(body), indent == 0)
  {
    var stripped := Spaces(indent) + [DASH] + Spaces(gap) + body + Pad(comment);
    EntryMatched(indent, gap, body, comment);
    DashNotBlank(stripped, indent);
    TrimPad(body, comment);
    ItemText(stripped, indent, body + Pad(comment));
    assert line[0] == stripped[0];
  }

  lemma EntryKind(e: Entry)
    requires Writable(e)
    ensures Classify(EntryLine(e)) == Item(e.indent, e.glob, e.indent == 0)
  {
    EntryStripped(e);
    SpelledEnds(e.glob, e.spelling);
    ItemLineKind(EntryLine(e), e.indent, e.gap, Spelled(e.glob, e.spelling), e.comment);
  }

  /** A key and its colon hold nothing a comment could start with. */
  lemma KeyStripped(key: Text, comment: Option<Text>)
    requires IsWord(key)
    ensures WithoutComment(key + [COLON] + Tail(comment)) == key + [COLON] + Pad(comment)
  {
    var head := key + [COLON];
    var line := head + Tail(comment);
    assert forall k :: 0 <= k < |key| ==> line[k] == key[k];
    OutsideQuotes(line, 0, |head|);
    TailIsComment(head, comment);
  }

  lemma KeyMatched(key: Text, rest: Text)
    requires IsWord(key) && OneLine(rest)
    ensures var stripped := key + [COLON] + rest;
            RunLength(stripped, c => c == SPACE) == 0 && MatchKey(stripped) == Some((key, rest))
  {
    var stripped := key + [COLON] + rest;
    assert forall k :: 0 <= k < |key| ==> stripped[k] == key[k];
    RunLengthIs(stripped, c => c == SPACE, 0);
    RunLengthIs(stripped, IsKeyPart, |key|);
    RunLengthIs(stripped[|key|..], IsWhiteSpace, 0);
    assert stripped[..|key|] == key && stripped[|key| + 1..] == rest;
  }

  lemma KeyText(stripped: Text, key: Text, rest: Text)
    requires RunLength(stripped, c => c == SPACE) == 0 && MatchKey(stripped) == Some((key, rest))
    ensures ClassifyText(stripped) == KeyLine(KeyOf(key, Trim(rest)))
  {
  }

  lemma TextKind(line: Text, stripped: Text)
    requires stripped != [] && WithoutComment(line) == stripped && IsKeyStart(stripped[0])
    ensures Classify(line) == ClassifyText(stripped)
  {
    TrimNotEmpty(stripped, 0);
    assert line[0] == stripped[0];
  }

  lemma KeyKind(b: Block)
    requires WritableBlock(b)
    ensures Classify(KeyLineOf(b)) == KeyLine(KeyOf(b.key, []))
  {
    var stripped := b.key + [COLON] + Pad(b.comment);
    KeyStripped(b.key, b.comment);
    KeyMatched(b.key, Pad(b.comment));
    KeyText(stripped, b.key, Pad(b.comment));
    TrimPad([], b.comment);
    assert [] + Pad(b.comment) == Pad(b.comment);
    TextKind(KeyLineOf(b), stripped);
  }

  // ---------------------------------------------------------------- what the lines do

  function Globs(entries: seq<Entry>): (globs: seq<Text>)
    ensures |globs| == |entries| && forall i :: 0 <= i < |entries| ==> globs[i] == entries[i].glob
  {
    seq(|entries|, i requires 0 <= i < |entries| => entries[i].glob)
  }

  function EntryItem(e: Entry): Kind {
    Item(e.indent, e.glob, e.indent == 0)
  }

  function EntryKinds(entries: seq<Entry>): (kinds: seq<Kind>)
    ensures |kinds| == |entries| && forall i :: 0 <= i < |entries| ==> kinds[i] == EntryItem(entries[i])
  {
    seq(|entries|, i requires 0 <= i < |entries| => EntryItem(entries[i]))
  }

  function BlockKinds(b: Block): seq<Kind> {
    [KeyLine(KeyOf(b.key, []))] + EntryKinds(b.entries)
  }

  predicate IsPackages(b: Block) {
    b.key == Ascii("packages")
  }

  predicate IsCatalog(b: Block) {
    b.key == Ascii("catalog") || b.key == Ascii("catalogs")
  }

  /** The globs of a block, if they are packages. */
  function OwnGlobs(b: Block): seq<Text> {
    if IsPackages(b) then Globs(b.entries) else []
  }

  /** The globs below the `packages` keys, in order. */
  function PackageGlobs(blocks: seq<Block>): seq<Text> {
    if blocks == [] then []
    else OwnGlobs(blocks[0]) + PackageGlobs(blocks[1..])
  }

  lemma EntryKindsCons(entries: seq<Entry>)
    requires entries != []
    ensures EntryKinds(entries) != [] && EntryKinds(entries)[1..] == EntryKinds(entries[1..])
    ensures Globs(entries) == [entries[0].glob] + Globs(entries[1..])
  {
  }

  lemma {:induction false} EntriesOutside(st: State, entries: seq<Entry>, number: nat)
    requires !st.inBlock
    ensures Effects(st, EntryKinds(entries), number) == st
    decreases |entries|
  {
    if entries == [] {
    } else {
      EntryKindsCons(entries);
      EntriesOutside(st, entries[1..], number + 1);
    }
  }

  lemma {:induction false} EntriesInside(st: State, entries: seq<Entry>, number: nat)
    requires st.inBlock && st.packages.Some? && forall e <- entries :: e.glob != []
    requires forall e <- entries :: (if st.indent < 0 then entries[0].indent else st.indent) <= e.indent
    ensures var r := Effects(st, EntryKinds(entries), number);
            && r.packages == Some(st.packages.value + Globs(entries))
            && r.catalogs == st.catalogs && r.warnings == st.warnings
    decreases |entries|
  {
    if entries == [] {
      assert st.packages.value + Globs(entries) == st.packages.value;
    } else {
      EntryKindsCons(entries);
      var e := entries[0];
      assert e in entries;
      var next := Effect(st, EntryItem(e), number);
      assert next.packages == Some(st.packages.value + [e.glob]);
      EntriesInside(next, entries[1..], number + 1);
      ConcatAssociative(st.packages.value, [e.glob], Globs(entries[1..]));
    }
  }

  function Known(packages: Option<seq<Text>>): seq<Text> {
    if packages.Some? then packages.value else []
  }

  /** What a block does to the packages and the catalog flag. */
  ghost predicate After(st: State, r: State, packages: bool, globs: seq<Text>, catalog: bool) {
    && r.packages == (if packages then Some(Known(st.packages) + globs) else st.packages)
    && r.catalogs == (st.catalogs || catalog)
    && r.warnings == st.warnings
  }

  lemma BlockRead(st: State, b: Block, number: nat)
    requires WritableBlock(b)
    ensures After(st, Effects(st, BlockKinds(b), number), IsPackages(b), OwnGlobs(b), IsCatalog(b))
  {
    var next := Effect(st, KeyLine(KeyOf(b.key, [])), number);
    KeyEffect(st, b.key, number);
    assert BlockKinds(b)[1..] == EntryKinds(b.entries);
    if IsPackages(b) {
      EntriesInside(next, b.entries, number + 1);
    } else {
      EntriesOutside(next, b.entries, number + 1);
    }
  }

  lemma KeyEffect(st: State, key: Text, number: nat)
    ensures var next, lists := Effect(st, KeyLine(KeyOf(key, [])), number), key == Ascii("packages");
            && next.inBlock == lists
            && (lists ==> next.indent == -1)
            && next.packages == (if lists then Some(Known(st.packages)) else st.packages)
            && next.catalogs == (st.catalogs || key == Ascii("catalog") || key == Ascii("catalogs"))
            && next.warnings == st.warnings
  {
    KeysDiffer();
  }

  lemma KeysDiffer()
    ensures Ascii("packages") != Ascii("catalog") && Ascii("packages") != Ascii("catalogs")
  {
    assert Ascii("packages")[0] != Ascii("catalog")[0];
    assert Ascii("packages")[0] != Ascii("catalogs")[0];
  }

  lemma BlockLinesKinds(b: Block)
    requires WritableBlock(b)
    ensures Kinds(BlockLines(b)) == BlockKinds(b)
  {
    KeyKind(b);
    KindsConcat([KeyLineOf(b)], EntryLines(b.entries));
    KindsOne(KeyLineOf(b));
    forall i | 0 <= i < |b.entries|
      ensures Classify(EntryLine(b.entries[i])) == EntryKinds(b.entries)[i]
    {
      assert b.entries[i] in b.entries;
      EntryKind(b.entries[i]);
    }
    assert Kinds(EntryLines(b.entries)) == EntryKinds(b.entries);
  }

  lemma AfterBoth(st: State, mid: State, r: State, p: bool, globs: seq<Text>, c: bool,
                  q: bool, more: seq<Text>, d: bool)
    requires After(st, mid, p, globs, c) && After(mid, r, q, more, d)
    requires (!p ==> globs == []) && (!q ==> more == [])
    ensures After(st, r, p || q, globs + more, c || d)
  {
    ConcatAssociative(Known(st.packages), globs, more);
    assert !q ==> globs + more == globs;
    assert !p ==> globs + more == more;
  }

  lemma {:induction false} NoGlobs(blocks: seq<Block>)
    requires forall b <- blocks :: !IsPackages(b)
    ensures PackageGlobs(blocks) == []
  {
    if blocks == [] {
    } else {
      assert blocks[0] in blocks;
      NoGlobs(blocks[1..]);
    }
  }

  function AllKinds(blocks: seq<Block>): seq<Kind> {
    if blocks == [] then [] else BlockKinds(blocks[0]) + AllKinds(blocks[1..])
  }

  lemma {:induction false} LinesKinds(blocks: seq<Block>)
    requires forall b <- blocks :: WritableBlock(b)
    ensures Kinds(Lines(blocks)) == AllKinds(blocks)
    decreases |blocks|
  {
    if blocks == [] {
    } else {
      assert blocks[0] in blocks;
      KindsConcat(BlockLines(blocks[0]), Lines(blocks[1..]));
      BlockLinesKinds(blocks[0]);
      LinesKinds(blocks[1..]);
    }
  }

  ghost predicate AnyPackages(blocks: seq<Block>) {
    exists b <- blocks :: IsPackages(b)
  }

  ghost predicate AnyCatalog(blocks: seq<Block>) {
    exists b <- blocks :: IsCatalog(b)
  }

  lemma AnyCons(b: Block, rest: seq<Block>)
    ensures AnyPackages([b] + rest) <==> IsPackages(b) || AnyPackages(rest)
    ensures AnyCatalog([b] + rest) <==> IsCatalog(b) || AnyCatalog(rest)
    ensures !AnyPackages(rest) ==> PackageGlobs(rest) == []
  {
    var blocks := [b] + rest;
    assert b in blocks && forall x <- rest :: x in blocks;
    if !AnyPackages(rest) {
      NoGlobs(rest);
    }
  }

  ghost predicate ReadAs(st: State, blocks: seq<Block>, r: State) {
    After(st, r, AnyPackages(blocks), PackageGlobs(blocks), AnyCatalog(blocks))
  }

  lemma NothingRead(st: State, number: nat)
    ensures ReadAs(st, [], Effects(st, [], number))
  {
  }

  lemma FirstRead(st: State, b: Block, rest: seq<Block>, r: State, number: nat)
    requires WritableBlock(b) && ReadAs(Effects(st, BlockKinds(b), number), rest, r)
    ensures ReadAs(st, [b] + rest, r)
  {
    BlockRead(st, b, number);
    AnyCons(b, rest);
    AfterBoth(st, Effects(st, BlockKinds(b), number), r, IsPackages(b), OwnGlobs(b), IsCatalog(b),
              AnyPackages(rest), PackageGlobs(rest), AnyCatalog(rest));
    assert ([b] + rest)[1..] == rest;
  }

  lemma {:induction false} BlocksRead(st: State, blocks: seq<Block>, number: nat)
    requires forall b <- blocks :: WritableBlock(b)
    ensures ReadAs(st, blocks, Effects(st, AllKinds(blocks), number))
    decreases |blocks|
  {
    if blocks == [] {
      NothingRead(st, number);
    } else {
      var b, rest := blocks[0], blocks[1..];
      assert blocks == [b] + rest && b in blocks;
      EffectsConcat(st, BlockKinds(b), AllKinds(rest), number);
      BlocksRead(Effects(st, BlockKinds(b), number), rest, number + |BlockKinds(b)|);
      FirstRead(st, b, rest, Effects(st, AllKinds(blocks), number), number);
    }
  }

  // ---------------------------------------------------------------------- the file

  /** What has no line end and no NUL in it. */
  ghost predicate Clean(t: Text) {
    0 !in t && CR !in t && NEWLINE !in t
  }

  lemma CleanBoth(a: Text, b: Text)
    requires Clean(a) && Clean(b)
    ensures Clean(a + b)
  {
  }

  lemma InLineClean(t: Text)
    requires InLine(t)
    ensures Clean(t)
  {
  }

  lemma TailClean(comment: Option<Text>)
    requires Commentable(comment)
    ensures Clean(Tail(comment))
  {
    if comment.Some? {
      InLineClean(comment.value);
    }
  }

  lemma EntryClean(e: Entry)
    requires Writable(e)
    ensures Clean(EntryLine(e))
  {
    SpelledEnds(e.glob, e.spelling);
    InLineClean(Spelled(e.glob, e.spelling));
    TailClean(e.comment);
    FrontClean(Front(e));
    CleanBoth(Front(e), Spelled(e.glob, e.spelling));
    CleanBoth(Front(e) + Spelled(e.glob, e.spelling), Tail(e.comment));
  }

  lemma FrontClean(front: Text)
    requires forall k :: 0 <= k < |front| ==> front[k] == SPACE || front[k] == DASH
    ensures Clean(front)
  {
  }

  lemma KeyClean(b: Block)
    requires WritableBlock(b)
    ensures Clean(KeyLineOf(b))
  {
    TailClean(b.comment);
    assert forall c <- b.key :: IsKeyPart(c);
    CleanBoth(b.key, [COLON]);
    CleanBoth(b.key + [COLON], Tail(b.comment));
  }

  ghost predicate AllClean(lines: seq<Text>) {
    forall line <- lines :: Clean(line)
  }

  lemma CleanLists(a: seq<Text>, b: seq<Text>)
    requires AllClean(a) && AllClean(b)
    ensures AllClean(a + b)
  {
  }

  lemma BlockClean(b: Block)
    requires WritableBlock(b)
    ensures AllClean(BlockLines(b))
  {
    var lines := EntryLines(b.entries);
    forall line | line in lines ensures Clean(line) {
      var i :| 0 <= i < |lines| && line == lines[i];
      assert b.entries[i] in b.entries;
      EntryClean(b.entries[i]);
    }
    KeyClean(b);
    CleanLists([KeyLineOf(b)], lines);
  }

  lemma {:induction false} LinesClean(blocks: seq<Block>)
    requires forall b <- blocks :: WritableBlock(b)
    ensures AllClean(Lines(blocks))
    decreases |blocks|
  {
    if blocks == [] {
    } else {
      assert blocks[0] in blocks;
      BlockClean(blocks[0]);
      LinesClean(blocks[1..]);
      CleanLists(BlockLines(blocks[0]), Lines(blocks[1..]));
    }
  }

  lemma {:induction false} JoinHasNot(parts: seq<Text>, sep: Text, c: CodeUnit)
    requires c !in sep && forall part <- parts :: c !in part
    ensures c !in Join(parts, sep)
  {
    if |parts| <= 1 {
    } else {
      JoinHasNot(parts[1..], sep, c);
    }
  }

  lemma {:induction false} UnixPiece(piece: Text, rest: Text)
    requires CR !in piece
    ensures UnixNewlines(piece + rest) == piece + UnixNewlines(rest)
  {
    if piece == [] {
      assert piece + rest == rest;
    } else {
      assert (piece + rest)[1..] == piece[1..] + rest;
      UnixPiece(piece[1..], rest);
      assert [piece[0]] + (piece[1..] + UnixNewlines(rest)) == piece + UnixNewlines(rest);
    }
  }

  lemma UnixEnd(carriageReturns: bool, rest: Text)
    ensures UnixNewlines((if carriageReturns then [CR, NEWLINE] else [NEWLINE]) + rest) ==
            [NEWLINE] + UnixNewlines(rest)
  {
    assert ([CR, NEWLINE] + rest)[2..] == rest;
    assert ([NEWLINE] + rest)[1..] == rest;
  }

  /** Either kind of line end is read as a newline. */
  lemma {:induction false} UnixJoin(parts: seq<Text>, carriageReturns: bool)
    requires AllClean(parts)
    ensures UnixNewlines(Join(parts, if carriageReturns then [CR, NEWLINE] else [NEWLINE])) == Join(parts, [NEWLINE])
    decreases |parts|
  {
    var end := if carriageReturns then [CR, NEWLINE] else [NEWLINE];
    if |parts| == 0 {
      return;
    }
    assert Clean(parts[0]);
    if |parts| == 1 {
      UnixPiece(parts[0], []);
      assert parts[0] + [] == parts[0];
    } else {
      var rest := Join(parts[1..], end);
      UnixJoin(parts[1..], carriageReturns);
      ConcatAssociative(parts[0], end, rest);
      UnixPiece(parts[0], end + rest);
      UnixEnd(carriageReturns, rest);
      ConcatAssociative(parts[0], [NEWLINE], UnixNewlines(rest));
    }
  }

  lemma FileSplits(blocks: seq<Block>, carriageReturns: bool)
    requires forall b <- blocks :: WritableBlock(b)
    ensures var text := FileText(blocks, carriageReturns);
            0 !in text && Split(UnixNewlines(text), NEWLINE) == Lines(blocks) + [[]]
  {
    var lines: seq<Text> := Lines(blocks) + [[]];
    LinesClean(blocks);
    CleanLists(Lines(blocks), [[]]);
    JoinHasNot(lines, if carriageReturns then [CR, NEWLINE] else [NEWLINE], 0);
    UnixJoin(lines, carriageReturns);
    SplitJoin(lines, NEWLINE);
  }

  /** A file with any keys in any order parses to the globs listed below its `packages` keys, in
      order, and to whether it has a catalog, whichever way each glob is quoted, indented and
      commented and whichever line ends the file has. */
  lemma PrintParses(blocks: seq<Block>, carriageReturns: bool)
    requires forall b <- blocks :: WritableBlock(b)
    ensures Parsed(FileText(blocks, carriageReturns)) ==
            Success(WorkspaceFile(if AnyPackages(blocks) then Some(PackageGlobs(blocks)) else None,
                                  AnyCatalog(blocks), []))
  {
    FileSplits(blocks, carriageReturns);
    LinesKinds(blocks);
    KindsConcat(Lines(blocks), [[]]);
    KindsOne([]);
    BlankLast(AllKinds(blocks));
    BlocksRead(START, blocks, 1);
    assert [] + PackageGlobs(blocks) == PackageGlobs(blocks);
  }

  lemma BlankLast(kinds: seq<Kind>)
    ensures Classify([]) == Blank && Effects(START, kinds + [Blank], 1) == Effects(START, kinds, 1)
  {
    EffectsConcat(START, kinds, [Blank], 1);
    OneEffect(Effects(START, kinds, 1), Blank, 1 + |kinds|);
  }

  // ------------------------------------------------------------------- the warnings

  /** Text without quotes and comments that starts and ends with something to see. */
  ghost predicate Bare(t: Text) {
    Solid(t) && Spellable(t, Plain)
  }

  lemma BareStripped(head: Text, t: Text)
    requires forall k :: 0 <= k < |head| ==> head[k] != SINGLE_QUOTE && head[k] != DOUBLE_QUOTE && head[k] != HASH
    requires Bare(t)
    ensures WithoutComment(head + t) == head + t
  {
    var line := head + t;
    assert line + [] == line;
    OutsideQuotes(line, 0, |head|);
    StandsAt(head, t, []);
    PlainHasNoComment(line, |head|, t);
    assert line[..|line|] == line;
  }

  lemma OneLineFile(line: Text, kind: Kind)
    requires Clean(line) && Classify(line) == kind
    ensures var st := Effect(START, kind, 1);
            Parsed(line) == Success(WorkspaceFile(st.packages, st.catalogs, st.warnings))
  {
    UnixPiece(line, []);
    assert line + [] == line;
    SplitWithoutSeparator(line, NEWLINE);
    KindsOne(line);
    OneEffect(START, kind, 1);
  }

  lemma ValueKind(key: Text, value: Text)
    requires IsWord(key) && Bare(value)
    ensures var line := key + [COLON, SPACE] + value;
            Clean(line) && Classify(line) == KeyLine(KeyOf(key, value))
  {
    var head, rest := key + [COLON, SPACE], [SPACE] + value;
    assert head + value == key + [COLON] + rest;
    assert forall k :: 0 <= k < |key| ==> head[k] == key[k];
    BareStripped(head, value);
    KeyMatched(key, rest);
    KeyText(head + value, key, rest);
    TextKind(head + value, head + value);
    assert [SPACE] + value + [] == rest;
    TrimExactly([SPACE], value, []);
    InLineClean(value);
    WordClean(key);
    CleanBoth(head, value);
  }

  lemma WordClean(key: Text)
    requires IsWord(key)
    ensures Clean(key + [COLON, SPACE])
  {
  }

  lemma PackagesWord()
    ensures IsWord(Ascii("packages"))
  {
  }

  lemma ValueEffect(value: Text)
    requires value != []
    ensures var st := Effect(START, KeyLine(KeyOf(Ascii("packages"), value)), 1);
            && st.packages == Some([]) && !st.catalogs
            && st.warnings == if value == Ascii("|") || value == Ascii(">") then [] else [Warning(1, InlinePackages)]
  {
    assert START.warnings + [Warning(1, InlinePackages)] == [Warning(1, InlinePackages)];
  }

  /** Any value on the line of a `packages` key but a block scalar's bar or angle bracket is
      refused with a warning, and the list is empty. */
  lemma InlineValueWarned(value: Text)
    requires Bare(value)
    ensures Parsed(Ascii("packages") + [COLON, SPACE] + value) ==
            Success(WorkspaceFile(Some([]), false,
              if value == Ascii("|") || value == Ascii(">") then [] else [Warning(1, InlinePackages)]))
  {
    PackagesWord();
    ValueKind(Ascii("packages"), value);
    OneLineFile(Ascii("packages") + [COLON, SPACE] + value, KeyLine(KeyOf(Ascii("packages"), value)));
    ValueEffect(value);
  }

  /** A key with a line terminator other than a newline behind it is none. */
  lemma TerminatorNoKey(key: Text, rest: Text, i: nat)
    requires IsWord(key) && 0 !in rest && NEWLINE !in rest && Code('#') !in rest
    requires i < |rest| && (rest[i] == CR || rest[i] == 0x2028 || rest[i] == 0x2029)
    ensures Parsed(key + [COLON] + rest) == Success(WorkspaceFile(None, false, []))
  {
    var line := key + [COLON] + rest;
    TerminatorKind(key, rest, i);
    assert 0 !in line && NEWLINE !in line by {
      WordClean(key);
    }
    NoCarriageEnd(line);
    SplitWithoutSeparator(line, NEWLINE);
    KindsOne(line);
    OneEffect(START, Content(true), 1);
  }

  lemma {:induction false} NoCarriageEnd(line: Text)
    requires NEWLINE !in line
    ensures UnixNewlines(line) == line
  {
    if line == [] {
    } else {
      assert line == [line[0]] + line[1..];
      assert |line| >= 2 ==> line[1] in line;
      NoCarriageEnd(line[1..]);
    }
  }

  lemma TerminatorKind(key: Text, rest: Text, i: nat)
    requires IsWord(key) && HASH !in rest
    requires i < |rest| && IsLineTerminator(rest[i])
    ensures Classify(key + [COLON] + rest) == Content(true)
  {
    var line := key + [COLON] + rest;
    WordHasNoHash(key);
    NoHashStripped(line);
    TextKind(line, line);
    KeyRefused(line, key, rest);
    RunLengthIs(line, IsWhiteSpace, 0);
  }

  lemma WordHasNoHash(key: Text)
    requires IsWord(key)
    ensures HASH !in key
  {
  }

  lemma KeyRefused(line: Text, key: Text, rest: Text)
    requires IsWord(key) && line == key + [COLON] + rest && HasLineTerminator(rest)
    ensures RunLength(line, c => c == SPACE) == 0 && MatchKey(line).None?
  {
    assert forall k :: 0 <= k < |key| ==> line[k] == key[k];
    RunLengthIs(line, c => c == SPACE, 0);
    RunLengthIs(line, IsKeyPart, |key|);
    RunLengthIs(line[|key|..], IsWhiteSpace, 0);
    assert line[|key| + 1..] == rest;
  }

  /** A line indented with a tab is skipped with a warning. */
  lemma TabWarned(rest: Text)
    requires Bare(rest)
    ensures Parsed([Code('\t')] + rest) == Success(WorkspaceFile(None, false, [Warning(1, TabIndentation)]))
  {
    BareStripped([Code('\t')], rest);
    TrimNotEmpty([TAB] + rest, 1);
    InLineClean(rest);
    CleanBoth([TAB], rest);
    OneLineFile([TAB] + rest, Tabbed);
    assert START.warnings + [Warning(1, TabIndentation)] == [Warning(1, TabIndentation)];
  }
}
