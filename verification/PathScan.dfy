/** The two absolute-path scans: the emitter's and the verifier's, written independently
    in the source and compared here. */
module PathScan {
  import opened Json
  import opened Results
  import opened Texts

  /** A value as the scans walk it: object members in their insertion order. `Other` stands
      for null, undefined, booleans and numbers. */
  datatype Value =
    | Other
    | Str(s: Text)
    | Arr(items: seq<Value>)
    | Obj(entries: seq<Entry>)

  datatype Entry = Entry(key: Text, value: Value)

  datatype Hit = Hit(path: Text, value: Text)

  // ------------------------------------------------------------ string predicates

  predicate IsLetter(c: CodeUnit) {
    0x41 <= c <= 0x5A || 0x61 <= c <= 0x7A
  }

  predicate IsSlash(c: CodeUnit) {
    c == 0x2F || c == BACKSLASH
  }

  const DOUBLE_BACKSLASH: Text := [BACKSLASH, BACKSLASH]

  /** A drive letter, a colon and a separator. */
  predicate DrivePath(t: Text) {
    |t| >= 3 && IsLetter(t[0]) && t[1] == COLON && IsSlash(t[2])
  }

  /** A drive letter and a colon with no separator after them. */
  predicate BareDrive(t: Text) {
    |t| >= 2 && IsLetter(t[0]) && t[1] == COLON && !DrivePath(t)
  }

  /** The emitter's test. */
  predicate LooksAbsolute(t: Text) {
    if t == [] then false
    else if [0x2F] <= t then true
    else if DrivePath(t) then true
    else if DOUBLE_BACKSLASH <= t then true
    else Ascii("file://") <= t
  }

  /** `http://`, `https://`, `ftp://` or `git+` in front. */
  predicate LooksLikeUrl(t: Text) {
    Ascii("http://") <= t || Ascii("https://") <= t || Ascii("ftp://") <= t || Ascii("git+") <= t
  }

  /** The verifier's test: URLs are let through, and the separator after a drive is optional. */
  predicate LooksAbsolutePath(t: Text) {
    if t == [] then false
    else if LooksLikeUrl(t) then false
    else if [0x2F] <= t then true
    else if |t| >= 2 && IsLetter(t[0]) && t[1] == COLON then true
    else if DOUBLE_BACKSLASH <= t then true
    else Ascii("file://") <= t
  }

  /** The verifier rejects what the emitter rejects and, besides, drives without a separator. */
  lemma AbsoluteTestsDiffer(t: Text)
    ensures LooksAbsolutePath(t) <==> LooksAbsolute(t) || BareDrive(t)
  {
    UrlStart(t, "http://", 'h', 't');
    UrlStart(t, "https://", 'h', 't');
    UrlStart(t, "ftp://", 'f', 't');
    UrlStart(t, "git+", 'g', 'i');
    UrlStart(t, "file://", 'f', 'i');
  }

  lemma UrlStart(t: Text, literal: string, first: char, second: char)
    requires |literal| >= 2 && literal[0] == first && literal[1] == second
    ensures Ascii(literal) <= t ==> |t| >= 2 && t[0] == Code(first) && t[1] == Code(second)
  {
    if Ascii(literal) <= t {
      assert t[0] == Ascii(literal)[0] && t[1] == Ascii(literal)[1];
    }
  }

  ghost predicate Begins(t: Text, start: Text) {
    exists rest :: t == start + rest
  }

  lemma BeginsExactly(t: Text, start: Text)
    ensures Begins(t, start) <==> start <= t
  {
    if start <= t {
      assert t == start + t[|start|..];
    }
  }

  /** A Latin letter and a colon. */
  ghost predicate NamesDrive(t: Text) {
    exists c, rest ::
      (Code('a') <= c <= Code('z') || Code('A') <= c <= Code('Z')) && t == [c] + Ascii(":") + rest
  }

  ghost predicate NamesDriveRoot(t: Text) {
    exists c, rest ::
      && (Code('a') <= c <= Code('z') || Code('A') <= c <= Code('Z'))
      && (t == [c] + Ascii(":/") + rest || t == [c] + Ascii(":\\") + rest)
  }

  /** Absolute are a slash, two backslashes and `file://` in front, and a drive with either slash
      behind it. */
  lemma AbsoluteExactly(t: Text)
    ensures LooksAbsolute(t) <==>
            Begins(t, Ascii("/")) || Begins(t, Ascii("\\\\")) || Begins(t, Ascii("file://")) || NamesDriveRoot(t)
  {
    BeginsExactly(t, Ascii("/"));
    BeginsExactly(t, Ascii("\\\\"));
    BeginsExactly(t, Ascii("file://"));
    DriveRootExactly(t);
    assert Ascii("/") == [0x2F] && Ascii("\\\\") == DOUBLE_BACKSLASH;
    assert |Ascii("file://")| == 7;
  }

  lemma DriveRootExactly(t: Text)
    ensures DrivePath(t) <==> NamesDriveRoot(t)
  {
    assert Ascii(":/") == [COLON, 0x2F] && Ascii(":\\") == [COLON, BACKSLASH];
    if DrivePath(t) {
      assert t == [t[0]] + [t[1], t[2]] + t[3..];
    }
  }

  /** A bare drive is a drive without either slash behind it. */
  lemma BareDriveExactly(t: Text)
    ensures BareDrive(t) <==> NamesDrive(t) && !NamesDriveRoot(t)
  {
    DriveRootExactly(t);
    assert Ascii(":") == [COLON];
    if |t| >= 2 && t[1] == COLON {
      assert t == [t[0]] + [COLON] + t[2..];
    }
  }

  // -------------------------------------------------------------------- leaves

  function IndexPath(prefix: Text, i: nat): Text {
    prefix + [LBRACKET] + NatText(i) + [RBRACKET]
  }

  function MemberPath(prefix: Text, key: Text): Text {
    prefix + [POINT] + key
  }

  /** Every string in the tree with its path, in document order. */
  function Leaves(v: Value, prefix: Text): seq<Hit>
    decreases v, 1
  {
    match v
    case Other => []
    case Str(s) => [Hit(prefix, s)]
    case Arr(items) => ItemLeaves(v, 0, prefix)
    case Obj(entries) => EntryLeaves(v, 0, prefix)
  }

  function ItemLeaves(v: Value, from: nat, prefix: Text): seq<Hit>
    requires v.Arr? && from <= |v.items|
    decreases v, 0, |v.items| - from
  {
    if from == |v.items| then []
    else Leaves(v.items[from], IndexPath(prefix, from)) + ItemLeaves(v, from + 1, prefix)
  }

  function EntryLeaves(v: Value, from: nat, prefix: Text): seq<Hit>
    requires v.Obj? && from <= |v.entries|
    decreases v, 0, |v.entries| - from
  {
    if from == |v.entries| then []
    else Leaves(v.entries[from].value, MemberPath(prefix, v.entries[from].key)) + EntryLeaves(v, from + 1, prefix)
  }

  /** `path` leads from a tree at `prefix` to the string `s` in it: an index in brackets for each
      array, a dot and a key for each object. */
  ghost predicate LeadsTo(v: Value, prefix: Text, path: Text, s: Text)
    decreases v
  {
    match v
    case Other => false
    case Str(t) => path == prefix && s == t
    case Arr(items) =>
      exists i: nat | i < |items| ::
        LeadsTo(items[i], prefix + Ascii("[") + NatText(i) + Ascii("]"), path, s)
    case Obj(entries) =>
      exists i: nat | i < |entries| ::
        LeadsTo(entries[i].value, prefix + Ascii(".") + entries[i].key, path, s)
  }

  lemma PathPieces(prefix: Text, i: nat, key: Text)
    ensures IndexPath(prefix, i) == prefix + Ascii("[") + NatText(i) + Ascii("]")
    ensures MemberPath(prefix, key) == prefix + Ascii(".") + key
  {
    assert Ascii("[") == [LBRACKET] && Ascii("]") == [RBRACKET] && Ascii(".") == [POINT];
  }

  /** The leaves are exactly the strings of the tree, each under its path. */
  lemma {:induction false} LeavesExactly(v: Value, prefix: Text, path: Text, s: Text)
    ensures Hit(path, s) in Leaves(v, prefix) <==> LeadsTo(v, prefix, path, s)
    decreases v, 1
  {
    match v
    case Other =>
    case Str(t) =>
    case Arr(items) => ItemLeavesExactly(v, 0, prefix, path, s);
    case Obj(entries) => EntryLeavesExactly(v, 0, prefix, path, s);
  }

  lemma {:induction false} ItemLeavesExactly(v: Value, from: nat, prefix: Text, path: Text, s: Text)
    requires v.Arr? && from <= |v.items|
    ensures Hit(path, s) in ItemLeaves(v, from, prefix) <==>
            exists i: nat | from <= i < |v.items| ::
              LeadsTo(v.items[i], prefix + Ascii("[") + NatText(i) + Ascii("]"), path, s)
    decreases v, 0, |v.items| - from
  {
    if from == |v.items| {
    } else {
      PathPieces(prefix, from, []);
      LeavesExactly(v.items[from], IndexPath(prefix, from), path, s);
      ItemLeavesExactly(v, from + 1, prefix, path, s);
    }
  }

  lemma {:induction false} EntryLeavesExactly(v: Value, from: nat, prefix: Text, path: Text, s: Text)
    requires v.Obj? && from <= |v.entries|
    ensures Hit(path, s) in EntryLeaves(v, from, prefix) <==>
            exists i: nat | from <= i < |v.entries| ::
              LeadsTo(v.entries[i].value, prefix + Ascii(".") + v.entries[i].key, path, s)
    decreases v, 0, |v.entries| - from
  {
    if from == |v.entries| {
    } else {
      PathPieces(prefix, 0, v.entries[from].key);
      LeavesExactly(v.entries[from].value, MemberPath(prefix, v.entries[from].key), path, s);
      EntryLeavesExactly(v, from + 1, prefix, path, s);
    }
  }

  /** The first leaf that satisfies `test`. */
  function FirstWhere(leaves: seq<Hit>, test: Text -> bool): (r: Option<Hit>)
    ensures r.None? <==> forall i :: 0 <= i < |leaves| ==> !test(leaves[i].value)
  {
    if leaves == [] then None
    else if test(leaves[0].value) then Some(leaves[0])
    else FirstWhere(leaves[1..], test)
  }

  lemma {:induction false} FirstWhereConcat(a: seq<Hit>, b: seq<Hit>, test: Text -> bool)
    ensures FirstWhere(a + b, test) ==
            if FirstWhere(a, test).Some? then FirstWhere(a, test) else FirstWhere(b, test)
  {
    if a == [] {
      assert a + b == b;
    } else {
      assert (a + b)[1..] == a[1..] + b;
      FirstWhereConcat(a[1..], b, test);
    }
  }

  // ------------------------------------------------------------ the emitter's scan

  const PATH_LIKE_KEYS: set<Text> := {
    Ascii("path"), Ascii("workspacePath"), Ascii("relativePath"), Ascii("absolutePath"),
    Ascii("workspaceFile"), Ascii("inputPath"), Ascii("outputPath"), Ascii("envelopeRef")
  }

  predicate EndsWith(t: Text, suffix: Text) {
    |suffix| <= |t| && t[|t| - |suffix|..] == suffix
  }

  predicate IsPathLikeKey(key: Text) {
    || key in PATH_LIKE_KEYS
    || EndsWith(key, Ascii("Path"))
    || key == Ascii("matchedGlobs") || key == Ascii("excludedGlobs") || key == Ascii("rawGlobs")
    || key == Ascii("sourceFiles")
  }

  function EmitterScan(v: Value, prefix: Text): Option<Hit>
    decreases v, 1
  {
    match v
    case Other => None
    case Str(s) => if LooksAbsolute(s) then Some(Hit(prefix, s)) else None
    case Arr(items) => EmitterScanItems(v, 0, prefix)
    case Obj(entries) => EmitterScanEntries(v, 0, prefix)
  }

  function EmitterScanItems(v: Value, from: nat, prefix: Text): Option<Hit>
    requires v.Arr? && from <= |v.items|
    decreases v, 0, |v.items| - from
  {
    if from == |v.items| then None
    else
      match EmitterScan(v.items[from], IndexPath(prefix, from))
      case Some(hit) => Some(hit)
      case None => EmitterScanItems(v, from + 1, prefix)
  }

  function EmitterScanEntries(v: Value, from: nat, prefix: Text): Option<Hit>
    requires v.Obj? && from <= |v.entries|
    decreases v, 0, |v.entries| - from
  {
    if from == |v.entries| then None
    else
      var e := v.entries[from];
      if IsPathLikeKey(e.key) && e.value.Str? && LooksAbsolute(e.value.s) then
        Some(Hit(MemberPath(prefix, e.key), e.value.s))
      else
        match EmitterScan(e.value, MemberPath(prefix, e.key))
        case Some(hit) => Some(hit)
        case None => EmitterScanEntries(v, from + 1, prefix)
  }

  // ----------------------------------------------------------- the verifier's scan

  const URL_FIELD_KEYS: set<Text> := {
    Ascii("$schema"), Ascii("predicateType"), Ascii("homepage"),
    Ascii("repository"), Ascii("docsHint"), Ascii("url")
  }

  function VerifierScan(v: Value, prefix: Text): Option<Hit>
    decreases v, 1
  {
    match v
    case Other => None
    case Str(s) => if LooksAbsolutePath(s) then Some(Hit(prefix, s)) else None
    case Arr(items) => VerifierScanItems(v, 0, prefix)
    case Obj(entries) => VerifierScanEntries(v, 0, prefix)
  }

  function VerifierScanItems(v: Value, from: nat, prefix: Text): Option<Hit>
    requires v.Arr? && from <= |v.items|
    decreases v, 0, |v.items| - from
  {
    if from == |v.items| then None
    else
      match VerifierScan(v.items[from], IndexPath(prefix, from))
      case Some(hit) => Some(hit)
      case None => VerifierScanItems(v, from + 1, prefix)
  }

  function VerifierScanEntries(v: Value, from: nat, prefix: Text): Option<Hit>
    requires v.Obj? && from <= |v.entries|
    decreases v, 0, |v.entries| - from
  {
    if from == |v.entries| then None
    else
      var e := v.entries[from];
      if e.key in URL_FIELD_KEYS && e.value.Str? && LooksLikeUrl(e.value.s) then
        VerifierScanEntries(v, from + 1, prefix)
      else
        match VerifierScan(e.value, MemberPath(prefix, e.key))
        case Some(hit) => Some(hit)
        case None => VerifierScanEntries(v, from + 1, prefix)
  }

  // ------------------------------------------------------------------ correctness

  /** The emitter's scan reports the first absolute-looking string anywhere in the tree, with
      its path; the path-like keys change nothing. */
  lemma {:induction false} EmitterScanFindsFirst(v: Value, prefix: Text)
    ensures EmitterScan(v, prefix) == FirstWhere(Leaves(v, prefix), LooksAbsolute)
    decreases v, 1
  {
    match v
    case Other =>
    case Str(s) =>
    case Arr(items) => EmitterItemsFindFirst(v, 0, prefix);
    case Obj(entries) => EmitterEntriesFindFirst(v, 0, prefix);
  }

  lemma {:induction false} EmitterItemsFindFirst(v: Value, from: nat, prefix: Text)
    requires v.Arr? && from <= |v.items|
    ensures EmitterScanItems(v, from, prefix) == FirstWhere(ItemLeaves(v, from, prefix), LooksAbsolute)
    decreases v, 0, |v.items| - from
  {
    if from == |v.items| {
    } else {
      var path := IndexPath(prefix, from);
      EmitterScanFindsFirst(v.items[from], path);
      EmitterItemsFindFirst(v, from + 1, prefix);
      FirstWhereConcat(Leaves(v.items[from], path), ItemLeaves(v, from + 1, prefix), LooksAbsolute);
    }
  }

  lemma {:induction false} EmitterEntriesFindFirst(v: Value, from: nat, prefix: Text)
    requires v.Obj? && from <= |v.entries|
    ensures EmitterScanEntries(v, from, prefix) == FirstWhere(EntryLeaves(v, from, prefix), LooksAbsolute)
    decreases v, 0, |v.entries| - from
  {
    if from == |v.entries| {
    } else {
      var e := v.entries[from];
      var path := MemberPath(prefix, e.key);
      EmitterScanFindsFirst(e.value, path);
      EmitterEntriesFindFirst(v, from + 1, prefix);
      FirstWhereConcat(Leaves(e.value, path), EntryLeaves(v, from + 1, prefix), LooksAbsolute);
    }
  }

  /** Likewise for the verifier's scan: the URL keys change nothing. */
  lemma {:induction false} VerifierScanFindsFirst(v: Value, prefix: Text)
    ensures VerifierScan(v, prefix) == FirstWhere(Leaves(v, prefix), LooksAbsolutePath)
    decreases v, 1
  {
    match v
    case Other =>
    case Str(s) =>
    case Arr(items) => VerifierItemsFindFirst(v, 0, prefix);
    case Obj(entries) => VerifierEntriesFindFirst(v, 0, prefix);
  }

  lemma {:induction false} VerifierItemsFindFirst(v: Value, from: nat, prefix: Text)
    requires v.Arr? && from <= |v.items|
    ensures VerifierScanItems(v, from, prefix) == FirstWhere(ItemLeaves(v, from, prefix), LooksAbsolutePath)
    decreases v, 0, |v.items| - from
  {
    if from == |v.items| {
    } else {
      var path := IndexPath(prefix, from);
      VerifierScanFindsFirst(v.items[from], path);
      VerifierItemsFindFirst(v, from + 1, prefix);
      FirstWhereConcat(Leaves(v.items[from], path), ItemLeaves(v, from + 1, prefix), LooksAbsolutePath);
    }
  }

  lemma {:induction false} VerifierEntriesFindFirst(v: Value, from: nat, prefix: Text)
    requires v.Obj? && from <= |v.entries|
    ensures VerifierScanEntries(v, from, prefix) == FirstWhere(EntryLeaves(v, from, prefix), LooksAbsolutePath)
    decreases v, 0, |v.entries| - from
  {
    if from == |v.entries| {
    } else {
      var e := v.entries[from];
      var path := MemberPath(prefix, e.key);
      VerifierScanFindsFirst(e.value, path);
      VerifierEntriesFindFirst(v, from + 1, prefix);
      FirstWhereConcat(Leaves(e.value, path), EntryLeaves(v, from + 1, prefix), LooksAbsolutePath);
    }
  }

  /** A tree passes the verifier exactly when it passes the emitter and none of its strings
      starts with a drive letter and colon that no separator follows. */
  lemma ScansCompared(v: Value, prefix: Text)
    ensures VerifierScan(v, prefix) == None <==>
            && EmitterScan(v, prefix) == None
            && forall i :: 0 <= i < |Leaves(v, prefix)| ==> !BareDrive(Leaves(v, prefix)[i].value)
  {
    EmitterScanFindsFirst(v, prefix);
    VerifierScanFindsFirst(v, prefix);
    var leaves := Leaves(v, prefix);
    forall i | 0 <= i < |leaves|
      ensures LooksAbsolutePath(leaves[i].value) <==> LooksAbsolute(leaves[i].value) || BareDrive(leaves[i].value)
    {
      AbsoluteTestsDiffer(leaves[i].value);
    }
  }

  /** The two scans do differ: every string that starts with a bare drive, say a message
      `C: is full`, is emitted and then refused. */
  lemma BareDriveEmittedThenRefused(t: Text, prefix: Text)
    requires BareDrive(t)
    ensures EmitterScan(Str(t), prefix) == None
    ensures VerifierScan(Str(t), prefix) == Some(Hit(prefix, t))
  {
    AbsoluteTestsDiffer(t);
    UrlStart(t, "file://", 'f', 'i');
  }
}
