/** Emitting a bundle, reading it back, and re-verifying it. */
module AgpBundle {
  import opened AgpRecords
  import opened Json
  import opened JsonDecode
  import opened PathScan
  import opened Results
  import opened Sorting
  import opened Texts

  // -------------------------------------------------------- records as JSON objects

  ghost function RecordJson(r: Record): Json {
    JObj(map[
      Ascii("schemaVersion") := JStr(r.schemaVersion),
      Ascii("family") := JStr(r.family),
      Ascii("kind") := JStr(r.kind),
      Ascii("id") := JStr(r.id),
      Ascii("plane") := JStr(r.plane),
      Ascii("payloadHash") := JStr(r.payloadHash),
      Ascii("payload") := JObj(r.payload)])
  }

  function TextMember(o: Json, key: string): Option<Text> {
    var v := Member(Some(o), Ascii(key));
    if v.Some? && v.value.JStr? then Some(v.value.s) else None
  }

  /** The record a parsed object is, when its seven members have the right types. */
  function AsRecord(o: Json): Option<Record> {
    var schemaVersion, family, kind := TextMember(o, "schemaVersion"), TextMember(o, "family"), TextMember(o, "kind");
    var id, plane, payloadHash := TextMember(o, "id"), TextMember(o, "plane"), TextMember(o, "payloadHash");
    var payload := Member(Some(o), Ascii("payload"));
    if schemaVersion.Some? && family.Some? && kind.Some? && id.Some? && plane.Some? && payloadHash.Some? &&
       payload.Some? && payload.value.JObj?
    then Some(Record(schemaVersion.value, family.value, kind.value, id.value, plane.value,
                     payloadHash.value, payload.value.members))
    else None
  }

  lemma RecordJsonRoundTrip(r: Record)
    ensures AsRecord(RecordJson(r)) == Some(r)
  {
    assert |Ascii("schemaVersion")| == 13 && |Ascii("family")| == 6 && |Ascii("kind")| == 4;
    assert |Ascii("id")| == 2 && |Ascii("plane")| == 5 && |Ascii("payloadHash")| == 11 && |Ascii("payload")| == 7;
  }

  // ----------------------------------------------------------------------- framing

  /** One record a line, each line ended by a newline; nothing at all for no lines. */
  function Ndjson(lines: seq<Text>): Text {
    if lines == [] then [] else Join(lines, [NEWLINE]) + [NEWLINE]
  }

  /** The reader's line splitter. */
  method SplitNdjsonLines(text: Text) returns (out: seq<Text>)
    ensures out == NonEmpty(Split(text, NEWLINE))
  {
    out := [];
    if |text| == 0 {
      return;
    }
    var parts := Split(text, NEWLINE);
    for i := 0 to |parts|
      invariant out == NonEmpty(parts[..i])
    {
      assert parts[..i + 1][..i] == parts[..i];
      if |parts[i]| == 0 {
        continue;
      }
      out := out + [parts[i]];
    }
    assert parts[..|parts|] == parts;
  }

  /** Splitting gives back any lines that are not empty and have no newline in them. */
  lemma FramingRoundTrip(lines: seq<Text>)
    requires forall line <- lines :: line != [] && NEWLINE !in line
    ensures NonEmpty(Split(Ndjson(lines), NEWLINE)) == lines
  {
    if lines == [] {
      assert Split(Ndjson(lines), NEWLINE) == [[]];
      assert NonEmpty([[]]) == NonEmpty([[]][..0]);
    } else {
      var all := lines + [[]];
      JoinAppend(lines, [], [NEWLINE]);
      assert Join(all, [NEWLINE]) == Ndjson(lines);
      SplitJoin(all, NEWLINE);
      assert all[..|all| - 1] == lines && all[|all| - 1] == [];
      assert forall i :: 0 <= i < |lines| ==> lines[i] in lines;
      NonEmptyAll(lines);
    }
  }

  /** Only empty lines are dropped: a line of spaces is kept and reaches the JSON parser. */
  lemma SpacesAreKept(text: Text, line: Text)
    ensures line in NonEmpty(Split(text, NEWLINE)) <==> line != [] && line in Split(text, NEWLINE)
  {
    NonEmptyMembers(Split(text, NEWLINE), line);
  }

  // ----------------------------------------------------------------------- reading

  type JsonParser = Text -> Option<Json>

  datatype Problem = ParseFailed | NotAnObject

  datatype Issue = Issue(problem: Problem, lineNumber: nat)

  predicate IsObject(v: Option<Json>) {
    v.Some? && v.value.JObj?
  }

  function ObjectOf(v: Option<Json>): seq<Json> {
    if v.Some? && v.value.JObj? then [v.value] else []
  }

  function IssueOf(v: Option<Json>, lineNumber: nat): seq<Issue> {
    if v.None? then [Issue(ParseFailed, lineNumber)]
    else if !v.value.JObj? then [Issue(NotAnObject, lineNumber)]
    else []
  }

  /** The objects among the first `n` lines. */
  function ObjectsAmong(parse: JsonParser, lines: seq<Text>, n: nat): seq<Json>
    requires n <= |lines|
  {
    if n == 0 then [] else ObjectsAmong(parse, lines, n - 1) + ObjectOf(parse(lines[n - 1]))
  }

  function IssuesAmong(parse: JsonParser, lines: seq<Text>, n: nat): seq<Issue>
    requires n <= |lines|
  {
    if n == 0 then [] else IssuesAmong(parse, lines, n - 1) + IssueOf(parse(lines[n - 1]), n)
  }

  function ObjectsIn(parse: JsonParser, lines: seq<Text>): seq<Json> {
    ObjectsAmong(parse, lines, |lines|)
  }

  function IssuesIn(parse: JsonParser, lines: seq<Text>): seq<Issue> {
    IssuesAmong(parse, lines, |lines|)
  }

  lemma AmongStep(parse: JsonParser, lines: seq<Text>, i: nat, next: nat)
    requires i < |lines| && next == i + 1
    ensures ObjectsAmong(parse, lines, next) == ObjectsAmong(parse, lines, i) + ObjectOf(parse(lines[i]))
    ensures IssuesAmong(parse, lines, next) == IssuesAmong(parse, lines, i) + IssueOf(parse(lines[i]), next)
  {
  }

  /** What one parsed line adds. */
  method ReadOne(line: Option<Json>, lineNumber: nat, before: seq<Json>, issuesBefore: seq<Issue>)
    returns (records: seq<Json>, issues: seq<Issue>)
    ensures records == before + ObjectOf(line) && issues == issuesBefore + IssueOf(line, lineNumber)
  {
    records, issues := before, issuesBefore;
    match line {
      case None =>
        issues := issues + [Issue(ParseFailed, lineNumber)];
      case Some(parsed) =>
        if parsed.JObj? {
          records := records + [parsed];
        } else {
          issues := issues + [Issue(NotAnObject, lineNumber)];
        }
    }
  }

  datatype RawLine = RawLine(lineNumber: nat, text: Text)

  /** The reader's loop over the lines. */
  method ReadLines(parse: JsonParser, lines: seq<Text>)
    returns (records: seq<Json>, raw: seq<RawLine>, issues: seq<Issue>)
    ensures records == ObjectsIn(parse, lines) && issues == IssuesIn(parse, lines)
    ensures |raw| == |lines| && forall i :: 0 <= i < |lines| ==> raw[i] == RawLine(i + 1, lines[i])
  {
    records, raw, issues := [], [], [];
    for i := 0 to |lines|
      invariant records == ObjectsAmong(parse, lines, i) && issues == IssuesAmong(parse, lines, i)
      invariant |raw| == i && forall j :: 0 <= j < i ==> raw[j] == RawLine(j + 1, lines[j])
    {
      raw := raw + [RawLine(i + 1, lines[i])];
      records, issues := ReadOne(parse(lines[i]), i + 1, records, issues);
      AmongStep(parse, lines, i, i + 1);
    }
  }

  /** The reader on the text of the record file. */
  method ReadRecords(parse: JsonParser, text: Text)
    returns (records: seq<Json>, raw: seq<RawLine>, issues: seq<Issue>)
    ensures var lines := NonEmpty(Split(text, NEWLINE));
            && records == ObjectsIn(parse, lines)
            && issues == IssuesIn(parse, lines)
            && |raw| == |lines|
            && forall i :: 0 <= i < |lines| ==> raw[i] == RawLine(i + 1, lines[i])
  {
    var lines := SplitNdjsonLines(text);
    records, raw, issues := ReadLines(parse, lines);
  }

  predicate HasIssueAt(issues: seq<Issue>, lineNumber: int) {
    exists k :: 0 <= k < |issues| && issues[k].lineNumber == lineNumber
  }

  lemma HasIssueAppend(issues: seq<Issue>, more: seq<Issue>, n: int)
    ensures HasIssueAt(issues + more, n) <==> HasIssueAt(issues, n) || HasIssueAt(more, n)
  {
    var all := issues + more;
    if HasIssueAt(issues, n) {
      var k :| 0 <= k < |issues| && issues[k].lineNumber == n;
      assert all[k] == issues[k];
    }
    if HasIssueAt(more, n) {
      var k :| 0 <= k < |more| && more[k].lineNumber == n;
      assert all[|issues| + k] == more[k];
    }
  }

  lemma HasIssueOf(v: Option<Json>, lineNumber: nat, n: int)
    ensures HasIssueAt(IssueOf(v, lineNumber), n) <==> n == lineNumber && !IsObject(v)
  {
    if !IsObject(v) {
      assert IssueOf(v, lineNumber)[0].lineNumber == lineNumber;
    }
  }

  lemma {:induction false} FirstLinesAccounted(parse: JsonParser, lines: seq<Text>, k: nat)
    requires k <= |lines|
    ensures |ObjectsAmong(parse, lines, k)| + |IssuesAmong(parse, lines, k)| == k
    ensures forall n :: HasIssueAt(IssuesAmong(parse, lines, k), n) <==>
                        1 <= n <= k && !IsObject(parse(lines[n - 1]))
  {
    if k == 0 {
    } else {
      FirstLinesAccounted(parse, lines, k - 1);
      forall n
        ensures HasIssueAt(IssuesAmong(parse, lines, k), n) <==> 1 <= n <= k && !IsObject(parse(lines[n - 1]))
      {
        HasIssueAppend(IssuesAmong(parse, lines, k - 1), IssueOf(parse(lines[k - 1]), k), n);
        HasIssueOf(parse(lines[k - 1]), k, n);
      }
    }
  }

  /** Every line is accounted for once, and a line has an issue exactly when it is not the
      text of an object. */
  lemma EveryLineAccounted(parse: JsonParser, lines: seq<Text>)
    ensures |ObjectsIn(parse, lines)| + |IssuesIn(parse, lines)| == |lines|
    ensures forall n :: HasIssueAt(IssuesIn(parse, lines), n) <==>
                        1 <= n <= |lines| && !IsObject(parse(lines[n - 1]))
  {
    FirstLinesAccounted(parse, lines, |lines|);
  }

  lemma {:induction false} FirstObjects(parse: JsonParser, values: seq<Json>, lines: seq<Text>, n: nat)
    requires n <= |lines| == |values|
    requires forall i :: 0 <= i < |lines| ==> ObjectOf(parse(lines[i])) == [values[i]]
    ensures ObjectsAmong(parse, lines, n) == values[..n]
    decreases n
  {
    if n == 0 {
    } else {
      FirstObjects(parse, values, lines, n - 1);
      assert values[..n] == values[..n - 1] + [values[n - 1]];
    }
  }

  lemma ObjectsOfCanonicalLines(parse: JsonParser, values: seq<Json>, lines: seq<Text>)
    requires |lines| == |values|
    requires forall i :: 0 <= i < |values| ==> values[i].JObj? && parse(lines[i]) == Some(values[i])
    ensures ObjectsIn(parse, lines) == values && IssuesIn(parse, lines) == []
  {
    FirstObjects(parse, values, lines, |lines|);
    EveryLineAccounted(parse, lines);
    assert values[..|lines|] == values;
  }

  // ---------------------------------------------------------------- snapshot digest

  predicate IsFactual(row: Json) {
    row.JObj? && Ascii("plane") in row.members && row.members[Ascii("plane")] == JStr(Ascii("factual"))
  }

  function FactualRows(rows: seq<Json>): seq<Json> {
    if rows == [] then []
    else (if IsFactual(rows[0]) then [rows[0]] else []) + FactualRows(rows[1..])
  }

  /** The manifest rows of a snapshot payload: none when `records` is missing or null, an
      error (`filter` is not a function) when it is anything but a list. */
  function ManifestRows(payload: map<Text, Json>): Option<seq<Json>> {
    var key := Ascii("records");
    if key !in payload || payload[key].JNull? then Some([])
    else if payload[key].JArr? then Some(payload[key].items)
    else None
  }

  /** What the digest is taken of. */
  function Project(payload: map<Text, Json>): Option<map<Text, Json>> {
    match ManifestRows(payload)
    case None => None
    case Some(rows) => Some((payload - {Ascii("emittedAt")})[Ascii("records") := JArr(FactualRows(rows))])
  }

  ghost function SnapshotDigest(sha: Hash, payload: map<Text, Json>): Option<Text> {
    match Project(payload)
    case None => None
    case Some(projection) => Some(sha(Canonical(JObj(projection))))
  }

  /** The two payloads agree on every member but `emittedAt` and `records`. */
  ghost predicate AgreeElsewhere(p: map<Text, Json>, q: map<Text, Json>) {
    forall k :: k != Ascii("emittedAt") && k != Ascii("records") ==>
      (k in p <==> k in q) && (k in p && k in q ==> p[k] == q[k])
  }

  lemma ProjectionsEqual(p: map<Text, Json>, q: map<Text, Json>)
    requires Project(p).Some? && Project(q).Some?
    ensures Project(p) == Project(q) <==>
            && AgreeElsewhere(p, q)
            && FactualRows(ManifestRows(p).value) == FactualRows(ManifestRows(q).value)
  {
    var emittedAt, records := Ascii("emittedAt"), Ascii("records");
    var p', q' := Project(p).value, Project(q).value;
    assert forall k :: k != emittedAt && k != records ==> (k in p <==> k in p') && (k in p ==> p[k] == p'[k]);
    assert forall k :: k != emittedAt && k != records ==> (k in q <==> k in q') && (k in q ==> q[k] == q'[k]);
    assert p'[records] == JArr(FactualRows(ManifestRows(p).value));
    assert q'[records] == JArr(FactualRows(ManifestRows(q).value));
    assert |emittedAt| == 9 && |records| == 7;
    assert emittedAt !in p' && emittedAt !in q';
    if AgreeElsewhere(p, q) && p'[records] == q'[records] {
      assert forall k :: k in p' <==> k in q';
      assert forall k :: k in p' ==> p'[k] == q'[k];
      assert p' == q';
    }
    if p' == q' {
      assert AgreeElsewhere(p, q);
    }
  }

  /** The digest is complete: without a collision between the two projections, payloads have
      equal digests exactly when they agree on everything except `emittedAt` and the manifest
      rows that are not factual. */
  lemma DigestComplete(sha: Hash, p: map<Text, Json>, q: map<Text, Json>)
    requires Project(p).Some? && Project(q).Some?
    requires var x, y := Canonical(JObj(Project(p).value)), Canonical(JObj(Project(q).value));
             sha(x) == sha(y) ==> x == y
    ensures SnapshotDigest(sha, p) == SnapshotDigest(sha, q) <==>
            && AgreeElsewhere(p, q)
            && FactualRows(ManifestRows(p).value) == FactualRows(ManifestRows(q).value)
  {
    CanonicalInjective(JObj(Project(p).value), JObj(Project(q).value));
    ProjectionsEqual(p, q);
  }

  // ------------------------------------------------------------------------- bundle

  datatype Bundle = Bundle(records: seq<Record>, recordsNdjson: Text, snapshotJson: Text)

  /** All strings anywhere in a value. */
  ghost function Strings(j: Json): set<Text> {
    match j
    case JStr(s) => {s}
    case JArr(items) => set i, s | 0 <= i < |items| && s in Strings(items[i]) :: s
    case JObj(members) => set k, s | k in members && s in Strings(members[k]) :: s
    case _ => {}
  }

  ghost predicate HasAbsolutePath(records: seq<Record>) {
    exists i, s :: 0 <= i < |records| && s in Strings(RecordJson(records[i])) && LooksAbsolute(s)
  }

  ghost function RecordLines(records: seq<Record>): (lines: seq<Text>)
    ensures |lines| == |records|
    ensures forall i :: 0 <= i < |records| ==> lines[i] == Canonical(RecordJson(records[i]))
  {
    seq(|records|, i requires 0 <= i < |records| => Canonical(RecordJson(records[i])))
  }

  ghost function SnapshotJson(payload: map<Text, Json>, digest: Text): Json {
    JObj(map[
      Ascii("schemaVersion") := JStr(Ascii("agp.snapshot.v1")),
      Ascii("kind") := JStr(Ascii("agp.snapshot")),
      Ascii("snapshotDigest") := JStr(digest),
      Ascii("payload") := JObj(payload)])
  }

  /** The emitter from its sort onwards: sort, refuse absolute paths, print. `None` is the
      error exit. */
  ghost function EmitBundle(sha: Hash, records: seq<Record>, payload: map<Text, Json>): Option<Bundle> {
    var sorted := SortRecords(records);
    if HasAbsolutePath(sorted) || SnapshotDigest(sha, payload).None? then None
    else
      var snapshot := SnapshotJson(payload, SnapshotDigest(sha, payload).value);
      Some(Bundle(sorted, Ndjson(RecordLines(sorted)), Canonical(snapshot) + [NEWLINE]))
  }

  /** What the verifier recomputes for one parsed record. */
  ghost predicate RecordVerifies(b3: Hash, o: Json) {
    var r := AsRecord(o);
    && r.Some?
    && PayloadHash(b3, r.value.payload) == r.value.payloadHash
    && RecordId(r.value.family, r.value.kind, r.value.payloadHash) == r.value.id
  }

  /** What the verifier recomputes for the parsed snapshot. */
  ghost predicate SnapshotVerifies(sha: Hash, o: Option<Json>) {
    var payload := Member(o, Ascii("payload"));
    && payload.Some? && payload.value.JObj?
    && SnapshotDigest(sha, payload.value.members).Some?
    && Member(o, Ascii("snapshotDigest")) == Some(JStr(SnapshotDigest(sha, payload.value.members).value))
  }

  /** `parse` reads the lines that are printed for these records. */
  ghost predicate ReadsRecords(parse: JsonParser, records: seq<Record>) {
    forall i :: 0 <= i < |records| ==> parse(Canonical(RecordJson(records[i]))) == Some(RecordJson(records[i]))
  }

  /** And the snapshot that is printed for this payload. */
  ghost predicate ReadsSnapshot(sha: Hash, parse: JsonParser, payload: map<Text, Json>) {
    SnapshotDigest(sha, payload).Some? ==>
      var snapshot := SnapshotJson(payload, SnapshotDigest(sha, payload).value);
      parse(Canonical(snapshot) + [NEWLINE]) == Some(snapshot)
  }

  /** The value with each number replaced by what it is read as. */
  ghost function RoundNumbers(round: Numeral -> Numeral, j: Json): Json {
    match j
    case JNum(n) => JNum(round(n))
    case JArr(items) => JArr(seq(|items|, i requires 0 <= i < |items| => RoundNumbers(round, items[i])))
    case JObj(members) => JObj(map k | k in members :: RoundNumbers(round, members[k]))
    case _ => j
  }

  /** No number of `j` changes when it is read: as of the numbers a double prints as. */
  ghost predicate Representable(round: Numeral -> Numeral, j: Json) {
    match j
    case JNum(n) => round(n) == n
    case JArr(items) => forall i :: 0 <= i < |items| ==> Representable(round, items[i])
    case JObj(members) => forall k <- members :: Representable(round, members[k])
    case _ => true
  }

  lemma {:induction false} RepresentableStays(round: Numeral -> Numeral, j: Json)
    requires Representable(round, j)
    ensures RoundNumbers(round, j) == j
  {
    match j
    case JArr(items) =>
      forall i | 0 <= i < |items| ensures RoundNumbers(round, items[i]) == items[i] {
        RepresentableStays(round, items[i]);
      }
    case JObj(members) =>
      forall k | k in members ensures RoundNumbers(round, members[k]) == members[k] {
        RepresentableStays(round, members[k]);
      }
    case _ =>
  }

  /** `parse` reads canonical text, alone or with a final newline, but for the numbers, which it
      rounds in some way: to doubles for one. */
  ghost predicate IsRoundingReader(round: Numeral -> Numeral, parse: JsonParser) {
    forall j ::
      && parse(Canonical(j)) == Some(RoundNumbers(round, j))
      && parse(Canonical(j) + [NEWLINE]) == Some(RoundNumbers(round, j))
  }

  /** Such a reader reads back every value whose numbers it does not change. */
  lemma RoundingReaderReads(round: Numeral -> Numeral, parse: JsonParser, j: Json)
    requires IsRoundingReader(round, parse) && Representable(round, j)
    ensures parse(Canonical(j)) == Some(j) && parse(Canonical(j) + [NEWLINE]) == Some(j)
  {
    RepresentableStays(round, j);
  }

  /** The reader of this model is one that changes no number. */
  lemma DecodeReadsCanonicalText()
    ensures IsRoundingReader(n => n, Decode)
  {
    forall j
      ensures Decode(Canonical(j)) == Some(RoundNumbers(n => n, j))
      ensures Decode(Canonical(j) + [NEWLINE]) == Some(RoundNumbers(n => n, j))
    {
      DecodeCanonical(j, []);
      assert Canonical(j) + [] == Canonical(j);
      DecodeCanonical(j, [NEWLINE]);
      AllRepresentable(n => n, j);
      RepresentableStays(n => n, j);
    }
  }

  lemma {:induction false} AllRepresentable(round: Numeral -> Numeral, j: Json)
    requires forall n :: round(n) == n
    ensures Representable(round, j)
  {
    match j
    case JArr(items) =>
      forall i | 0 <= i < |items| ensures Representable(round, items[i]) {
        AllRepresentable(round, items[i]);
      }
    case JObj(members) =>
      forall k | k in members ensures Representable(round, members[k]) {
        AllRepresentable(round, members[k]);
      }
    case _ =>
  }

  /** Canonical lines survive the framing. */
  lemma LinesSurvive(records: seq<Record>)
    ensures NonEmpty(Split(Ndjson(RecordLines(records)), NEWLINE)) == RecordLines(records)
  {
    var lines := RecordLines(records);
    forall line | line in lines ensures line != [] && NEWLINE !in line {
      var i :| 0 <= i < |lines| && lines[i] == line;
      CanonicalPrintable(RecordJson(records[i]));
      CanonicalHead(RecordJson(records[i]));
    }
    FramingRoundTrip(lines);
  }

  ghost function RecordJsons(records: seq<Record>): (jsons: seq<Json>)
    ensures |jsons| == |records|
    ensures forall i :: 0 <= i < |records| ==> jsons[i] == RecordJson(records[i])
  {
    seq(|records|, i requires 0 <= i < |records| => RecordJson(records[i]))
  }

  /** What the reader makes of the printed records. */
  lemma EmittedLinesRead(parse: JsonParser, records: seq<Record>)
    requires ReadsRecords(parse, records)
    ensures var lines := NonEmpty(Split(Ndjson(RecordLines(records)), NEWLINE));
            ObjectsIn(parse, lines) == RecordJsons(records) && IssuesIn(parse, lines) == []
  {
    LinesSurvive(records);
    ObjectsOfCanonicalLines(parse, RecordJsons(records), RecordLines(records));
  }

  lemma SortedRead(parse: JsonParser, records: seq<Record>)
    requires ReadsRecords(parse, records)
    ensures ReadsRecords(parse, SortRecords(records))
  {
    var sorted := SortRecords(records);
    forall i | 0 <= i < |sorted| ensures parse(Canonical(RecordJson(sorted[i]))) == Some(RecordJson(sorted[i])) {
      assert sorted[i] in multiset(sorted);
      assert sorted[i] in records;
    }
  }

  /** The record file reads back as the records with no issue, and every hash and id of theirs
      is what it is recomputed to. */
  ghost predicate RecordsAccepted(b3: Hash, parse: JsonParser, text: Text, records: seq<Record>) {
    var lines := NonEmpty(Split(text, NEWLINE));
    var read := ObjectsIn(parse, lines);
    && IssuesIn(parse, lines) == []
    && |read| == |records|
    && (forall i :: 0 <= i < |read| ==> AsRecord(read[i]) == Some(records[i]))
    && (forall i :: 0 <= i < |read| ==> RecordVerifies(b3, read[i]))
  }

  lemma PrintedRecordsAccepted(b3: Hash, parse: JsonParser, records: seq<Record>)
    requires ReadsRecords(parse, records)
    requires forall r <- records :: Built(b3, r)
    ensures RecordsAccepted(b3, parse, Ndjson(RecordLines(records)), records)
  {
    EmittedLinesRead(parse, records);
    var read := RecordJsons(records);
    forall i | 0 <= i < |records| ensures AsRecord(read[i]) == Some(records[i]) && RecordVerifies(b3, read[i]) {
      assert records[i] in records;
      RecordJsonRoundTrip(records[i]);
    }
  }

  /** What is emitted is accepted by the reader and by the recomputation of hashes, ids, order
      and digest. Whatever built records the emitter is given, in whatever order: if it emits a
      bundle, the reader gives the same records back in the same order with no issue, every
      recomputed payload hash and id matches, the recomputed digest matches, and the stream is
      in sort order. Ids may repeat. */
  lemma EmittedBundleAccepted(
      b3: Hash, sha: Hash, parse: JsonParser, records: seq<Record>, payload: map<Text, Json>, bundle: Bundle)
    requires ReadsRecords(parse, records) && ReadsSnapshot(sha, parse, payload)
    requires forall r <- records :: Built(b3, r)
    requires EmitBundle(sha, records, payload) == Some(bundle)
    ensures multiset(bundle.records) == multiset(records)
    ensures RecordsAccepted(b3, parse, bundle.recordsNdjson, bundle.records)
    ensures Sorted(NotAfter, bundle.records)
    ensures SnapshotVerifies(sha, parse(bundle.snapshotJson))
  {
    NotAfterIsPreorder();
    SortSorts(NotAfter, records);
    forall r | r in bundle.records ensures Built(b3, r) {
      assert r in multiset(bundle.records);
    }
    SortedRead(parse, records);
    PrintedRecordsAccepted(b3, parse, bundle.records);
    SnapshotAccepted(sha, parse, payload);
  }

  lemma SnapshotAccepted(sha: Hash, parse: JsonParser, payload: map<Text, Json>)
    requires ReadsSnapshot(sha, parse, payload) && SnapshotDigest(sha, payload).Some?
    ensures var snapshot := SnapshotJson(payload, SnapshotDigest(sha, payload).value);
            SnapshotVerifies(sha, parse(Canonical(snapshot) + [NEWLINE]))
  {
    assert |Ascii("schemaVersion")| == 13 && |Ascii("kind")| == 4;
    assert |Ascii("snapshotDigest")| == 14 && |Ascii("payload")| == 7;
  }
}
