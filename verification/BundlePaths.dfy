/** The path scans on bundles: what the emitter refuses, and which emitted bundles the
    verifier's scan accepts. */
module BundlePaths {
  import opened AgpBundle
  import opened AgpRecords
  import opened Json
  import opened PathScan
  import opened Results
  import opened Texts

  /** `v` is the value as a scan walks it: the members of each object in some order. */
  ghost predicate Enumerates(v: Value, j: Json)
    decreases j
  {
    match j
    case JStr(s) => v == Str(s)
    case JArr(items) =>
      v.Arr? && |v.items| == |items| && forall i :: 0 <= i < |items| ==> Enumerates(v.items[i], items[i])
    case JObj(members) =>
      && v.Obj?
      && (forall i :: 0 <= i < |v.entries| ==>
            v.entries[i].key in members && Enumerates(v.entries[i].value, members[v.entries[i].key]))
      && (forall k <- members :: exists i :: 0 <= i < |v.entries| && v.entries[i].key == k)
    case _ => v == Other
  }

  ghost predicate HasLeaf(leaves: seq<Hit>, s: Text) {
    exists i :: 0 <= i < |leaves| && leaves[i].value == s
  }

  lemma HasLeafConcat(a: seq<Hit>, b: seq<Hit>, s: Text)
    ensures HasLeaf(a + b, s) <==> HasLeaf(a, s) || HasLeaf(b, s)
  {
    var all := a + b;
    if HasLeaf(a, s) {
      var i :| 0 <= i < |a| && a[i].value == s;
      assert all[i].value == s;
    }
    if HasLeaf(b, s) {
      var i :| 0 <= i < |b| && b[i].value == s;
      assert all[|a| + i].value == s;
    }
  }

  lemma {:induction false} ItemLeavesHave(v: Value, from: nat, prefix: Text, s: Text)
    requires v.Arr? && from <= |v.items|
    ensures HasLeaf(ItemLeaves(v, from, prefix), s) <==>
            exists i :: from <= i < |v.items| && HasLeaf(Leaves(v.items[i], IndexPath(prefix, i)), s)
    decreases |v.items| - from
  {
    if from == |v.items| {
    } else {
      HasLeafConcat(Leaves(v.items[from], IndexPath(prefix, from)), ItemLeaves(v, from + 1, prefix), s);
      ItemLeavesHave(v, from + 1, prefix, s);
    }
  }

  function EntryPath(v: Value, i: nat, prefix: Text): Text
    requires v.Obj? && i < |v.entries|
  {
    MemberPath(prefix, v.entries[i].key)
  }

  lemma {:induction false} EntryLeavesHave(v: Value, from: nat, prefix: Text, s: Text)
    requires v.Obj? && from <= |v.entries|
    ensures HasLeaf(EntryLeaves(v, from, prefix), s) <==>
            exists i :: from <= i < |v.entries| && HasLeaf(Leaves(v.entries[i].value, EntryPath(v, i, prefix)), s)
    decreases |v.entries| - from
  {
    if from == |v.entries| {
    } else {
      HasLeafConcat(Leaves(v.entries[from].value, EntryPath(v, from, prefix)), EntryLeaves(v, from + 1, prefix), s);
      EntryLeavesHave(v, from + 1, prefix, s);
    }
  }

  /** The leaves of a walk, in whatever member order, are the strings of the value. */
  lemma {:induction false} LeavesAreStrings(v: Value, j: Json, prefix: Text, s: Text)
    requires Enumerates(v, j)
    ensures HasLeaf(Leaves(v, prefix), s) <==> s in Strings(j)
    decreases j
  {
    match j
    case JStr(t) =>
      assert Leaves(v, prefix)[0].value == t;
    case JArr(items) =>
      ItemLeavesHave(v, 0, prefix, s);
      forall i | 0 <= i < |items|
        ensures HasLeaf(Leaves(v.items[i], IndexPath(prefix, i)), s) <==> s in Strings(items[i])
      {
        LeavesAreStrings(v.items[i], items[i], IndexPath(prefix, i), s);
      }
    case JObj(members) =>
      EntryLeavesHave(v, 0, prefix, s);
      forall i | 0 <= i < |v.entries|
        ensures HasLeaf(Leaves(v.entries[i].value, EntryPath(v, i, prefix)), s) <==>
                s in Strings(members[v.entries[i].key])
      {
        LeavesAreStrings(v.entries[i].value, members[v.entries[i].key], EntryPath(v, i, prefix), s);
      }
    case _ =>
  }

  /** Whatever order a value's members are walked in, the emitter's scan passes it exactly when
      none of its strings looks absolute. */
  lemma EmitterScanDecides(v: Value, j: Json, prefix: Text)
    requires Enumerates(v, j)
    ensures EmitterScan(v, prefix) == None <==> forall s <- Strings(j) :: !LooksAbsolute(s)
  {
    EmitterScanFindsFirst(v, prefix);
    NoneAmongLeaves(v, j, prefix, LooksAbsolute);
  }

  /** And the verifier's scan exactly when none looks absolute or starts with a bare drive. */
  lemma VerifierScanDecides(v: Value, j: Json, prefix: Text)
    requires Enumerates(v, j)
    ensures VerifierScan(v, prefix) == None <==> forall s <- Strings(j) :: !LooksAbsolute(s) && !BareDrive(s)
  {
    VerifierScanFindsFirst(v, prefix);
    NoneAmongLeaves(v, j, prefix, LooksAbsolutePath);
    forall s ensures LooksAbsolutePath(s) <==> LooksAbsolute(s) || BareDrive(s) {
      AbsoluteTestsDiffer(s);
    }
  }

  lemma NoneAmongLeaves(v: Value, j: Json, prefix: Text, test: Text -> bool)
    requires Enumerates(v, j)
    ensures FirstWhere(Leaves(v, prefix), test) == None <==> forall s <- Strings(j) :: !test(s)
  {
    var leaves := Leaves(v, prefix);
    forall s ensures HasLeaf(leaves, s) <==> s in Strings(j) {
      LeavesAreStrings(v, j, prefix, s);
    }
    assert forall i :: 0 <= i < |leaves| ==> HasLeaf(leaves, leaves[i].value);
  }

  /** The sorted records as the emitter scans them: one array. */
  ghost predicate EnumeratesRecords(v: Value, records: seq<Record>) {
    v.Arr? && |v.items| == |records| &&
    forall i :: 0 <= i < |records| ==> Enumerates(v.items[i], RecordJson(records[i]))
  }

  /** The emitter refuses a list of records exactly when its scan of them hits. */
  lemma RefusedExactly(records: seq<Record>, v: Value, prefix: Text)
    requires EnumeratesRecords(v, records)
    ensures EmitterScan(v, prefix).Some? <==> HasAbsolutePath(records)
  {
    var j := JArr(seq(|records|, i requires 0 <= i < |records| => RecordJson(records[i])));
    EmitterScanDecides(v, j, prefix);
    if HasAbsolutePath(records) {
      var i, s :| 0 <= i < |records| && s in Strings(RecordJson(records[i])) && LooksAbsolute(s);
      assert s in Strings(j.items[i]);
      assert s in Strings(j);
    }
  }

  /** Of an emitted bundle the verifier's scan passes a record exactly when none of its strings
      starts with a bare drive. */
  lemma EmittedRecordScanned(
      sha: Hash, records: seq<Record>, payload: map<Text, Json>, bundle: Bundle, i: nat, v: Value, prefix: Text)
    requires EmitBundle(sha, records, payload) == Some(bundle)
    requires i < |bundle.records| && Enumerates(v, RecordJson(bundle.records[i]))
    ensures VerifierScan(v, prefix) == None <==> forall s <- Strings(RecordJson(bundle.records[i])) :: !BareDrive(s)
  {
    VerifierScanDecides(v, RecordJson(bundle.records[i]), prefix);
    assert !HasAbsolutePath(bundle.records);
  }

  // ------------------------------------------------------------ the scan of a bundle

  datatype PathIssue = SnapshotLeak(hit: Hit) | RecordLeak(lineNumber: nat, hit: Hit)

  function SnapshotIssues(snapshot: Value): seq<PathIssue> {
    match VerifierScan(snapshot, Ascii("$.snapshot"))
    case None => []
    case Some(hit) => [SnapshotLeak(hit)]
  }

  /** The leaks of the first `n` records. */
  function RecordIssues(records: seq<Value>, n: nat): seq<PathIssue>
    requires n <= |records|
  {
    if n == 0 then []
    else
      var before := RecordIssues(records, n - 1);
      match VerifierScan(records[n - 1], IndexPath(Ascii("$.records"), n - 1))
      case None => before
      case Some(hit) => before + [RecordLeak(n, hit)]
  }

  /** The verifier's path checks of a parsed bundle. */
  method RunPathChecks(snapshot: Value, records: seq<Value>) returns (issues: seq<PathIssue>)
    ensures issues == SnapshotIssues(snapshot) + RecordIssues(records, |records|)
  {
    issues := [];
    var snapHit := VerifierScan(snapshot, Ascii("$.snapshot"));
    if snapHit.Some? {
      issues := issues + [SnapshotLeak(snapHit.value)];
    }
    for i := 0 to |records|
      invariant issues == SnapshotIssues(snapshot) + RecordIssues(records, i)
    {
      var hit := VerifierScan(records[i], IndexPath(Ascii("$.records"), i));
      if hit.Some? {
        issues := issues + [RecordLeak(i + 1, hit.value)];
      }
    }
  }

  ghost predicate NoneAbsolute(j: Json) {
    forall s <- Strings(j) :: !LooksAbsolute(s)
  }

  ghost predicate NoBareDrive(j: Json) {
    forall s <- Strings(j) :: !BareDrive(s)
  }

  lemma ScanPasses(v: Value, j: Json, prefix: Text)
    requires Enumerates(v, j)
    ensures VerifierScan(v, prefix) == None <==> NoneAbsolute(j) && NoBareDrive(j)
  {
    VerifierScanDecides(v, j, prefix);
  }

  lemma {:induction false} RecordsPass(records: seq<Value>, jsons: seq<Json>, n: nat)
    requires |records| == |jsons| && n <= |records|
    requires forall i :: 0 <= i < |records| ==> Enumerates(records[i], jsons[i])
    requires forall i :: 0 <= i < |records| ==> NoneAbsolute(jsons[i])
    ensures RecordIssues(records, n) == [] <==> forall i :: 0 <= i < n ==> NoBareDrive(jsons[i])
  {
    if n == 0 {
    } else {
      RecordsPass(records, jsons, n - 1);
      ScanPasses(records[n - 1], jsons[n - 1], IndexPath(Ascii("$.records"), n - 1));
    }
  }

  ghost predicate NoneAbsoluteIn(jsons: seq<Json>) {
    forall i :: 0 <= i < |jsons| ==> NoneAbsolute(jsons[i])
  }

  ghost predicate NoBareDriveIn(jsons: seq<Json>) {
    forall i :: 0 <= i < |jsons| ==> NoBareDrive(jsons[i])
  }

  /** `items` are what the scan of these values walks. */
  ghost predicate EnumerateAll(items: seq<Value>, jsons: seq<Json>) {
    |items| == |jsons| && forall i :: 0 <= i < |jsons| ==> Enumerates(items[i], jsons[i])
  }

  lemma AllPass(items: seq<Value>, jsons: seq<Json>)
    requires EnumerateAll(items, jsons) && NoneAbsoluteIn(jsons)
    ensures RecordIssues(items, |items|) == [] <==> NoBareDriveIn(jsons)
  {
    RecordsPass(items, jsons, |items|);
  }

  /** The emitter refuses what looks absolute. */
  lemma EmittedRecords(records: seq<Record>)
    requires !HasAbsolutePath(records)
    ensures NoneAbsoluteIn(RecordJsons(records))
  {
    var jsons := RecordJsons(records);
    forall i, s | 0 <= i < |jsons| && s in Strings(jsons[i]) ensures !LooksAbsolute(s) {
      assert s in Strings(RecordJson(records[i]));
    }
  }

  /** `v` and `items` are what the scans of a bundle's two files walk. */
  ghost predicate ScansBundle(parse: JsonParser, bundle: Bundle, v: Value, items: seq<Value>) {
    && parse(bundle.snapshotJson).Some? && Enumerates(v, parse(bundle.snapshotJson).value)
    && EnumerateAll(items, ObjectsIn(parse, NonEmpty(Split(bundle.recordsNdjson, NEWLINE))))
  }

  lemma ScannedAsRead(parse: JsonParser, bundle: Bundle, v: Value, items: seq<Value>)
    requires ReadsRecords(parse, bundle.records) && NoneAbsoluteIn(RecordJsons(bundle.records))
    requires bundle.recordsNdjson == Ndjson(RecordLines(bundle.records)) && ScansBundle(parse, bundle, v, items)
    ensures RecordIssues(items, |items|) == [] <==> NoBareDriveIn(RecordJsons(bundle.records))
  {
    EmittedLinesRead(parse, bundle.records);
    AllPass(items, RecordJsons(bundle.records));
  }

  /** What the emitter has made sure of. */
  lemma EmittedAsPrinted(
      sha: Hash, parse: JsonParser, records: seq<Record>, payload: map<Text, Json>, bundle: Bundle)
    requires ReadsRecords(parse, records) && EmitBundle(sha, records, payload) == Some(bundle)
    ensures ReadsRecords(parse, bundle.records) && NoneAbsoluteIn(RecordJsons(bundle.records))
    ensures bundle.recordsNdjson == Ndjson(RecordLines(bundle.records))
  {
    EmittedRecords(bundle.records);
    SortedRead(parse, records);
  }

  lemma SnapshotScanned(v: Value, j: Json)
    requires Enumerates(v, j)
    ensures SnapshotIssues(v) == [] <==> NoneAbsolute(j) && NoBareDrive(j)
  {
    ScanPasses(v, j, Ascii("$.snapshot"));
  }

  /** The path checks pass an emitted bundle exactly when no string of a record starts with a
      bare drive, and no string of the snapshot looks absolute or starts with one: the emitter
      never scans the snapshot it prints. */
  lemma EmittedBundleScanned(
      sha: Hash, parse: JsonParser, records: seq<Record>, payload: map<Text, Json>, bundle: Bundle,
      v: Value, items: seq<Value>)
    requires ReadsRecords(parse, records)
    requires EmitBundle(sha, records, payload) == Some(bundle) && ScansBundle(parse, bundle, v, items)
    ensures SnapshotIssues(v) + RecordIssues(items, |items|) == [] <==>
            && NoneAbsolute(parse(bundle.snapshotJson).value) && NoBareDrive(parse(bundle.snapshotJson).value)
            && NoBareDriveIn(RecordJsons(bundle.records))
  {
    EmittedAsPrinted(sha, parse, records, payload, bundle);
    ScannedAsRead(parse, bundle, v, items);
    SnapshotScanned(v, parse(bundle.snapshotJson).value);
  }
}
