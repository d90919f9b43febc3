/** What an emitted bundle's two files say, and what its digest is taken of, member by member. */
module BundleText {
  import opened AgpBundle
  import opened AgpRecords
  import opened Json
  import opened JsonDecode
  import opened PathScan
  import opened RecordOrder
  import opened Results
  import opened Texts

  // -------------------------------------------------------------------- the digest

  /** The row is an object whose `plane` is the text `factual`. */
  ghost predicate SaysFactual(row: Json) {
    row.JObj? && Ascii("plane") in row.members && row.members[Ascii("plane")] == JStr(Ascii("factual"))
  }

  /** The payload with other manifest rows. */
  function WithRows(payload: map<Text, Json>, rows: seq<Json>): map<Text, Json> {
    payload[Ascii("records") := JArr(rows)]
  }

  lemma FactualCons(row: Json, rows: seq<Json>)
    ensures FactualRows([row] + rows) == FactualRows([row]) + FactualRows(rows)
  {
    assert ([row] + rows)[1..] == rows && [row][1..] == [];
  }

  lemma {:induction false} FactualConcat(a: seq<Json>, b: seq<Json>)
    ensures FactualRows(a + b) == FactualRows(a) + FactualRows(b)
  {
    if a == [] {
      assert a + b == b;
    } else {
      var first, rest := [a[0]], a[1..];
      assert a == first + rest;
      ConcatAssociative(first, rest, b);
      FactualCons(a[0], rest + b);
      FactualConcat(rest, b);
      ConcatAssociative(FactualRows(first), FactualRows(rest), FactualRows(b));
      FactualCons(a[0], rest);
    }
  }

  lemma OneRow(row: Json)
    ensures FactualRows([row]) == if SaysFactual(row) then [row] else []
  {
    assert [row][1..] == [];
  }

  lemma {:induction false} AllFactual(rows: seq<Json>)
    requires forall i :: 0 <= i < |rows| ==> SaysFactual(rows[i])
    ensures FactualRows(rows) == rows
  {
    if rows == [] {
    } else {
      AllFactual(rows[1..]);
      assert rows == [rows[0]] + rows[1..];
    }
  }

  lemma ProjectRows(payload: map<Text, Json>, rows: seq<Json>)
    ensures Project(WithRows(payload, rows)).Some?
    ensures Project(WithRows(payload, rows)).value ==
            (payload - {Ascii("emittedAt")})[Ascii("records") := JArr(FactualRows(rows))]
  {
    assert |Ascii("emittedAt")| == 9 && |Ascii("records")| == 7;
    var p := WithRows(payload, rows);
    assert (p - {Ascii("emittedAt")})[Ascii("records") := JArr(FactualRows(rows))] ==
           (payload - {Ascii("emittedAt")})[Ascii("records") := JArr(FactualRows(rows))];
  }

  lemma RowDropped(before: seq<Json>, row: Json, after: seq<Json>)
    requires !SaysFactual(row)
    ensures FactualRows(before + [row] + after) == FactualRows(before + after)
  {
    FactualConcat(before + [row], after);
    FactualConcat(before, [row]);
    FactualConcat(before, after);
    OneRow(row);
    assert FactualRows(before) + [] == FactualRows(before);
  }

  lemma SameFactual(sha: Hash, payload: map<Text, Json>, rows: seq<Json>, rows': seq<Json>)
    requires FactualRows(rows) == FactualRows(rows')
    ensures SnapshotDigest(sha, WithRows(payload, rows)) == SnapshotDigest(sha, WithRows(payload, rows'))
  {
    ProjectRows(payload, rows);
    ProjectRows(payload, rows');
  }

  /** A row that does not say it is factual, wherever it stands, changes no digest. */
  lemma OtherRowIgnored(sha: Hash, payload: map<Text, Json>, before: seq<Json>, row: Json, after: seq<Json>)
    requires !SaysFactual(row)
    ensures SnapshotDigest(sha, WithRows(payload, before + [row] + after)) ==
            SnapshotDigest(sha, WithRows(payload, before + after))
  {
    RowDropped(before, row, after);
    SameFactual(sha, payload, before + [row] + after, before + after);
  }

  /** What a digest of factual rows only is taken of: the payload without `emittedAt`. */
  ghost function DigestedText(payload: map<Text, Json>, rows: seq<Json>): Text {
    Canonical(JObj(WithRows(payload, rows) - {Ascii("emittedAt")}))
  }

  lemma ProjectedText(payload: map<Text, Json>, rows: seq<Json>)
    requires forall i :: 0 <= i < |rows| ==> SaysFactual(rows[i])
    ensures Project(WithRows(payload, rows)).Some?
    ensures Canonical(JObj(Project(WithRows(payload, rows)).value)) == DigestedText(payload, rows)
  {
    AllFactual(rows);
    ProjectRows(payload, rows);
    assert |Ascii("emittedAt")| == 9 && |Ascii("records")| == 7;
    assert Project(WithRows(payload, rows)).value == WithRows(payload, rows) - {Ascii("emittedAt")};
  }

  lemma RowsOf(payload: map<Text, Json>, rows: seq<Json>)
    ensures ManifestRows(WithRows(payload, rows)) == Some(rows)
  {
  }

  lemma AgreeWithRows(p: map<Text, Json>, q: map<Text, Json>, rows: seq<Json>, rows': seq<Json>)
    ensures AgreeElsewhere(WithRows(p, rows), WithRows(q, rows')) <==> AgreeElsewhere(p, q)
  {
    var p', q' := WithRows(p, rows), WithRows(q, rows');
    assert forall k | k != Ascii("records") :: (k in p' <==> k in p) && (k in p ==> p'[k] == p[k]);
    assert forall k | k != Ascii("records") :: (k in q' <==> k in q) && (k in q ==> q'[k] == q[k]);
  }

  /** Factual rows count, with their order: without a collision two digests of such rows are
      equal exactly when the rows are and the payloads agree elsewhere. */
  lemma FactualRowsCount(
      sha: Hash, p: map<Text, Json>, q: map<Text, Json>, rows: seq<Json>, rows': seq<Json>)
    requires forall i :: 0 <= i < |rows| ==> SaysFactual(rows[i])
    requires forall i :: 0 <= i < |rows'| ==> SaysFactual(rows'[i])
    requires sha(DigestedText(p, rows)) == sha(DigestedText(q, rows')) ==>
               DigestedText(p, rows) == DigestedText(q, rows')
    ensures SnapshotDigest(sha, WithRows(p, rows)) == SnapshotDigest(sha, WithRows(q, rows')) <==>
            rows == rows' && AgreeElsewhere(p, q)
  {
    ProjectedText(p, rows);
    ProjectedText(q, rows');
    DigestComplete(sha, WithRows(p, rows), WithRows(q, rows'));
    AllFactual(rows);
    AllFactual(rows');
    RowsOf(p, rows);
    RowsOf(q, rows');
    AgreeWithRows(p, q, rows, rows');
  }

  /** Missing or null rows are no rows; rows that are no list are an error. */
  lemma RowsMissing(sha: Hash, payload: map<Text, Json>)
    ensures (Ascii("records") in payload ==> payload[Ascii("records")] == JNull) ==>
              SnapshotDigest(sha, payload) == SnapshotDigest(sha, WithRows(payload, []))
    ensures SnapshotDigest(sha, payload).None? <==>
            Ascii("records") in payload && !payload[Ascii("records")].JNull? && !payload[Ascii("records")].JArr?
  {
    if Ascii("records") in payload ==> payload[Ascii("records")] == JNull {
      ProjectRows(payload, []);
      assert Project(payload) == Project(WithRows(payload, []));
    }
  }

  // --------------------------------------------------------------------- the files

  /** Every line ends with a newline, the last one too. */
  lemma LineEnds(lines: seq<Text>, line: Text)
    ensures Ndjson([]) == [] && Ndjson(lines + [line]) == Ndjson(lines) + line + Ascii("\n")
  {
    assert Ascii("\n") == [NEWLINE];
    if lines == [] {
      assert lines + [line] == [line];
    } else {
      JoinAppend(lines, line, [NEWLINE]);
    }
  }

  /** A record's line is the canonical text of an object of seven members. */
  lemma RecordMembers(r: Record)
    ensures var j := RecordJson(r);
            && HasKeys(j, {Ascii("schemaVersion"), Ascii("family"), Ascii("kind"), Ascii("id"), Ascii("plane"),
                           Ascii("payloadHash"), Ascii("payload")})
            && Member(Some(j), Ascii("schemaVersion")) == Some(JStr(r.schemaVersion))
            && Member(Some(j), Ascii("family")) == Some(JStr(r.family))
            && Member(Some(j), Ascii("kind")) == Some(JStr(r.kind))
            && Member(Some(j), Ascii("id")) == Some(JStr(r.id))
            && Member(Some(j), Ascii("plane")) == Some(JStr(r.plane))
            && Member(Some(j), Ascii("payloadHash")) == Some(JStr(r.payloadHash))
            && Member(Some(j), Ascii("payload")) == Some(JObj(r.payload))
  {
    RecordJsonRoundTrip(r);
  }

  ghost predicate HasKeys(j: Json, keys: set<Text>) {
    j.JObj? && j.members.Keys == keys
  }

  lemma MemberNames()
    ensures |Ascii("schemaVersion")| == 13 && |Ascii("family")| == 6 && |Ascii("kind")| == 4
    ensures |Ascii("id")| == 2 && |Ascii("plane")| == 5 && |Ascii("payloadHash")| == 11 && |Ascii("payload")| == 7
    ensures |Ascii("snapshotDigest")| == 14
  {
  }

  /** The snapshot is an object of four members, with the digest of its own payload. */
  lemma SnapshotMembers(sha: Hash, payload: map<Text, Json>, digest: Text)
    ensures var j := SnapshotJson(payload, digest);
            && HasKeys(j, {Ascii("schemaVersion"), Ascii("kind"), Ascii("snapshotDigest"), Ascii("payload")})
            && Member(Some(j), Ascii("schemaVersion")) == Some(JStr(Ascii("agp.snapshot.v1")))
            && Member(Some(j), Ascii("kind")) == Some(JStr(Ascii("agp.snapshot")))
            && Member(Some(j), Ascii("snapshotDigest")) == Some(JStr(digest))
            && Member(Some(j), Ascii("payload")) == Some(JObj(payload))
  {
    MemberNames();
  }

  /** Nothing is emitted exactly when a record has an absolute path among its strings or the
      manifest rows are something else than a list, missing or null. */
  lemma EmitsExactly(sha: Hash, records: seq<Record>, payload: map<Text, Json>)
    ensures EmitBundle(sha, records, payload).None? <==>
            || (exists r, s :: r in records && s in Strings(RecordJson(r)) && LooksAbsolute(s))
            || (Ascii("records") in payload &&
                !payload[Ascii("records")].JNull? && !payload[Ascii("records")].JArr?)
  {
    RowsMissing(sha, payload);
    var sorted := SortRecords(records);
    forall r ensures r in sorted <==> r in records {
      assert r in multiset(sorted) <==> r in multiset(records);
    }
    AbsoluteAmong(sorted);
  }

  lemma AbsoluteAmong(records: seq<Record>)
    ensures HasAbsolutePath(records) <==>
            exists r, s :: r in records && s in Strings(RecordJson(r)) && LooksAbsolute(s)
  {
    if r, s :| r in records && s in Strings(RecordJson(r)) && LooksAbsolute(s) {
      var i :| 0 <= i < |records| && records[i] == r;
    }
  }

  // -------------------------------------------------------------------- the checks

  /** What the verifier recomputes for a record: the hash of its payload and its id. */
  lemma RecordVerifiesExactly(b3: Hash, r: Record)
    ensures RecordVerifies(b3, RecordJson(r)) <==>
            && r.payloadHash == b3(Canonical(JObj(r.payload)))
            && r.id == Ascii("agp:") + r.family + Ascii(":") + r.kind + Ascii(":") + r.payloadHash
  {
    RecordJsonRoundTrip(r);
    assert Ascii(":") == [COLON];
  }

  /** And for a snapshot: its digest. */
  lemma SnapshotVerifiesExactly(sha: Hash, payload: map<Text, Json>, digest: Text)
    ensures SnapshotVerifies(sha, Some(SnapshotJson(payload, digest))) <==>
            SnapshotDigest(sha, payload) == Some(digest)
  {
    SnapshotMembers(sha, payload, digest);
  }

  lemma VerifiedParts(b3: Hash, r: Record)
    requires RecordVerifies(b3, RecordJson(r)) && COLON !in r.family && COLON !in r.kind
    ensures Split(r.id, COLON) == [Ascii("agp"), r.family, r.kind] + Split(r.payloadHash, COLON)
    ensures r.payloadHash == b3(Canonical(JObj(r.payload)))
  {
    RecordVerifiesExactly(b3, r);
    SplitFour(Ascii("agp"), r.family, r.kind, r.payloadHash, COLON);
    assert Ascii("agp:") == Ascii("agp") + Ascii(":") && Ascii(":") == [COLON];
  }

  lemma SameSplits(f: Text, k: Text, h: seq<Text>, f': Text, k': Text, h': seq<Text>)
    requires [Ascii("agp"), f, k] + h == [Ascii("agp"), f', k'] + h'
    ensures f == f' && k == k' && h == h'
  {
    var a, b := [Ascii("agp"), f, k] + h, [Ascii("agp"), f', k'] + h';
    assert a[1] == f && b[1] == f' && a[2] == k && b[2] == k';
    assert a[3..] == h && b[3..] == h';
  }

  /** Alteration shows: two records the verifier accepts under one id, without a collision of their
      payloads' hashes, have the same family, kind, payload hash and payload. */
  lemma IdCommits(b3: Hash, r: Record, r': Record)
    requires RecordVerifies(b3, RecordJson(r)) && RecordVerifies(b3, RecordJson(r')) && r.id == r'.id
    requires COLON !in r.family && COLON !in r.kind && COLON !in r'.family && COLON !in r'.kind
    requires var (x, y) := (Canonical(JObj(r.payload)), Canonical(JObj(r'.payload))); b3(x) == b3(y) ==> x == y
    ensures r.family == r'.family && r.kind == r'.kind
    ensures r.payloadHash == r'.payloadHash && r.payload == r'.payload
  {
    VerifiedParts(b3, r);
    VerifiedParts(b3, r');
    SameSplits(r.family, r.kind, Split(r.payloadHash, COLON), r'.family, r'.kind, Split(r'.payloadHash, COLON));
    JoinSplit(r.payloadHash, COLON);
    JoinSplit(r'.payloadHash, COLON);
    CanonicalInjective(JObj(r.payload), JObj(r'.payload));
  }
}
