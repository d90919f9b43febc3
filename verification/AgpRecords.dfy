/** AGP records: how they are built and hashed, and the order of the record stream.
    The emitter and the verifier carry textually equal copies of the comparator and of the
    hash recipes; one member here stands for both. Hash functions are parameters. */
module AgpRecords {
  import opened Json
  import opened Results
  import opened Sorting
  import opened Texts

  datatype Record = Record(
    schemaVersion: Text, family: Text, kind: Text, id: Text, plane: Text,
    payloadHash: Text, payload: map<Text, Json>)

  // -------------------------------------------------------------------- building

  ghost function PayloadHash(b3: Hash, payload: map<Text, Json>): Text {
    b3(Canonical(JObj(payload)))
  }

  function RecordId(family: Text, kind: Text, payloadHash: Text): Text {
    Ascii("agp:") + family + [COLON] + kind + [COLON] + payloadHash
  }

  ghost function BuildRecord(b3: Hash, family: Text, kind: Text, plane: Text, payload: map<Text, Json>): Record {
    var payloadHash := PayloadHash(b3, payload);
    Record(Ascii("agp.record.v1"), family, kind, RecordId(family, kind, payloadHash), plane, payloadHash, payload)
  }

  /** `r` came out of the record builder. */
  ghost predicate Built(b3: Hash, r: Record) {
    r == BuildRecord(b3, r.family, r.kind, r.plane, r.payload)
  }

  // ---------------------------------------------------------------- JSON coercions

  /** `String(v)` */
  function ToText(j: Json): Text
    decreases j, 1
  {
    match j
    case JNull => NULL_TEXT
    case JBool(b) => if b then TRUE_TEXT else FALSE_TEXT
    case JNum(n) => NumText(n)
    case JStr(s) => s
    case JArr(items) => Join(ElementTexts(items), [COMMA])
    case JObj(_) => Ascii("[object Object]")
  }

  /** Array elements as `String` joins them: null turns into nothing. */
  function ElementTexts(items: seq<Json>): seq<Text>
    decreases items, 0
  {
    seq(|items|, i requires 0 <= i < |items| => if items[i].JNull? then [] else ToText(items[i]))
  }

  /** `o[key]`, where a missing member is `undefined`. */
  function Member(o: Option<Json>, key: Text): Option<Json> {
    if o.Some? && o.value.JObj? && key in o.value.members then Some(o.value.members[key]) else None
  }

  /** `` `${v ?? ''}` `` */
  function OrEmpty(v: Option<Json>): Text {
    if v.None? || v.value.JNull? then [] else ToText(v.value)
  }

  /** `` `${v}` `` */
  function Spelled(v: Option<Json>): Text {
    if v.None? then Ascii("undefined") else ToText(v.value)
  }

  predicate Truthy(v: Option<Json>) {
    match v
    case None => false
    case Some(JNull) => false
    case Some(JBool(b)) => b
    case Some(JNum(n)) => !(n.whole == 0 && n.fraction == [])
    case Some(JStr(s)) => s != []
    case Some(_) => true
  }

  // ------------------------------------------------------------------- sort order

  function SeverityRank(severity: Text): nat {
    if severity == Ascii("INTERNAL") then 5
    else if severity == Ascii("BLOCKING") then 4
    else if severity == Ascii("ERROR") then 3
    else if severity == Ascii("WARNING") then 2
    else if severity == Ascii("INFO") then 1
    else 0
  }

  function DriftSubKey(p: Option<Json>): Text {
    var id := Ascii("id");
    var edge := Member(p, Ascii("edge"));
    if Truthy(Member(p, Ascii("node"))) then
      Ascii("node:") + Spelled(Member(Member(p, Ascii("node")), id))
    else if Truthy(edge) then
      Ascii("edge:") + Spelled(Member(edge, Ascii("from"))) + Ascii("->") +
      Spelled(Member(edge, Ascii("to"))) + [BAR] + Spelled(Member(edge, Ascii("type")))
    else if Truthy(Member(p, Ascii("violation"))) then
      Ascii("violation:") + Spelled(Member(Member(p, Ascii("violation")), id))
    else if Truthy(Member(p, Ascii("severityChange"))) then
      Ascii("severityChange:") + Spelled(Member(Member(p, Ascii("severityChange")), id))
    else if Truthy(Member(p, Ascii("deltas"))) then Ascii("signal")
    else []
  }

  function PrimaryKey(r: Record): Text {
    var p := Some(JObj(r.payload));
    var text := (key: string) => OrEmpty(Member(p, Ascii(key)));
    if r.family == Ascii("node") then text("nodeId")
    else if r.family == Ascii("edge") then text("from") + [BAR] + text("to") + [BAR] + text("type")
    else if r.family == Ascii("adapter_evidence") then text("name")
    else if r.family == Ascii("diagnostic") then
      NatText(9 - SeverityRank(text("severity"))) + [BAR] + text("code") + [BAR] + text("message")
    else if r.family == Ascii("drift") then
      var digest := Ascii("snapshotDigest");
      OrEmpty(Member(Member(p, Ascii("baseline")), digest)) + [BAR] +
      OrEmpty(Member(Member(p, Ascii("current")), digest)) + [BAR] + DriftSubKey(p)
    else if r.family == Ascii("policy_finding") then text("findingId")
    else if r.family == Ascii("provenance") then text("command")
    else if r.family == Ascii("observation") then
      var observer := Member(p, Ascii("observer"));
      OrEmpty(Member(observer, Ascii("type"))) + [BAR] + OrEmpty(Member(observer, Ascii("model"))) + [BAR] +
      OrEmpty(Member(observer, Ascii("modelVersion"))) + [BAR] +
      OrEmpty(Member(Member(p, Ascii("body")), Ascii("kind")))
    else if r.family == Ascii("attestation") then r.kind
    else []
  }

  function CompareTexts(a: Text, b: Text): int {
    if a == b then 0 else if Less(a, b) then -1 else 1
  }

  /** The comparator of the record stream: family, kind, primary key, payload hash. */
  function Compare(a: Record, b: Record): int {
    if a.family != b.family then CompareTexts(a.family, b.family)
    else if a.kind != b.kind then CompareTexts(a.kind, b.kind)
    else if PrimaryKey(a) != PrimaryKey(b) then CompareTexts(PrimaryKey(a), PrimaryKey(b))
    else CompareTexts(a.payloadHash, b.payloadHash)
  }

  predicate NotAfter(a: Record, b: Record) {
    Compare(a, b) <= 0
  }

  lemma CompareTextsLaws(a: Text, b: Text, c: Text)
    ensures CompareTexts(a, b) == -CompareTexts(b, a)
    ensures CompareTexts(a, b) <= 0 && CompareTexts(b, c) <= 0 ==> CompareTexts(a, c) <= 0
    ensures CompareTexts(a, b) <= 0 && CompareTexts(b, c) <= 0 && CompareTexts(a, c) == 0 ==> a == b == c
    ensures CompareTexts(a, b) == 0 <==> a == b
  {
    LeqTotal(a, b);
    if Leq(a, b) && Leq(b, a) { LeqAntisymmetric(a, b); }
    if Leq(a, b) && Leq(b, c) { LeqTransitive(a, b, c); }
    if Leq(b, c) && Leq(c, b) { LeqAntisymmetric(b, c); }
  }

  /** The comparator is antisymmetric and transitive, and calls equal exactly the records
      that agree on all four keys. */
  lemma CompareLaws(a: Record, b: Record, c: Record)
    ensures Compare(a, b) == -Compare(b, a)
    ensures NotAfter(a, b) && NotAfter(b, c) ==> NotAfter(a, c)
    ensures Compare(a, b) == 0 <==>
            a.family == b.family && a.kind == b.kind && PrimaryKey(a) == PrimaryKey(b) && a.payloadHash == b.payloadHash
  {
    CompareTextsLaws(a.family, b.family, c.family);
    CompareTextsLaws(a.kind, b.kind, c.kind);
    CompareTextsLaws(PrimaryKey(a), PrimaryKey(b), PrimaryKey(c));
    CompareTextsLaws(a.payloadHash, b.payloadHash, c.payloadHash);
  }

  lemma NotAfterIsPreorder()
    ensures TotalPreorder(NotAfter)
  {
    forall a, b ensures NotAfter(a, b) || NotAfter(b, a) { CompareLaws(a, b, b); }
    forall a, b, c | NotAfter(a, b) && NotAfter(b, c) ensures NotAfter(a, c) { CompareLaws(a, b, c); }
  }

  /** How severe a diagnostic record is. */
  function DiagnosticRank(r: Record): nat {
    SeverityRank(OrEmpty(Member(Some(JObj(r.payload)), Ascii("severity"))))
  }

  lemma DigitText(n: nat)
    requires n < 10
    ensures NatText(n) == [(0x30 + n) as CodeUnit]
  {
  }

  lemma DiagnosticKey(r: Record)
    requires r.family == Ascii("diagnostic")
    ensures PrimaryKey(r) != [] && PrimaryKey(r)[0] as int == 0x30 + 9 - DiagnosticRank(r)
  {
    assert |Ascii("node")| == 4 && |Ascii("edge")| == 4 && |Ascii("adapter_evidence")| == 16;
    assert |Ascii("diagnostic")| == 10;
    DigitText(9 - DiagnosticRank(r));
  }

  /** Of two diagnostics of one kind the more severe comes first. */
  lemma MoreSevereFirst(a: Record, b: Record)
    requires a.family == b.family == Ascii("diagnostic") && a.kind == b.kind
    requires DiagnosticRank(a) > DiagnosticRank(b)
    ensures Compare(a, b) < 0
  {
    DiagnosticKey(a);
    DiagnosticKey(b);
  }

  function SortRecords(records: seq<Record>): seq<Record> {
    Sort(NotAfter, records)
  }

  /** No two of these records have payloads that differ and hash alike. */
  ghost predicate CollisionFree(b3: Hash, records: seq<Record>) {
    forall r, s :: r in records && s in records && PayloadHash(b3, r.payload) == PayloadHash(b3, s.payload) ==>
      r.payload == s.payload
  }

  /** Any two orderings of the same built records sort to the identical stream. */
  lemma SortDeterministic(b3: Hash, planeOf: Text -> Text, s: seq<Record>, t: seq<Record>)
    requires multiset(s) == multiset(t)
    requires forall r <- s :: Built(b3, r) && r.plane == planeOf(r.family)
    requires CollisionFree(b3, s)
    ensures SortRecords(s) == SortRecords(t)
    ensures Sorted(NotAfter, SortRecords(s))
  {
    NotAfterIsPreorder();
    SortSorts(NotAfter, s);
    SortSorts(NotAfter, t);
    var sorted := SortRecords(s);
    forall x, y | x in sorted && y in sorted && NotAfter(x, y) && NotAfter(y, x) ensures x == y {
      assert x in multiset(sorted) && y in multiset(sorted);
      assert x in multiset(s) && y in multiset(s);
      CompareLaws(x, y, y);
      assert Built(b3, x) && Built(b3, y);
    }
    SortedUnique(NotAfter, SortRecords(s), SortRecords(t));
  }

  /** The verifier's scan for the first out-of-order neighbour. */
  method FindFirstSortViolation(records: seq<Record>) returns (index: int)
    ensures index == -1 <==> Sorted(NotAfter, records)
    ensures index != -1 ==> 0 < index < |records| && Compare(records[index - 1], records[index]) > 0
    ensures index != -1 ==> Sorted(NotAfter, records[..index])
  {
    NotAfterIsPreorder();
    var i := 1;
    while i < |records|
      invariant 1 <= i
      invariant |records| > 0 ==> i <= |records| && Sorted(NotAfter, records[..i])
    {
      if Compare(records[i - 1], records[i]) > 0 {
        assert !NotAfter(records[i - 1], records[i]);
        return i;
      }
      SortedAppend(NotAfter, records, i);
      i := i + 1;
    }
    assert |records| > 0 ==> records[..|records|] == records;
    return -1;
  }
}
