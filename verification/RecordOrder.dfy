/** The order of the record stream and the ids of its records, in terms of what records say. */
module RecordOrder {
  import opened AgpRecords
  import opened Json
  import opened Results
  import opened Sorting
  import opened Texts

  // ------------------------------------------------------------- family, kind and hash

  /** The family decides first. */
  lemma FamilyDecides(a: Record, b: Record)
    requires a.family != b.family
    ensures Compare(a, b) < 0 <==> Less(a.family, b.family)
    ensures Compare(a, b) != 0
  {
  }

  /** In one family the kind does. */
  lemma KindDecides(a: Record, b: Record)
    requires a.family == b.family && a.kind != b.kind
    ensures Compare(a, b) < 0 <==> Less(a.kind, b.kind)
    ensures Compare(a, b) != 0
  {
  }

  /** So in a sorted stream the families ascend, and the kinds within each. */
  lemma FamiliesAscend(s: seq<Record>, i: nat, j: nat)
    requires Sorted(NotAfter, s) && i < j < |s|
    ensures Leq(s[i].family, s[j].family)
    ensures s[i].family == s[j].family ==> Leq(s[i].kind, s[j].kind)
  {
    assert NotAfter(s[i], s[j]);
    LeqTotal(s[i].family, s[i].family);
    LeqTotal(s[i].kind, s[i].kind);
  }

  // ------------------------------------------------------------ what a payload says

  /** `t` is the language's text of a value: a string is its own text, an array's items are joined
      with commas, null ones as nothing. */
  ghost predicate Reads(j: Json, t: Text)
    decreases j
  {
    match j
    case JNull => t == Ascii("null")
    case JBool(b) => t == if b then Ascii("true") else Ascii("false")
    case JNum(_) => t == Canonical(j)
    case JStr(s) => t == s
    case JObj(_) => t == Ascii("[object Object]")
    case JArr(items) =>
      exists texts: seq<Text> ::
        && |texts| == |items| && t == Join(texts, Ascii(","))
        && forall i :: 0 <= i < |items| ==> if items[i] == JNull then texts[i] == [] else Reads(items[i], texts[i])
  }

  lemma {:induction false} ReadsExactly(j: Json, t: Text)
    ensures Reads(j, t) <==> ToText(j) == t
    decreases j
  {
    if j.JArr? {
      ItemsRead(j.items);
      assert Ascii(",") == [COMMA];
      if Reads(j, t) {
        var texts: seq<Text> :|
          && |texts| == |j.items| && t == Join(texts, Ascii(","))
          && forall i :: 0 <= i < |j.items| ==>
               if j.items[i] == JNull then texts[i] == [] else Reads(j.items[i], texts[i]);
        assert texts == ElementTexts(j.items);
      }
    }
  }

  lemma {:induction false} ItemsRead(items: seq<Json>)
    ensures forall i, t :: 0 <= i < |items| && items[i] != JNull ==> (Reads(items[i], t) <==> ToText(items[i]) == t)
    ensures forall i :: 0 <= i < |items| ==>
              ElementTexts(items)[i] == if items[i] == JNull then [] else ToText(items[i])
    decreases items
  {
    forall i, t | 0 <= i < |items| && items[i] != JNull ensures Reads(items[i], t) <==> ToText(items[i]) == t {
      ReadsExactly(items[i], t);
    }
  }

  /** What member `key` says: nothing when it is missing or null. */
  ghost predicate Says(o: map<Text, Json>, key: string, t: Text) {
    if Ascii(key) in o && o[Ascii(key)] != JNull then Reads(o[Ascii(key)], t) else t == []
  }

  /** How member `key` is put into a text as it is. */
  ghost predicate Prints(o: map<Text, Json>, key: string, t: Text) {
    if Ascii(key) in o then Reads(o[Ascii(key)], t) else t == Ascii("undefined")
  }

  /** The same of member `key` of the object in member `outer`; anything else has no members. */
  ghost predicate InnerSays(o: map<Text, Json>, outer: string, key: string, t: Text) {
    if Ascii(outer) in o && o[Ascii(outer)].JObj? then Says(o[Ascii(outer)].members, key, t) else t == []
  }

  ghost predicate InnerPrints(o: map<Text, Json>, outer: string, key: string, t: Text) {
    if Ascii(outer) in o && o[Ascii(outer)].JObj? then Prints(o[Ascii(outer)].members, key, t)
    else t == Ascii("undefined")
  }

  /** Member `key` counts as false: missing, null, `false`, zero or the empty text. */
  ghost predicate Lacks(o: map<Text, Json>, key: string) {
    Ascii(key) in o ==>
      || o[Ascii(key)] == JNull || o[Ascii(key)] == JBool(false) || o[Ascii(key)] == JStr([])
      || (o[Ascii(key)].JNum? && o[Ascii(key)].n.whole == 0 && o[Ascii(key)].n.fraction == [])
  }

  // ------------------------------------------------------ the keys of the nine families

  /** The most severe first; a severity that is none of these comes last. */
  function SeverityDigit(severity: Text): Text {
    if severity == Ascii("INTERNAL") then Ascii("4")
    else if severity == Ascii("BLOCKING") then Ascii("5")
    else if severity == Ascii("ERROR") then Ascii("6")
    else if severity == Ascii("WARNING") then Ascii("7")
    else if severity == Ascii("INFO") then Ascii("8")
    else Ascii("9")
  }

  ghost predicate EdgeKey(p: map<Text, Json>, t: Text) {
    exists from, to, edgeType ::
      Says(p, "from", from) && Says(p, "to", to) && Says(p, "type", edgeType) &&
      t == from + Ascii("|") + to + Ascii("|") + edgeType
  }

  ghost predicate DiagnosticSays(p: map<Text, Json>, t: Text) {
    exists severity, code, message ::
      Says(p, "severity", severity) && Says(p, "code", code) && Says(p, "message", message) &&
      t == SeverityDigit(severity) + Ascii("|") + code + Ascii("|") + message
  }

  ghost predicate ObservationSays(p: map<Text, Json>, t: Text) {
    exists observer, model, version, kind ::
      InnerSays(p, "observer", "type", observer) && InnerSays(p, "observer", "model", model) &&
      InnerSays(p, "observer", "modelVersion", version) && InnerSays(p, "body", "kind", kind) &&
      t == observer + Ascii("|") + model + Ascii("|") + version + Ascii("|") + kind
  }

  /** `name` and the id of the object in that member. */
  ghost predicate NamesId(p: map<Text, Json>, key: string, t: Text) {
    exists id :: InnerPrints(p, key, "id", id) && t == Ascii(key) + Ascii(":") + id
  }

  ghost predicate NamesEdge(p: map<Text, Json>, t: Text) {
    exists from, to, edgeType ::
      InnerPrints(p, "edge", "from", from) && InnerPrints(p, "edge", "to", to) &&
      InnerPrints(p, "edge", "type", edgeType) &&
      t == Ascii("edge:") + from + Ascii("->") + to + Ascii("|") + edgeType
  }

  /** Which part of a drift record tells it apart: its node, else its edge, its violation, its
      severity change, or that it carries signal deltas. */
  ghost predicate DriftPart(p: map<Text, Json>, t: Text) {
    if !Lacks(p, "node") then NamesId(p, "node", t)
    else if !Lacks(p, "edge") then NamesEdge(p, t)
    else if !Lacks(p, "violation") then NamesId(p, "violation", t)
    else if !Lacks(p, "severityChange") then NamesId(p, "severityChange", t)
    else t == if Lacks(p, "deltas") then [] else Ascii("signal")
  }

  ghost predicate DriftSays(p: map<Text, Json>, t: Text) {
    exists baseline, current, part ::
      InnerSays(p, "baseline", "snapshotDigest", baseline) && InnerSays(p, "current", "snapshotDigest", current) &&
      DriftPart(p, part) && t == baseline + Ascii("|") + current + Ascii("|") + part
  }

  /** Within its family and kind the record is placed by `t`. */
  ghost predicate PlacedBy(r: Record, t: Text) {
    if r.family == Ascii("node") then Says(r.payload, "nodeId", t)
    else if r.family == Ascii("edge") then EdgeKey(r.payload, t)
    else if r.family == Ascii("adapter_evidence") then Says(r.payload, "name", t)
    else if r.family == Ascii("diagnostic") then DiagnosticSays(r.payload, t)
    else if r.family == Ascii("drift") then DriftSays(r.payload, t)
    else if r.family == Ascii("policy_finding") then Says(r.payload, "findingId", t)
    else if r.family == Ascii("provenance") then Says(r.payload, "command", t)
    else if r.family == Ascii("observation") then ObservationSays(r.payload, t)
    else t == if r.family == Ascii("attestation") then r.kind else []
  }

  lemma SaysExactly(o: map<Text, Json>, key: string, t: Text)
    ensures Says(o, key, t) <==> OrEmpty(Member(Some(JObj(o)), Ascii(key))) == t
  {
    if Ascii(key) in o {
      ReadsExactly(o[Ascii(key)], t);
    }
  }

  lemma PrintsExactly(o: map<Text, Json>, key: string, t: Text)
    ensures Prints(o, key, t) <==> Spelled(Member(Some(JObj(o)), Ascii(key))) == t
  {
    if Ascii(key) in o {
      ReadsExactly(o[Ascii(key)], t);
    }
  }

  lemma InnerSaysExactly(o: map<Text, Json>, outer: string, key: string, t: Text)
    ensures InnerSays(o, outer, key, t) <==>
            OrEmpty(Member(Member(Some(JObj(o)), Ascii(outer)), Ascii(key))) == t
  {
    if Ascii(outer) in o && o[Ascii(outer)].JObj? {
      SaysExactly(o[Ascii(outer)].members, key, t);
    }
  }

  lemma InnerPrintsExactly(o: map<Text, Json>, outer: string, key: string, t: Text)
    ensures InnerPrints(o, outer, key, t) <==>
            Spelled(Member(Member(Some(JObj(o)), Ascii(outer)), Ascii(key))) == t
  {
    if Ascii(outer) in o && o[Ascii(outer)].JObj? {
      PrintsExactly(o[Ascii(outer)].members, key, t);
    }
  }

  lemma LacksExactly(p: map<Text, Json>, key: string)
    ensures Lacks(p, key) <==> !Truthy(Member(Some(JObj(p)), Ascii(key)))
  {
  }

  /** What member `key` says, as the comparator computes it. */
  function Said(p: map<Text, Json>, key: string): Text {
    OrEmpty(Member(Some(JObj(p)), Ascii(key)))
  }

  function InnerSaid(p: map<Text, Json>, outer: string, key: string): Text {
    OrEmpty(Member(Member(Some(JObj(p)), Ascii(outer)), Ascii(key)))
  }

  lemma SaidExactly(p: map<Text, Json>, key: string)
    ensures forall t :: Says(p, key, t) <==> t == Said(p, key)
  {
    forall t ensures Says(p, key, t) <==> t == Said(p, key) {
      SaysExactly(p, key, t);
    }
  }

  lemma InnerSaidExactly(p: map<Text, Json>, outer: string, key: string)
    ensures forall t :: InnerSays(p, outer, key, t) <==> t == InnerSaid(p, outer, key)
  {
    forall t ensures InnerSays(p, outer, key, t) <==> t == InnerSaid(p, outer, key) {
      InnerSaysExactly(p, outer, key, t);
    }
  }

  lemma SeverityDigitIs(severity: Text)
    ensures NatText(9 - SeverityRank(severity)) == SeverityDigit(severity)
  {
    DigitText(9 - SeverityRank(severity));
  }

  lemma NamesIdExactly(p: map<Text, Json>, key: string, t: Text)
    ensures NamesId(p, key, t) <==>
            t == Ascii(key) + Ascii(":") + Spelled(Member(Member(Some(JObj(p)), Ascii(key)), Ascii("id")))
  {
    forall id ensures InnerPrints(p, key, "id", id) <==>
                      Spelled(Member(Member(Some(JObj(p)), Ascii(key)), Ascii("id"))) == id {
      InnerPrintsExactly(p, key, "id", id);
    }
  }

  function InnerPrinted(p: map<Text, Json>, outer: string, key: string): Text {
    Spelled(Member(Member(Some(JObj(p)), Ascii(outer)), Ascii(key)))
  }

  lemma InnerPrintedExactly(p: map<Text, Json>, outer: string, key: string)
    ensures forall t :: InnerPrints(p, outer, key, t) <==> t == InnerPrinted(p, outer, key)
  {
    forall t ensures InnerPrints(p, outer, key, t) <==> t == InnerPrinted(p, outer, key) {
      InnerPrintsExactly(p, outer, key, t);
    }
  }

  lemma NamesEdgeExactly(p: map<Text, Json>, t: Text)
    ensures NamesEdge(p, t) <==>
            t == Ascii("edge:") + InnerPrinted(p, "edge", "from") + Ascii("->") +
                 InnerPrinted(p, "edge", "to") + Ascii("|") + InnerPrinted(p, "edge", "type")
  {
    InnerPrintedExactly(p, "edge", "from");
    InnerPrintedExactly(p, "edge", "to");
    InnerPrintedExactly(p, "edge", "type");
    assert InnerPrints(p, "edge", "from", InnerPrinted(p, "edge", "from"));
    assert InnerPrints(p, "edge", "to", InnerPrinted(p, "edge", "to"));
    assert InnerPrints(p, "edge", "type", InnerPrinted(p, "edge", "type"));
  }

  lemma DriftPartExactly(p: map<Text, Json>, t: Text)
    ensures DriftPart(p, t) <==> DriftSubKey(Some(JObj(p))) == t
  {
    LacksExactly(p, "node");
    LacksExactly(p, "edge");
    LacksExactly(p, "violation");
    LacksExactly(p, "severityChange");
    LacksExactly(p, "deltas");
    NamesIdExactly(p, "node", t);
    NamesIdExactly(p, "violation", t);
    NamesIdExactly(p, "severityChange", t);
    NamesEdgeExactly(p, t);
    PartTexts();
  }

  lemma PartTexts()
    ensures Ascii("node") + Ascii(":") == Ascii("node:") && Ascii("|") == [BAR]
    ensures Ascii("violation") + Ascii(":") == Ascii("violation:")
    ensures Ascii("severityChange") + Ascii(":") == Ascii("severityChange:")
  {
  }

  lemma EdgeKeyExactly(p: map<Text, Json>, t: Text)
    ensures EdgeKey(p, t) <==> t == Said(p, "from") + Ascii("|") + Said(p, "to") + Ascii("|") + Said(p, "type")
  {
    SaidExactly(p, "from");
    SaidExactly(p, "to");
    SaidExactly(p, "type");
    assert Says(p, "from", Said(p, "from")) && Says(p, "to", Said(p, "to")) && Says(p, "type", Said(p, "type"));
  }

  lemma DiagnosticExactly(p: map<Text, Json>, t: Text)
    ensures DiagnosticSays(p, t) <==>
            t == SeverityDigit(Said(p, "severity")) + Ascii("|") + Said(p, "code") + Ascii("|") + Said(p, "message")
  {
    SaidExactly(p, "severity");
    SaidExactly(p, "code");
    SaidExactly(p, "message");
    assert Says(p, "severity", Said(p, "severity"));
    assert Says(p, "code", Said(p, "code")) && Says(p, "message", Said(p, "message"));
  }

  lemma DriftExactly(p: map<Text, Json>, t: Text)
    ensures DriftSays(p, t) <==>
            t == InnerSaid(p, "baseline", "snapshotDigest") + Ascii("|") +
                 InnerSaid(p, "current", "snapshotDigest") + Ascii("|") + DriftSubKey(Some(JObj(p)))
  {
    InnerSaidExactly(p, "baseline", "snapshotDigest");
    InnerSaidExactly(p, "current", "snapshotDigest");
    forall u ensures DriftPart(p, u) <==> u == DriftSubKey(Some(JObj(p))) {
      DriftPartExactly(p, u);
    }
    assert InnerSays(p, "baseline", "snapshotDigest", InnerSaid(p, "baseline", "snapshotDigest"));
    assert InnerSays(p, "current", "snapshotDigest", InnerSaid(p, "current", "snapshotDigest"));
    assert DriftPart(p, DriftSubKey(Some(JObj(p))));
  }

  lemma ObservationExactly(p: map<Text, Json>, t: Text)
    ensures ObservationSays(p, t) <==>
            t == InnerSaid(p, "observer", "type") + Ascii("|") + InnerSaid(p, "observer", "model") + Ascii("|") +
                 InnerSaid(p, "observer", "modelVersion") + Ascii("|") + InnerSaid(p, "body", "kind")
  {
    InnerSaidExactly(p, "observer", "type");
    InnerSaidExactly(p, "observer", "model");
    InnerSaidExactly(p, "observer", "modelVersion");
    InnerSaidExactly(p, "body", "kind");
    assert InnerSays(p, "observer", "type", InnerSaid(p, "observer", "type"));
    assert InnerSays(p, "observer", "model", InnerSaid(p, "observer", "model"));
    assert InnerSays(p, "observer", "modelVersion", InnerSaid(p, "observer", "modelVersion"));
    assert InnerSays(p, "body", "kind", InnerSaid(p, "body", "kind"));
  }

  /** The families' names differ, and the bar is one unit. */
  lemma FamilyTexts()
    ensures Ascii("|") == [BAR]
    ensures Ascii("edge") != Ascii("node")
    ensures Ascii("diagnostic") !in {Ascii("node"), Ascii("edge"), Ascii("adapter_evidence")}
    ensures Ascii("drift") !in {Ascii("node"), Ascii("edge"), Ascii("adapter_evidence"), Ascii("diagnostic")}
    ensures Ascii("observation") !in {
      Ascii("node"), Ascii("edge"), Ascii("adapter_evidence"), Ascii("diagnostic"), Ascii("drift"),
      Ascii("policy_finding"), Ascii("provenance")}
  {
    assert Ascii("edge")[0] == 0x65 && Ascii("node")[0] == 0x6E;
    assert |Ascii("edge")| == |Ascii("node")| == 4 && |Ascii("drift")| == 5;
    assert |Ascii("adapter_evidence")| == 16 && |Ascii("diagnostic")| == |Ascii("provenance")| == 10;
    assert |Ascii("observation")| == 11 && |Ascii("policy_finding")| == 14;
  }

  /** Every record has one place. */
  lemma PlaceExactly(r: Record, t: Text)
    ensures PlacedBy(r, t) <==> PrimaryKey(r) == t
  {
    if r.family == Ascii("edge") {
      EdgePlaceExactly(r, t);
    } else if r.family == Ascii("diagnostic") {
      DiagnosticPlaceExactly(r, t);
    } else if r.family == Ascii("drift") {
      DriftPlaceExactly(r, t);
    } else if r.family == Ascii("observation") {
      ObservationPlaceExactly(r, t);
    } else {
      PlainPlaceExactly(r, t);
    }
  }

  lemma EdgePlaceExactly(r: Record, t: Text)
    requires r.family == Ascii("edge")
    ensures PlacedBy(r, t) <==> PrimaryKey(r) == t
  {
    FamilyTexts();
    EdgeKeyExactly(r.payload, t);
  }

  lemma DiagnosticPlaceExactly(r: Record, t: Text)
    requires r.family == Ascii("diagnostic")
    ensures PlacedBy(r, t) <==> PrimaryKey(r) == t
  {
    FamilyTexts();
    DiagnosticExactly(r.payload, t);
    SeverityDigitIs(Said(r.payload, "severity"));
  }

  lemma DriftPlaceExactly(r: Record, t: Text)
    requires r.family == Ascii("drift")
    ensures PlacedBy(r, t) <==> PrimaryKey(r) == t
  {
    FamilyTexts();
    DriftExactly(r.payload, t);
  }

  lemma ObservationPlaceExactly(r: Record, t: Text)
    requires r.family == Ascii("observation")
    ensures PlacedBy(r, t) <==> PrimaryKey(r) == t
  {
    FamilyTexts();
    ObservationExactly(r.payload, t);
  }

  lemma PlainPlaceExactly(r: Record, t: Text)
    requires r.family !in {Ascii("edge"), Ascii("diagnostic"), Ascii("drift"), Ascii("observation")}
    ensures PlacedBy(r, t) <==> PrimaryKey(r) == t
  {
    if r.family == Ascii("node") {
      SaysExactly(r.payload, "nodeId", t);
    } else if r.family == Ascii("adapter_evidence") {
      SaysExactly(r.payload, "name", t);
    } else if r.family == Ascii("policy_finding") {
      SaysExactly(r.payload, "findingId", t);
    } else if r.family == Ascii("provenance") {
      SaysExactly(r.payload, "command", t);
    }
  }

  /** In one family and kind the text that places a record decides, and when it is the same the
      payload hash does. */
  lemma PlaceDecides(a: Record, b: Record, s: Text, t: Text)
    requires a.family == b.family && a.kind == b.kind && PlacedBy(a, s) && PlacedBy(b, t)
    ensures Compare(a, b) < 0 <==> if s != t then Less(s, t) else Less(a.payloadHash, b.payloadHash)
  {
    PlaceExactly(a, s);
    PlaceExactly(b, t);
    LeqTotal(a.payloadHash, b.payloadHash);
  }

  // ------------------------------------------------------------------------- the ids

  lemma RegroupFour(a: Text, b: Text, c: Text, d: Text, s: Text)
    ensures a + s + b + s + c + s + d == a + s + (b + s + (c + s + d))
  {
    ConcatAssociative(a + s + b + s + c, s, d);
    ConcatAssociative(a + s + b + s, c, s + d);
    ConcatAssociative(c, s, d);
    var two := c + s + d;
    ConcatAssociative(a + s + b, s, two);
    ConcatAssociative(a + s, b, s + two);
    ConcatAssociative(b, s, two);
  }

  lemma Prepended(a: Text, b: Text, c: Text, rest: seq<Text>)
    ensures [a] + ([b] + ([c] + rest)) == [a, b, c] + rest
  {
  }

  lemma SplitFour(a: Text, b: Text, c: Text, d: Text, colon: CodeUnit)
    requires colon !in a && colon !in b && colon !in c
    ensures Split(a + [colon] + b + [colon] + c + [colon] + d, colon) == [a, b, c] + Split(d, colon)
  {
    var two := c + [colon] + d;
    SplitAfterPiece(c, d, colon);
    SplitAfterPiece(b, two, colon);
    SplitAfterPiece(a, b + [colon] + two, colon);
    RegroupFour(a, b, c, d, [colon]);
    Prepended(a, b, c, Split(d, colon));
  }

  /** A built record carries the version, the hash of its payload's canonical text, and an id
      whose parts between colons are its family, its kind and that hash. */
  lemma BuiltParts(b3: Hash, r: Record)
    requires Built(b3, r) && COLON !in r.family && COLON !in r.kind
    ensures r.schemaVersion == Ascii("agp.record.v1")
    ensures r.payloadHash == b3(Canonical(JObj(r.payload)))
    ensures Split(r.id, COLON) == [Ascii("agp"), r.family, r.kind] + Split(r.payloadHash, COLON)
  {
    SplitFour(Ascii("agp"), r.family, r.kind, r.payloadHash, COLON);
    assert Ascii("agp:") == Ascii("agp") + [COLON];
  }
}
