/** The stability regression classifier, over exact reals. */
module Regression {
  import opened Results
  import opened Texts

  datatype Tier = Critical | Warning | Healthy | Stable

  datatype Label = VeryLow | Low | Moderate | High

  datatype Mode = Structured | FallbackDirectoryScan | MixedWorkspaceDetection | OtherMode

  datatype Severity = Minor | Moderate | Major | Critical

  /** How far the regression signal itself is trusted, and why. */
  datatype Confidence = LowConfidence | MediumConfidence | HighConfidence

  datatype Source =
    | StructuredParity | ConfidenceLabelDrift | FallbackModeTriggered | WorkspaceAmbiguity
    | ClassificationDegradation | MultiFactor

  datatype Direction = Improved | Degraded | Unchanged

  datatype Trend = Up | Down | Stable

  datatype Field =
    | Coverage | Connectivity | StabilityScore | TopologyConfidence
    | StabilityTier | TopologyConfidenceLabel | AuthorityCrossings

  datatype Measure = Amount(x: real) | Count(n: int) | OfTier(tier: Tier) | OfLabel(grade: Label)

  datatype Delta = Delta(field: Field, previous: Measure, current: Measure, direction: Direction)

  /** What the previous run stored; any part may be missing. */
  datatype Baseline = Baseline(
    coverage: Option<real>, connectivity: Option<real>, stabilityScore: Option<real>,
    topologyConfidence: Option<real>, tier: Option<Tier>, confidenceLabel: Option<Label>,
    crossings: Option<int>, mode: Option<Mode>, confidence: Option<Confidence>, source: Option<Source>,
    lineageDepth: Option<nat>)

  datatype Metrics = Metrics(
    coverage: real, connectivity: real, stabilityScore: real, topologyConfidence: real,
    tier: Tier, confidenceLabel: Label, crossings: int, mode: Mode, minCoverage: real,
    unclassifiedRatio: Option<real>, warnings: seq<Text>)

  datatype NumericDeltas = NumericDeltas(
    coverage: real, connectivity: real, stabilityScore: real, confidence: real, crossings: int)

  datatype Trends = Trends(coverage: Trend, connectivity: Trend, stability: Trend, confidence: Trend, crossing: Trend)

  datatype Outcome = Outcome(
    regressed: bool, severity: Option<Severity>, deltas: seq<Delta>, numeric: NumericDeltas, trends: Trends)

  function TierRank(t: Tier): int {
    match t
    case Critical => 0
    case Warning => 1
    case Healthy => 2
    case Stable => 3
  }

  function LabelRank(l: Label): int {
    match l
    case VeryLow => 0
    case Low => 1
    case Moderate => 2
    case High => 3
  }

  /** null below minor below moderate below major below critical. */
  function SeverityRank(s: Option<Severity>): int {
    match s
    case None => 0
    case Some(Minor) => 1
    case Some(Moderate) => 2
    case Some(Major) => 3
    case Some(Critical) => 4
  }

  // -------------------------------------------------------------------- rounding

  /** `Number(n.toFixed(4))`: the nearest multiple of 0.0001, a tie going away from zero. */
  function Round4(x: real): real {
    if x < 0.0 then -RoundUp(-x) else RoundUp(x)
  }

  function RoundUp(x: real): real {
    (x * 10000.0 + 0.5).Floor as real / 10000.0
  }

  lemma FloorMonotone(x: real, y: real)
    requires x <= y
    ensures x.Floor <= y.Floor
  {
  }

  lemma RoundUpNear(x: real)
    ensures x - 0.00005 < RoundUp(x) <= x + 0.00005
    ensures RoundUp(x) * 10000.0 == (x * 10000.0 + 0.5).Floor as real
  {
  }

  lemma RoundUpMonotone(x: real, y: real)
    requires x <= y
    ensures RoundUp(x) <= RoundUp(y)
  {
    FloorMonotone(x * 10000.0 + 0.5, y * 10000.0 + 0.5);
  }

  /** Rounding is monotone and symmetric about zero, moves a number by half a unit at most,
      and lands on a multiple of 0.0001. */
  lemma RoundingLaws(x: real, y: real)
    ensures x <= y ==> Round4(x) <= Round4(y)
    ensures Round4(-x) == -Round4(x)
    ensures -0.00005 <= Round4(x) - x <= 0.00005
    ensures Round4(x) * 10000.0 == (Round4(x) * 10000.0).Floor as real
  {
    RoundUpNear(x);
    RoundUpNear(-x);
    if x <= y {
      if x >= 0.0 {
        RoundUpMonotone(x, y);
      } else if y < 0.0 {
        RoundUpMonotone(-y, -x);
      } else {
        RoundUpMonotone(0.0, y);
        RoundUpMonotone(0.0, -x);
      }
    }
    RoundedToUnits(x);
  }

  lemma RoundedToUnits(x: real)
    ensures Round4(x) * 10000.0 == (Round4(x) * 10000.0).Floor as real
  {
    var n := if x < 0.0 then -(-x * 10000.0 + 0.5).Floor else (x * 10000.0 + 0.5).Floor;
    assert Round4(x) * 10000.0 == n as real;
  }

  /** After rounding, a drop exceeds k units exactly when it was k and a half units at least. */
  lemma RoundedBelow(x: real, k: nat)
    ensures Round4(x) < -(k as real / 10000.0) <==> x <= -((k as real + 0.5) / 10000.0)
  {
    if x < 0.0 {
      var n := (-x * 10000.0 + 0.5).Floor;
      assert n > k <==> -x * 10000.0 + 0.5 >= (k + 1) as real;
    } else {
      RoundUpMonotone(0.0, x);
    }
  }

  // --------------------------------------------------------------------- deltas

  function SafeSubtract(current: real, previous: Option<real>): real {
    if previous.None? then 0.0 else current - previous.value
  }

  function ComputeNumericDeltas(baseline: Baseline, current: Metrics): NumericDeltas {
    NumericDeltas(
      Round4(SafeSubtract(current.coverage, baseline.coverage)),
      Round4(SafeSubtract(current.connectivity, baseline.connectivity)),
      Round4(SafeSubtract(current.stabilityScore, baseline.stabilityScore)),
      Round4(SafeSubtract(current.topologyConfidence, baseline.topologyConfidence)),
      if baseline.crossings.Some? then current.crossings - baseline.crossings.value else 0)
  }

  function NumericToTrend(delta: real): Trend {
    if delta > 0.001 then Up else if delta < -0.001 then Down else Trend.Stable
  }

  function CrossingTrend(baseline: Baseline, current: Metrics): Trend {
    if baseline.crossings.None? then Trend.Stable
    else
      var d := current.crossings - baseline.crossings.value;
      if d > 0 then Up else if d < 0 then Down else Trend.Stable
  }

  function DeriveTrends(baseline: Baseline, current: Metrics): Trends {
    var d := ComputeNumericDeltas(baseline, current);
    Trends(
      NumericToTrend(d.coverage), NumericToTrend(d.connectivity), NumericToTrend(d.stabilityScore),
      NumericToTrend(d.confidence), CrossingTrend(baseline, current))
  }

  function NumericDirection(diff: real): Direction {
    if diff < -0.001 then Degraded else if diff > 0.001 then Improved else Unchanged
  }

  function RankDirection(previous: int, current: int): Direction {
    if current < previous then Degraded else if current > previous then Improved else Unchanged
  }

  function NumericDelta(field: Field, previous: Option<real>, current: real): Option<Delta> {
    if previous.None? then None
    else Some(Delta(field, Amount(previous.value), Amount(current), NumericDirection(current - previous.value)))
  }

  /** How one field compares with the baseline, when the baseline has it. Of crossings, more are
      worse, so there the ranks change places. */
  function FieldDelta(baseline: Baseline, current: Metrics, field: Field): (d: Option<Delta>)
    ensures d.Some? ==> d.value.field == field
  {
    match field
    case Coverage => NumericDelta(field, baseline.coverage, current.coverage)
    case Connectivity => NumericDelta(field, baseline.connectivity, current.connectivity)
    case StabilityScore => NumericDelta(field, baseline.stabilityScore, current.stabilityScore)
    case TopologyConfidence => NumericDelta(field, baseline.topologyConfidence, current.topologyConfidence)
    case StabilityTier =>
      if baseline.tier.None? then None
      else
        var previous := baseline.tier.value;
        Some(Delta(field, OfTier(previous), OfTier(current.tier),
                   RankDirection(TierRank(previous), TierRank(current.tier))))
    case TopologyConfidenceLabel =>
      if baseline.confidenceLabel.None? then None
      else
        var previous := baseline.confidenceLabel.value;
        Some(Delta(field, OfLabel(previous), OfLabel(current.confidenceLabel),
                   RankDirection(LabelRank(previous), LabelRank(current.confidenceLabel))))
    case AuthorityCrossings =>
      if baseline.crossings.None? then None
      else
        var previous := baseline.crossings.value;
        Some(Delta(field, Count(previous), Count(current.crossings), RankDirection(current.crossings, previous)))
  }

  function FieldDirection(baseline: Baseline, current: Metrics, field: Field): Option<Direction> {
    var d := FieldDelta(baseline, current, field);
    if d.None? then None else Some(d.value.direction)
  }

  /** The report's order of the fields. */
  function FieldAt(n: nat): Field
    requires n < 7
  {
    if n == 0 then Coverage else if n == 1 then Connectivity else if n == 2 then StabilityScore
    else if n == 3 then TopologyConfidence else if n == 4 then StabilityTier
    else if n == 5 then TopologyConfidenceLabel else AuthorityCrossings
  }

  function Position(f: Field): (n: nat)
    ensures n < 7 && FieldAt(n) == f
  {
    match f
    case Coverage => 0
    case Connectivity => 1
    case StabilityScore => 2
    case TopologyConfidence => 3
    case StabilityTier => 4
    case TopologyConfidenceLabel => 5
    case AuthorityCrossings => 6
  }

  /** A measure the baseline has fell by more than 0.001. */
  predicate Fell(previous: Option<real>, current: real) {
    previous.Some? && previous.value - current > 0.001
  }

  /** A field got worse: a measure fell, a tier or label is a lower one, there are more
      crossings. */
  predicate IsDegraded(baseline: Baseline, current: Metrics, field: Field) {
    match field
    case Coverage => Fell(baseline.coverage, current.coverage)
    case Connectivity => Fell(baseline.connectivity, current.connectivity)
    case StabilityScore => Fell(baseline.stabilityScore, current.stabilityScore)
    case TopologyConfidence => Fell(baseline.topologyConfidence, current.topologyConfidence)
    case StabilityTier => baseline.tier.Some? && TierRank(current.tier) < TierRank(baseline.tier.value)
    case TopologyConfidenceLabel =>
      baseline.confidenceLabel.Some? && LabelRank(current.confidenceLabel) < LabelRank(baseline.confidenceLabel.value)
    case AuthorityCrossings => baseline.crossings.Some? && current.crossings > baseline.crossings.value
  }

  lemma DegradedDirection(baseline: Baseline, current: Metrics, field: Field)
    ensures FieldDirection(baseline, current, field) == Some(Degraded) <==> IsDegraded(baseline, current, field)
  {
  }

  function One(baseline: Baseline, current: Metrics, field: Field): seq<Delta> {
    var d := FieldDelta(baseline, current, field);
    if d.None? then [] else [d.value]
  }

  /** The comparisons of the first `n` fields, those missing in the baseline left out. */
  function DeltasOf(baseline: Baseline, current: Metrics, n: nat): seq<Delta>
    requires n <= 7
  {
    if n == 0 then [] else DeltasOf(baseline, current, n - 1) + One(baseline, current, FieldAt(n - 1))
  }

  lemma {:induction false} DeltasExact(baseline: Baseline, current: Metrics, n: nat, d: Delta)
    requires n <= 7
    ensures d in DeltasOf(baseline, current, n) <==>
            Position(d.field) < n && FieldDelta(baseline, current, d.field) == Some(d)
  {
    if n == 0 {
    } else {
      DeltasExact(baseline, current, n - 1, d);
      assert d in One(baseline, current, FieldAt(n - 1)) <==>
             d.field == FieldAt(n - 1) && FieldDelta(baseline, current, d.field) == Some(d);
    }
  }

  /** A list has an entry for the field with that direction. */
  ghost predicate Listed(deltas: seq<Delta>, field: Field, direction: Direction) {
    exists d :: d in deltas && d.field == field && d.direction == direction
  }

  lemma ListedExactly(baseline: Baseline, current: Metrics, field: Field, direction: Direction)
    ensures Listed(DeltasOf(baseline, current, 7), field, direction) <==>
            FieldDirection(baseline, current, field) == Some(direction)
  {
    var deltas := DeltasOf(baseline, current, 7);
    if Listed(deltas, field, direction) {
      var d :| d in deltas && d.field == field && d.direction == direction;
      DeltasExact(baseline, current, 7, d);
    }
    var found := FieldDelta(baseline, current, field);
    if found.Some? && found.value.direction == direction {
      DeltasExact(baseline, current, 7, found.value);
    }
  }

  // ------------------------------------------------------------------- severity

  predicate SomeDegraded(degraded: seq<Delta>, field: Field) {
    exists i :: 0 <= i < |degraded| && degraded[i].field == field
  }

  function ClassifyRegressionSeverity(
      baseline: Baseline, current: Metrics, deltas: NumericDeltas, degraded: seq<Delta>): Severity {
    if current.minCoverage > 0.0 && current.coverage < current.minCoverage then Severity.Critical
    else if baseline.mode == Some(Structured) && current.mode == FallbackDirectoryScan then Severity.Critical
    else if SomeDegraded(degraded, StabilityTier) then Major
    else if deltas.coverage < -0.15 then Major
    else if
      && SomeDegraded(degraded, TopologyConfidenceLabel)
      && BaseRank(baseline) >= 3 && LabelRank(current.confidenceLabel) <= 1
      then Major
    else if deltas.coverage < -0.05 then Severity.Moderate
    else if deltas.connectivity < -0.10 then Severity.Moderate
    else if
      && SomeDegraded(degraded, TopologyConfidenceLabel)
      && BaseRank(baseline) - LabelRank(current.confidenceLabel) == 1
      then Severity.Moderate
    else Minor
  }

  function BaseRank(baseline: Baseline): int {
    if baseline.confidenceLabel.None? then 0 else LabelRank(baseline.confidenceLabel.value)
  }

  function KeepDegraded(deltas: seq<Delta>): (r: seq<Delta>)
    ensures forall d :: d in r <==> d in deltas && d.direction == Degraded
  {
    if deltas == [] then []
    else
      assert deltas == [deltas[0]] + deltas[1..];
      (if deltas[0].direction == Degraded then [deltas[0]] else []) + KeepDegraded(deltas[1..])
  }

  /** The outcome when there is a baseline. */
  function Regressions(baseline: Baseline, current: Metrics): Outcome {
    var deltas := DeltasOf(baseline, current, 7);
    var degraded := KeepDegraded(deltas);
    var numeric := ComputeNumericDeltas(baseline, current);
    Outcome(
      degraded != [],
      if degraded != [] then Some(ClassifyRegressionSeverity(baseline, current, numeric, degraded)) else None,
      deltas, numeric, DeriveTrends(baseline, current))
  }

  /** The list the comparisons push onto. */
  class DeltaList {
    var items: seq<Delta>

    constructor ()
      ensures items == []
    {
      items := [];
    }

    method CompareNumeric(field: Field, previous: Option<real>, current: real)
      modifies this
      ensures previous.None? ==> items == old(items)
      ensures previous.Some? ==>
                var diff := current - previous.value;
                items == old(items) + [Delta(field, Amount(previous.value), Amount(current), NumericDirection(diff))]
    {
      if previous.None? {
        return;
      }
      var diff := current - previous.value;
      var direction := if diff < -0.001 then Degraded else if diff > 0.001 then Improved else Unchanged;
      items := items + [Delta(field, Amount(previous.value), Amount(current), direction)];
    }

    method CompareMeasures(baseline: Baseline, current: Metrics)
      requires items == []
      modifies this
      ensures items == DeltasOf(baseline, current, 4)
    {
      CompareNumeric(Coverage, baseline.coverage, current.coverage);
      assert items == DeltasOf(baseline, current, 1);
      CompareNumeric(Connectivity, baseline.connectivity, current.connectivity);
      assert items == DeltasOf(baseline, current, 2);
      CompareNumeric(StabilityScore, baseline.stabilityScore, current.stabilityScore);
      assert items == DeltasOf(baseline, current, 3);
      CompareNumeric(TopologyConfidence, baseline.topologyConfidence, current.topologyConfidence);
    }

    method CompareTier(baseline: Baseline, current: Metrics)
      requires items == DeltasOf(baseline, current, 4)
      modifies this
      ensures items == DeltasOf(baseline, current, 5)
    {
      if baseline.tier.Some? {
        var prevRank, currRank := TierRank(baseline.tier.value), TierRank(current.tier);
        var direction := if currRank < prevRank then Degraded else if currRank > prevRank then Improved else Unchanged;
        items := items + [Delta(StabilityTier, OfTier(baseline.tier.value), OfTier(current.tier), direction)];
      }
    }

    method CompareLabel(baseline: Baseline, current: Metrics)
      requires items == DeltasOf(baseline, current, 5)
      modifies this
      ensures items == DeltasOf(baseline, current, 6)
    {
      if baseline.confidenceLabel.Some? {
        var previous := baseline.confidenceLabel.value;
        var prevRank, currRank := LabelRank(previous), LabelRank(current.confidenceLabel);
        var direction := if currRank < prevRank then Degraded else if currRank > prevRank then Improved else Unchanged;
        items := items +
          [Delta(TopologyConfidenceLabel, OfLabel(previous), OfLabel(current.confidenceLabel), direction)];
      }
    }

    method CompareCrossings(baseline: Baseline, current: Metrics)
      requires items == DeltasOf(baseline, current, 6)
      modifies this
      ensures items == DeltasOf(baseline, current, 7)
    {
      if baseline.crossings.Some? {
        var diff := current.crossings - baseline.crossings.value;
        var direction := if diff > 0 then Degraded else if diff < 0 then Improved else Unchanged;
        items := items +
          [Delta(AuthorityCrossings, Count(baseline.crossings.value), Count(current.crossings), direction)];
      }
    }
  }

  method CompareFields(baseline: Baseline, current: Metrics) returns (items: seq<Delta>)
    ensures items == DeltasOf(baseline, current, 7)
  {
    var deltas := new DeltaList();
    deltas.CompareMeasures(baseline, current);
    deltas.CompareTier(baseline, current);
    deltas.CompareLabel(baseline, current);
    deltas.CompareCrossings(baseline, current);
    return deltas.items;
  }

  method CompareWithBaseline(baseline: Baseline, current: Metrics) returns (outcome: Outcome)
    ensures outcome == Regressions(baseline, current)
  {
    var deltas := CompareFields(baseline, current);
    var degraded := KeepDegraded(deltas);
    var numeric := ComputeNumericDeltas(baseline, current);
    var severity :=
      if degraded != [] then Some(ClassifyRegressionSeverity(baseline, current, numeric, degraded)) else None;
    outcome := Outcome(degraded != [], severity, deltas, numeric, DeriveTrends(baseline, current));
  }

  // ------------------------------------------------------------------- theorems

  /** A field is listed as degraded exactly when it got worse; there is a severity exactly when
      one did. */
  lemma DegradedExactly(baseline: Baseline, current: Metrics)
    ensures var o := Regressions(baseline, current);
            && (forall f: Field :: Listed(o.deltas, f, Degraded) <==> IsDegraded(baseline, current, f))
            && (o.regressed <==> exists f: Field :: IsDegraded(baseline, current, f))
            && (o.severity.Some? <==> o.regressed)
  {
    var deltas := DeltasOf(baseline, current, 7);
    var degraded := KeepDegraded(deltas);
    forall f: Field ensures Listed(deltas, f, Degraded) <==> IsDegraded(baseline, current, f) {
      ListedExactly(baseline, current, f, Degraded);
      DegradedDirection(baseline, current, f);
    }
    if degraded != [] {
      assert degraded[0] in degraded;
      assert Listed(deltas, degraded[0].field, Degraded);
      assert IsDegraded(baseline, current, degraded[0].field);
    }
    if f: Field :| IsDegraded(baseline, current, f) {
      assert Listed(deltas, f, Degraded);
      var d :| d in deltas && d.field == f && d.direction == Degraded;
      assert d in degraded;
    }
  }

  /** The rounded trend is down exactly from a drop of 0.00105, and up exactly from a rise of it. */
  lemma TrendExact(d: real)
    ensures NumericToTrend(Round4(d)) == Down <==> d <= -0.00105
    ensures NumericToTrend(Round4(d)) == Up <==> d >= 0.00105
  {
    RoundedBelow(d, 10);
    RoundedBelow(-d, 10);
  }

  lemma TrendDirection(current: real, previous: Option<real>)
    ensures NumericToTrend(Round4(SafeSubtract(current, previous))) == Down ==>
              previous.Some? && NumericDirection(current - previous.value) == Degraded
    ensures NumericToTrend(Round4(SafeSubtract(current, previous))) == Up ==>
              previous.Some? && NumericDirection(current - previous.value) == Improved
  {
    TrendExact(SafeSubtract(current, previous));
  }

  ghost predicate TrendListed(trend: Trend, field: Field, deltas: seq<Delta>) {
    && (trend == Down ==> Listed(deltas, field, Degraded))
    && (trend == Up ==> Listed(deltas, field, Improved))
  }

  lemma MeasureListed(baseline: Baseline, current: Metrics, field: Field, before: Option<real>, now: real)
    requires FieldDelta(baseline, current, field) == NumericDelta(field, before, now)
    ensures TrendListed(NumericToTrend(Round4(SafeSubtract(now, before))), field, DeltasOf(baseline, current, 7))
  {
    ListedExactly(baseline, current, field, Degraded);
    ListedExactly(baseline, current, field, Improved);
    TrendDirection(now, before);
  }

  lemma CrossingListed(baseline: Baseline, current: Metrics)
    ensures CrossingTrend(baseline, current) == Up <==>
            Listed(DeltasOf(baseline, current, 7), AuthorityCrossings, Degraded)
  {
    ListedExactly(baseline, current, AuthorityCrossings, Degraded);
  }

  /** A trend that is down belongs to a field listed as degraded, and one that is up to a field
      listed as improved; crossings trend up exactly when they are listed as degraded. */
  lemma TrendsAreListed(baseline: Baseline, current: Metrics)
    ensures var o := Regressions(baseline, current);
            && TrendListed(o.trends.coverage, Coverage, o.deltas)
            && TrendListed(o.trends.connectivity, Connectivity, o.deltas)
            && TrendListed(o.trends.stability, StabilityScore, o.deltas)
            && TrendListed(o.trends.confidence, TopologyConfidence, o.deltas)
            && (o.trends.crossing == Up <==> Listed(o.deltas, AuthorityCrossings, Degraded))
  {
    MeasureListed(baseline, current, Coverage, baseline.coverage, current.coverage);
    MeasureListed(baseline, current, Connectivity, baseline.connectivity, current.connectivity);
    MeasureListed(baseline, current, StabilityScore, baseline.stabilityScore, current.stabilityScore);
    MeasureListed(baseline, current, TopologyConfidence, baseline.topologyConfidence, current.topologyConfidence);
    CrossingListed(baseline, current);
  }

  // ------------------------------------------------------------ what decides severity

  ghost predicate AnyDegraded(baseline: Baseline, current: Metrics) {
    exists f: Field :: IsDegraded(baseline, current, f)
  }

  predicate IsCritical(baseline: Baseline, current: Metrics) {
    || (current.minCoverage > 0.0 && current.coverage < current.minCoverage)
    || (baseline.mode == Some(Structured) && current.mode == FallbackDirectoryScan)
  }

  predicate FellBy(previous: Option<real>, current: real, drop: real) {
    previous.Some? && previous.value - current >= drop
  }

  predicate IsMajor(baseline: Baseline, current: Metrics) {
    || (baseline.tier.Some? && TierRank(current.tier) < TierRank(baseline.tier.value))
    || FellBy(baseline.coverage, current.coverage, 0.15005)
    || (baseline.confidenceLabel == Some(Label.High) && LabelRank(current.confidenceLabel) <= 1)
  }

  predicate IsModerate(baseline: Baseline, current: Metrics) {
    || FellBy(baseline.coverage, current.coverage, 0.05005)
    || FellBy(baseline.connectivity, current.connectivity, 0.10005)
    || (baseline.confidenceLabel.Some? &&
        LabelRank(current.confidenceLabel) == LabelRank(baseline.confidenceLabel.value) - 1)
  }

  lemma SomeListed(deltas: seq<Delta>, field: Field)
    ensures SomeDegraded(KeepDegraded(deltas), field) <==> Listed(deltas, field, Degraded)
  {
    var degraded := KeepDegraded(deltas);
    if SomeDegraded(degraded, field) {
      var i :| 0 <= i < |degraded| && degraded[i].field == field;
      assert degraded[i] in degraded;
    }
    if Listed(deltas, field, Degraded) {
      var d :| d in deltas && d.field == field && d.direction == Degraded;
      assert d in degraded;
    }
  }

  lemma SomeDegradedExactly(baseline: Baseline, current: Metrics, field: Field)
    ensures SomeDegraded(KeepDegraded(DeltasOf(baseline, current, 7)), field) <==> IsDegraded(baseline, current, field)
  {
    SomeListed(DeltasOf(baseline, current, 7), field);
    ListedExactly(baseline, current, field, Degraded);
    DegradedDirection(baseline, current, field);
  }

  lemma DropThresholds(current: real, previous: Option<real>)
    ensures Round4(SafeSubtract(current, previous)) < -0.15 <==> FellBy(previous, current, 0.15005)
    ensures Round4(SafeSubtract(current, previous)) < -0.10 <==> FellBy(previous, current, 0.10005)
    ensures Round4(SafeSubtract(current, previous)) < -0.05 <==> FellBy(previous, current, 0.05005)
  {
    var d := SafeSubtract(current, previous);
    RoundedBelow(d, 1500);
    RoundedBelow(d, 1000);
    RoundedBelow(d, 500);
  }

  lemma ClassifiedExactly(baseline: Baseline, current: Metrics, deltas: NumericDeltas, degraded: seq<Delta>)
    requires SomeDegraded(degraded, StabilityTier) <==> IsDegraded(baseline, current, StabilityTier)
    requires SomeDegraded(degraded, TopologyConfidenceLabel) <==> IsDegraded(baseline, current, TopologyConfidenceLabel)
    requires deltas.coverage < -0.15 <==> FellBy(baseline.coverage, current.coverage, 0.15005)
    requires deltas.coverage < -0.05 <==> FellBy(baseline.coverage, current.coverage, 0.05005)
    requires deltas.connectivity < -0.10 <==> FellBy(baseline.connectivity, current.connectivity, 0.10005)
    ensures ClassifyRegressionSeverity(baseline, current, deltas, degraded) ==
            if IsCritical(baseline, current) then Severity.Critical
            else if IsMajor(baseline, current) then Major
            else if IsModerate(baseline, current) then Severity.Moderate
            else Minor
  {
  }

  /** What decides the severity, on the unrounded measures. */
  lemma SeverityExactly(baseline: Baseline, current: Metrics)
    ensures Regressions(baseline, current).severity ==
            if !AnyDegraded(baseline, current) then None
            else if IsCritical(baseline, current) then Some(Severity.Critical)
            else if IsMajor(baseline, current) then Some(Major)
            else if IsModerate(baseline, current) then Some(Severity.Moderate)
            else Some(Minor)
  {
    DegradedExactly(baseline, current);
    SomeDegradedExactly(baseline, current, StabilityTier);
    SomeDegradedExactly(baseline, current, TopologyConfidenceLabel);
    DropThresholds(current.coverage, baseline.coverage);
    DropThresholds(current.connectivity, baseline.connectivity);
    ClassifiedExactly(
      baseline, current, ComputeNumericDeltas(baseline, current), KeepDegraded(DeltasOf(baseline, current, 7)));
  }

  // ---------------------------------------------------------------- monotonicity

  /** No better in any measure, level, mode or threshold. */
  ghost predicate NoBetter(worse: Metrics, current: Metrics) {
    && worse.coverage <= current.coverage
    && worse.connectivity <= current.connectivity
    && worse.stabilityScore <= current.stabilityScore
    && worse.topologyConfidence <= current.topologyConfidence
    && TierRank(worse.tier) <= TierRank(current.tier)
    && LabelRank(worse.confidenceLabel) <= LabelRank(current.confidenceLabel)
    && worse.crossings >= current.crossings
    && (worse.mode == current.mode || worse.mode == FallbackDirectoryScan)
    && worse.minCoverage >= current.minCoverage
  }

  function SeverityOf(baseline: Baseline, current: Metrics): int {
    SeverityRank(Regressions(baseline, current).severity)
  }

  lemma DegradedStays(baseline: Baseline, current: Metrics, worse: Metrics, f: Field)
    requires NoBetter(worse, current) && IsDegraded(baseline, current, f)
    ensures IsDegraded(baseline, worse, f)
  {
  }

  lemma CriticalAndMajorStay(baseline: Baseline, current: Metrics, worse: Metrics)
    requires NoBetter(worse, current)
    ensures IsCritical(baseline, current) ==> IsCritical(baseline, worse)
    ensures IsMajor(baseline, current) ==> IsMajor(baseline, worse)
  {
  }

  /** What is moderate stays moderate or becomes major, unless it was the label that made it so. */
  lemma ModerateStays(baseline: Baseline, current: Metrics, worse: Metrics)
    requires NoBetter(worse, current) && IsModerate(baseline, current) && !IsMajor(baseline, worse)
    ensures IsModerate(baseline, worse) <==>
            || FellBy(baseline.coverage, worse.coverage, 0.05005)
            || FellBy(baseline.connectivity, worse.connectivity, 0.10005)
            || !(baseline.confidenceLabel == Some(Label.Moderate) && current.confidenceLabel == Low &&
                 worse.confidenceLabel == VeryLow)
  {
  }

  /** The one drop of the confidence label that makes a regression milder: from one step below
      the baseline's MODERATE to two, when nothing else reaches moderate. */
  ghost predicate LabelFallsThrough(baseline: Baseline, current: Metrics, worse: Metrics) {
    && baseline.confidenceLabel == Some(Label.Moderate)
    && current.confidenceLabel == Low && worse.confidenceLabel == VeryLow
    && !IsCritical(baseline, worse) && !IsMajor(baseline, worse)
    && !FellBy(baseline.coverage, worse.coverage, 0.05005)
    && !FellBy(baseline.connectivity, worse.connectivity, 0.10005)
  }

  lemma FallsThroughExactly(baseline: Baseline, current: Metrics, worse: Metrics)
    requires NoBetter(worse, current)
    ensures LabelFallsThrough(baseline, current, worse) <==>
            && AnyDegraded(baseline, current) && IsModerate(baseline, current)
            && !IsCritical(baseline, worse) && !IsMajor(baseline, worse) && !IsModerate(baseline, worse)
  {
    if LabelFallsThrough(baseline, current, worse) {
      assert IsDegraded(baseline, current, TopologyConfidenceLabel);
    }
    if IsModerate(baseline, current) && !IsMajor(baseline, worse) {
      ModerateStays(baseline, current, worse);
    }
  }

  /** The severity's rank, given what holds. */
  function Decide(any: bool, critical: bool, major: bool, moderate: bool): int {
    if !any then 0 else if critical then 4 else if major then 3 else if moderate then 2 else 1
  }

  lemma SeverityDecided(baseline: Baseline, current: Metrics)
    ensures SeverityOf(baseline, current) ==
            Decide(AnyDegraded(baseline, current), IsCritical(baseline, current), IsMajor(baseline, current),
                   IsModerate(baseline, current))
  {
    SeverityExactly(baseline, current);
  }

  /** With the baseline fixed, metrics that are no better in any respect never give a milder
      severity, except exactly when the confidence label falls through. */
  lemma WorseIsMilderExactly(baseline: Baseline, current: Metrics, worse: Metrics)
    requires NoBetter(worse, current)
    ensures SeverityOf(baseline, worse) < SeverityOf(baseline, current) <==>
            LabelFallsThrough(baseline, current, worse)
  {
    SeverityDecided(baseline, current);
    SeverityDecided(baseline, worse);
    if f :| IsDegraded(baseline, current, f) {
      DegradedStays(baseline, current, worse, f);
      assert AnyDegraded(baseline, worse);
    }
    CriticalAndMajorStay(baseline, current, worse);
    FallsThroughExactly(baseline, current, worse);
  }

  /** A baseline that stored nothing but its confidence label. */
  function LabelOnly(grade: Label): Baseline {
    Baseline(None, None, None, None, None, Some(grade), None, None, None, None, None)
  }

  function PlainMetrics(grade: Label): Metrics {
    Metrics(1.0, 1.0, 1.0, 1.0, Tier.Stable, grade, 0, Structured, 0.0, None, [])
  }

  lemma LabelOnlyConditions(was: Label, now: Label)
    requires LabelRank(now) < LabelRank(was) && was != Label.High
    ensures AnyDegraded(LabelOnly(was), PlainMetrics(now))
    ensures !IsCritical(LabelOnly(was), PlainMetrics(now)) && !IsMajor(LabelOnly(was), PlainMetrics(now))
    ensures IsModerate(LabelOnly(was), PlainMetrics(now)) <==> LabelRank(was) - LabelRank(now) == 1
  {
    assert IsDegraded(LabelOnly(was), PlainMetrics(now), TopologyConfidenceLabel);
  }

  /** It does happen: against a MODERATE baseline, LOW is a moderate and VERY_LOW a minor
      regression. */
  lemma LowerLabelMilder()
    ensures Regressions(LabelOnly(Label.Moderate), PlainMetrics(Low)).severity == Some(Severity.Moderate)
    ensures Regressions(LabelOnly(Label.Moderate), PlainMetrics(VeryLow)).severity == Some(Minor)
  {
    LabelOnlyConditions(Label.Moderate, Low);
    LabelOnlyConditions(Label.Moderate, VeryLow);
    SeverityExactly(LabelOnly(Label.Moderate), PlainMetrics(Low));
    SeverityExactly(LabelOnly(Label.Moderate), PlainMetrics(VeryLow));
  }

  /** Lowering coverage or connectivity alone never gives a milder severity. */
  lemma LowerIsNoMilder(baseline: Baseline, current: Metrics, coverage: real, connectivity: real)
    requires coverage <= current.coverage && connectivity <= current.connectivity
    ensures SeverityOf(baseline, current.(coverage := coverage, connectivity := connectivity)) >=
            SeverityOf(baseline, current)
  {
    WorseIsMilderExactly(baseline, current, current.(coverage := coverage, connectivity := connectivity));
  }
}
