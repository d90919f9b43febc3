/** The regression report field by field, in the terms of the two runs alone. */
module RegressionReport {
  import opened Regression
  import opened RegressionConfidence
  import opened Results
  import opened Texts

  // ------------------------------------------------------------------------ levels

  predicate LowerTier(t: Tier, u: Tier) {
    match t
    case Critical => u != Tier.Critical
    case Warning => u == Healthy || u == Tier.Stable
    case Healthy => u == Tier.Stable
    case Stable => false
  }

  predicate LowerLabel(l: Label, m: Label) {
    match l
    case VeryLow => m != VeryLow
    case Low => m == Label.Moderate || m == High
    case Moderate => m == High
    case High => false
  }

  /** One step apart. */
  predicate NextLabel(l: Label, m: Label) {
    (l == VeryLow && m == Low) || (l == Low && m == Label.Moderate) || (l == Label.Moderate && m == High)
  }

  lemma LevelsExactly(t: Tier, u: Tier, l: Label, m: Label)
    ensures TierRank(t) < TierRank(u) <==> LowerTier(t, u)
    ensures LabelRank(l) < LabelRank(m) <==> LowerLabel(l, m)
    ensures LabelRank(m) - LabelRank(l) == 1 <==> NextLabel(l, m)
  {
  }

  // ------------------------------------------------------------------------ deltas

  /** The direction of a change of which it is known whether it is for the worse or the better. */
  ghost predicate Points(direction: Direction, worse: bool, better: bool) {
    (direction == Degraded <==> worse) && (direction == Improved <==> better)
  }

  ghost predicate MeasureDelta(previous: Option<real>, current: real, d: Delta) {
    && previous.Some? && d.previous == Amount(previous.value) && d.current == Amount(current)
    && Points(d.direction, previous.value - current > 0.001, current - previous.value > 0.001)
  }

  ghost predicate TierDelta(previous: Option<Tier>, current: Tier, d: Delta) {
    && previous.Some? && d.previous == OfTier(previous.value) && d.current == OfTier(current)
    && Points(d.direction, LowerTier(current, previous.value), LowerTier(previous.value, current))
  }

  ghost predicate LabelDelta(previous: Option<Label>, current: Label, d: Delta) {
    && previous.Some? && d.previous == OfLabel(previous.value) && d.current == OfLabel(current)
    && Points(d.direction, LowerLabel(current, previous.value), LowerLabel(previous.value, current))
  }

  ghost predicate CountDelta(previous: Option<int>, current: int, d: Delta) {
    && previous.Some? && d.previous == Count(previous.value) && d.current == Count(current)
    && Points(d.direction, current > previous.value, current < previous.value)
  }

  /** What the report says of a field: its value in both runs and which way it went. */
  ghost predicate Compares(b: Baseline, m: Metrics, d: Delta) {
    match d.field
    case Coverage => MeasureDelta(b.coverage, m.coverage, d)
    case Connectivity => MeasureDelta(b.connectivity, m.connectivity, d)
    case StabilityScore => MeasureDelta(b.stabilityScore, m.stabilityScore, d)
    case TopologyConfidence => MeasureDelta(b.topologyConfidence, m.topologyConfidence, d)
    case StabilityTier => TierDelta(b.tier, m.tier, d)
    case TopologyConfidenceLabel => LabelDelta(b.confidenceLabel, m.confidenceLabel, d)
    case AuthorityCrossings => CountDelta(b.crossings, m.crossings, d)
  }

  lemma ComparesExactly(b: Baseline, m: Metrics, d: Delta)
    ensures FieldDelta(b, m, d.field) == Some(d) <==> Compares(b, m, d)
  {
    match d.field
    case StabilityTier =>
      if b.tier.Some? {
        LevelsExactly(b.tier.value, m.tier, m.confidenceLabel, m.confidenceLabel);
        LevelsExactly(m.tier, b.tier.value, m.confidenceLabel, m.confidenceLabel);
      }
    case TopologyConfidenceLabel =>
      if b.confidenceLabel.Some? {
        LevelsExactly(m.tier, m.tier, b.confidenceLabel.value, m.confidenceLabel);
        LevelsExactly(m.tier, m.tier, m.confidenceLabel, b.confidenceLabel.value);
      }
    case _ => MeasuresCompare(b, m, d);
  }

  lemma MeasuresCompare(b: Baseline, m: Metrics, d: Delta)
    requires !d.field.StabilityTier? && !d.field.TopologyConfidenceLabel?
    ensures FieldDelta(b, m, d.field) == Some(d) <==> Compares(b, m, d)
  {
  }

  /** The report's deltas are exactly those that compare a field of the two runs. */
  lemma DeltasExactly(b: Baseline, m: Metrics, d: Delta)
    ensures d in Regressions(b, m).deltas <==> Compares(b, m, d)
  {
    DeltasExact(b, m, 7, d);
    ComparesExactly(b, m, d);
  }

  function FieldsOf(deltas: seq<Delta>): (fields: seq<Field>)
    ensures |fields| == |deltas| && forall i :: 0 <= i < |deltas| ==> fields[i] == deltas[i].field
  {
    seq(|deltas|, i requires 0 <= i < |deltas| => deltas[i].field)
  }

  function When(present: bool, field: Field): seq<Field> {
    if present then [field] else []
  }

  /** The baseline has the field. */
  ghost predicate Present(b: Baseline, field: Field) {
    match field
    case Coverage => b.coverage.Some?
    case Connectivity => b.connectivity.Some?
    case StabilityScore => b.stabilityScore.Some?
    case TopologyConfidence => b.topologyConfidence.Some?
    case StabilityTier => b.tier.Some?
    case TopologyConfidenceLabel => b.confidenceLabel.Some?
    case AuthorityCrossings => b.crossings.Some?
  }

  ghost function FirstFields(b: Baseline, m: Metrics): (lists: seq<seq<Field>>)
    ensures |lists| == 8
    ensures forall n :: 0 <= n < 8 ==> lists[n] == FieldsOf(DeltasOf(b, m, n))
  {
    seq(8, n requires 0 <= n < 8 => FieldsOf(DeltasOf(b, m, n)))
  }

  lemma OneMoreField(b: Baseline, m: Metrics, n: nat)
    requires n < 7
    ensures FieldsOf(DeltasOf(b, m, n + 1)) ==
            FieldsOf(DeltasOf(b, m, n)) + When(Present(b, FieldAt(n)), FieldAt(n))
  {
  }

  /** They come in the report's fixed order, fields the baseline lacks left out. */
  lemma FieldsInOrder(b: Baseline, m: Metrics)
    ensures FieldsOf(Regressions(b, m).deltas) ==
            When(Present(b, Coverage), Coverage) + When(Present(b, Connectivity), Connectivity) +
            When(Present(b, StabilityScore), StabilityScore) +
            When(Present(b, TopologyConfidence), TopologyConfidence) +
            When(Present(b, StabilityTier), StabilityTier) +
            When(Present(b, TopologyConfidenceLabel), TopologyConfidenceLabel) +
            When(Present(b, AuthorityCrossings), AuthorityCrossings)
  {
    var lists := FirstFields(b, m);
    forall n | 0 <= n < 7 ensures lists[n + 1] == lists[n] + When(Present(b, FieldAt(n)), FieldAt(n)) {
      OneMoreField(b, m, n);
    }
    SevenSteps(b, lists);
  }

  lemma SevenSteps(b: Baseline, lists: seq<seq<Field>>)
    requires |lists| == 8 && lists[0] == []
    requires forall n :: 0 <= n < 7 ==> lists[n + 1] == lists[n] + When(Present(b, FieldAt(n)), FieldAt(n))
    ensures lists[7] ==
            When(Present(b, Coverage), Coverage) + When(Present(b, Connectivity), Connectivity) +
            When(Present(b, StabilityScore), StabilityScore) +
            When(Present(b, TopologyConfidence), TopologyConfidence) +
            When(Present(b, StabilityTier), StabilityTier) +
            When(Present(b, TopologyConfidenceLabel), TopologyConfidenceLabel) +
            When(Present(b, AuthorityCrossings), AuthorityCrossings)
  {
    var first := When(Present(b, Coverage), Coverage);
    assert lists[0 + 1] == [] + first == first;
    assert lists[1 + 1] == lists[1] + When(Present(b, Connectivity), Connectivity);
    assert lists[2 + 1] == lists[2] + When(Present(b, StabilityScore), StabilityScore);
    assert lists[3 + 1] == lists[3] + When(Present(b, TopologyConfidence), TopologyConfidence);
    assert lists[4 + 1] == lists[4] + When(Present(b, StabilityTier), StabilityTier);
    assert lists[5 + 1] == lists[5] + When(Present(b, TopologyConfidenceLabel), TopologyConfidenceLabel);
    assert lists[6 + 1] == lists[6] + When(Present(b, AuthorityCrossings), AuthorityCrossings);
  }

  // ---------------------------------------------------------------- numbers and trends

  function Units(n: int): real {
    n as real / 10000.0
  }

  /** `r` is the multiple of 0.0001 nearest to `x`, and of two the one further from zero. */
  ghost predicate Rounds(x: real, r: real) {
    && (exists n: int :: r == Units(n))
    && -0.00005 <= r - x <= 0.00005
    && (r - x == 0.00005 ==> x > 0.0) && (x - r == 0.00005 ==> x < 0.0)
  }

  lemma RoundExactly(x: real, r: real)
    ensures Round4(x) == r <==> Rounds(x, r)
  {
    var n := if x < 0.0 then -(-x * 10000.0 + 0.5).Floor else (x * 10000.0 + 0.5).Floor;
    assert Round4(x) == Units(n);
    if Rounds(x, r) {
      var k: int :| r == Units(k);
      RoundsOnce(x, n, k);
    }
  }

  lemma RoundsOnce(x: real, n: int, k: int)
    requires n == if x < 0.0 then -(-x * 10000.0 + 0.5).Floor else (x * 10000.0 + 0.5).Floor
    requires Rounds(x, Units(k))
    ensures n == k
  {
    var y := x * 10000.0;
    assert -0.5 <= k as real - y <= 0.5;
    if x < 0.0 {
      assert (-k) as real <= -y + 0.5 < (-k + 1) as real;
    } else {
      assert k as real <= y + 0.5 < (k + 1) as real;
    }
  }

  /** The rounded change of a measure, none when there was no number before. */
  ghost predicate RoundedChange(previous: Option<real>, current: real, r: real) {
    Rounds(if previous.Some? then current - previous.value else 0.0, r)
  }

  lemma NumbersExactly(b: Baseline, m: Metrics)
    ensures var numbers := Regressions(b, m).numeric;
            && RoundedChange(b.coverage, m.coverage, numbers.coverage)
            && RoundedChange(b.connectivity, m.connectivity, numbers.connectivity)
            && RoundedChange(b.stabilityScore, m.stabilityScore, numbers.stabilityScore)
            && RoundedChange(b.topologyConfidence, m.topologyConfidence, numbers.confidence)
            && numbers.crossings == if b.crossings.Some? then m.crossings - b.crossings.value else 0
  {
    var numbers := Regressions(b, m).numeric;
    RoundExactly(SafeSubtract(m.coverage, b.coverage), numbers.coverage);
    RoundExactly(SafeSubtract(m.connectivity, b.connectivity), numbers.connectivity);
    RoundExactly(SafeSubtract(m.stabilityScore, b.stabilityScore), numbers.stabilityScore);
    RoundExactly(SafeSubtract(m.topologyConfidence, b.topologyConfidence), numbers.confidence);
  }

  /** A trend is down from a drop of 0.00105 and up from a rise of it, when there was a number
      before. */
  ghost predicate TrendOf(previous: Option<real>, current: real, trend: Trend) {
    && (trend == Down <==> previous.Some? && previous.value - current >= 0.00105)
    && (trend == Up <==> previous.Some? && current - previous.value >= 0.00105)
  }

  lemma TrendsExactly(b: Baseline, m: Metrics)
    ensures var trends := Regressions(b, m).trends;
            && TrendOf(b.coverage, m.coverage, trends.coverage)
            && TrendOf(b.connectivity, m.connectivity, trends.connectivity)
            && TrendOf(b.stabilityScore, m.stabilityScore, trends.stability)
            && TrendOf(b.topologyConfidence, m.topologyConfidence, trends.confidence)
            && (trends.crossing == Up <==> b.crossings.Some? && m.crossings > b.crossings.value)
            && (trends.crossing == Down <==> b.crossings.Some? && m.crossings < b.crossings.value)
  {
    TrendExact(SafeSubtract(m.coverage, b.coverage));
    TrendExact(SafeSubtract(m.connectivity, b.connectivity));
    TrendExact(SafeSubtract(m.stabilityScore, b.stabilityScore));
    TrendExact(SafeSubtract(m.topologyConfidence, b.topologyConfidence));
  }

  // -------------------------------------------------------------------- confidence

  ghost predicate MoreThan(ratio: Option<real>, limit: real) {
    exists r :: ratio == Some(r) && r > limit
  }

  /** Confidence is low exactly when the run fell back, or had fallen back and is not structured,
      or the label fell by two steps at least, or more than 0.60 is unclassified. */
  lemma LowExactly(b: Baseline, m: Metrics)
    ensures ClassifyRegressionConfidence(b, m) == LowConfidence <==>
            || m.mode == FallbackDirectoryScan
            || (b.mode == Some(FallbackDirectoryScan) && m.mode != Structured)
            || (exists was :: b.confidenceLabel == Some(was) &&
                  LowerLabel(m.confidenceLabel, was) && !NextLabel(m.confidenceLabel, was))
            || MoreThan(m.unclassifiedRatio, 0.60)
  {
    assert RatioAbove(m, 0.60) <==> MoreThan(m.unclassifiedRatio, 0.60);
    if b.confidenceLabel.Some? {
      LevelsExactly(m.tier, m.tier, m.confidenceLabel, b.confidenceLabel.value);
    }
  }

  ghost predicate OneStepApart(was: Option<Label>, now: Label) {
    was.Some? && (NextLabel(was.value, now) || NextLabel(now, was.value))
  }

  /** It is high exactly when it is not low, the label did not move by one step, both or neither
      run is structured, and at most 0.40 is unclassified. */
  lemma HighOtherwise(b: Baseline, m: Metrics)
    ensures ClassifyRegressionConfidence(b, m) == HighConfidence <==>
            && ClassifyRegressionConfidence(b, m) != LowConfidence
            && !OneStepApart(b.confidenceLabel, m.confidenceLabel)
            && (b.mode == Some(Structured) <==> m.mode == Structured)
            && !MoreThan(m.unclassifiedRatio, 0.40)
  {
    assert RatioAbove(m, 0.40) <==> MoreThan(m.unclassifiedRatio, 0.40);
    if b.confidenceLabel.Some? {
      LevelsExactly(m.tier, m.tier, m.confidenceLabel, b.confidenceLabel.value);
      LevelsExactly(m.tier, m.tier, b.confidenceLabel.value, m.confidenceLabel);
    }
  }

  // ------------------------------------------------------------------------ causes

  /** Some warning, in lower case, has the word somewhere in it. */
  ghost predicate Warns(lower: Text -> Text, m: Metrics, word: Text) {
    exists i, before, after :: 0 <= i < |m.warnings| && lower(m.warnings[i]) == before + word + after
  }

  lemma WarnsExactly(lower: Text -> Text, m: Metrics, words: seq<Text>)
    ensures SomeWarning(lower, m.warnings, words) <==> exists j :: 0 <= j < |words| && Warns(lower, m, words[j])
  {
    forall i, word | 0 <= i < |m.warnings|
      ensures Contains(lower(m.warnings[i]), word) <==>
              exists before, after :: lower(m.warnings[i]) == before + word + after
    {
      ContainsExactly(lower(m.warnings[i]), word);
    }
    if j :| 0 <= j < |words| && Warns(lower, m, words[j]) {
      var i, before, after :| 0 <= i < |m.warnings| && lower(m.warnings[i]) == before + words[j] + after;
      assert Contains(lower(m.warnings[i]), words[j]);
    }
    if SomeWarning(lower, m.warnings, words) {
      var i, j :| 0 <= i < |m.warnings| && 0 <= j < |words| && Contains(lower(m.warnings[i]), words[j]);
      assert Warns(lower, m, words[j]);
    }
  }

  /** When each of the four causes applies. */
  ghost predicate Causes(lower: Text -> Text, b: Baseline, m: Metrics, source: Source) {
    match source
    case FallbackModeTriggered =>
      m.mode == FallbackDirectoryScan || (b.mode == Some(Structured) && m.mode == MixedWorkspaceDetection)
    case ConfidenceLabelDrift => b.confidenceLabel != None && b.confidenceLabel != Some(m.confidenceLabel)
    case ClassificationDegradation =>
      || MoreThan(m.unclassifiedRatio, 0.30)
      || Warns(lower, m, Ascii("domain integrity")) || Warns(lower, m, Ascii("classification"))
    case WorkspaceAmbiguity => Warns(lower, m, Ascii("ambigu")) || Warns(lower, m, Ascii("multiple workspace"))
    case _ => false
  }

  lemma CausesExactly(lower: Text -> Text, b: Baseline, m: Metrics)
    ensures FallbackTriggered(b, m) <==> Causes(lower, b, m, FallbackModeTriggered)
    ensures LabelDrifted(b, m) <==> Causes(lower, b, m, ConfidenceLabelDrift)
    ensures ClassificationDegraded(lower, m) <==> Causes(lower, b, m, ClassificationDegradation)
    ensures SomeWarning(lower, m.warnings, AMBIGUITY_WORDS) <==> Causes(lower, b, m, WorkspaceAmbiguity)
  {
    assert RatioAbove(m, 0.30) <==> MoreThan(m.unclassifiedRatio, 0.30);
    WarnsExactly(lower, m, DOMAIN_WORDS);
    WarnsExactly(lower, m, AMBIGUITY_WORDS);
    assert DOMAIN_WORDS[0] == Ascii("domain integrity") && DOMAIN_WORDS[1] == Ascii("classification");
    assert AMBIGUITY_WORDS[0] == Ascii("ambigu") && AMBIGUITY_WORDS[1] == Ascii("multiple workspace");
  }

  function Tally(p: bool, q: bool, r: bool, s: bool): nat {
    (if p then 1 else 0) + (if q then 1 else 0) + (if r then 1 else 0) + (if s then 1 else 0)
  }

  lemma Tallied(lower: Text -> Text, b: Baseline, m: Metrics)
    ensures CauseCount(lower, b, m) ==
            Tally(Causes(lower, b, m, FallbackModeTriggered), Causes(lower, b, m, ConfidenceLabelDrift),
                  Causes(lower, b, m, ClassificationDegradation), Causes(lower, b, m, WorkspaceAmbiguity))
  {
    CausesExactly(lower, b, m);
  }

  /** No cause is counted exactly when none applies, and one exactly when a single one does. */
  lemma CountExactly(lower: Text -> Text, b: Baseline, m: Metrics)
    ensures CauseCount(lower, b, m) == 0 <==> forall s :: !Causes(lower, b, m, s)
    ensures CauseCount(lower, b, m) == 1 <==>
            exists s :: Causes(lower, b, m, s) && forall t :: Causes(lower, b, m, t) ==> t == s
  {
    Tallied(lower, b, m);
    var applies := (s: Source) => Causes(lower, b, m, s);
    assert forall s :: Causes(lower, b, m, s) <==> applies(s);
    OnlyFour(applies);
  }

  function AmongFour(applies: Source -> bool): nat {
    Tally(applies(FallbackModeTriggered), applies(ConfidenceLabelDrift),
          applies(ClassificationDegradation), applies(WorkspaceAmbiguity))
  }

  function FirstOfFour(applies: Source -> bool): Source {
    if applies(FallbackModeTriggered) then FallbackModeTriggered
    else if applies(ConfidenceLabelDrift) then ConfidenceLabelDrift
    else if applies(ClassificationDegradation) then ClassificationDegradation
    else WorkspaceAmbiguity
  }

  lemma OneOfFour(applies: Source -> bool, t: Source)
    requires !applies(StructuredParity) && !applies(MultiFactor) && applies(t)
    ensures AmongFour(applies) > 0 && applies(FirstOfFour(applies))
    ensures AmongFour(applies) == 1 ==> t == FirstOfFour(applies)
    ensures AmongFour(applies) > 1 ==> exists other :: applies(other) && other != t
  {
    match t
    case FallbackModeTriggered =>
    case ConfidenceLabelDrift =>
    case ClassificationDegradation =>
    case WorkspaceAmbiguity =>
  }

  lemma OnlyFour(applies: Source -> bool)
    requires !applies(StructuredParity) && !applies(MultiFactor)
    ensures AmongFour(applies) == 0 <==> forall s :: !applies(s)
    ensures AmongFour(applies) == 1 <==> exists s :: applies(s) && forall t :: applies(t) ==> t == s
  {
    forall t | applies(t)
      ensures AmongFour(applies) > 0 && applies(FirstOfFour(applies))
      ensures AmongFour(applies) == 1 ==> t == FirstOfFour(applies)
      ensures AmongFour(applies) > 1 ==> exists other :: applies(other) && other != t
    {
      OneOfFour(applies, t);
    }
    assert AmongFour(applies) > 0 ==> applies(FirstOfFour(applies));
  }

  /** The trend of the confidence, when both runs have one. */
  lemma ConfidenceTrendExactly(before: Option<Confidence>, now: Option<Confidence>)
    ensures ConfidenceTrend(before, now) == Up <==>
            || (before == Some(LowConfidence) && (now == Some(MediumConfidence) || now == Some(HighConfidence)))
            || (before == Some(MediumConfidence) && now == Some(HighConfidence))
    ensures ConfidenceTrend(before, now) == Down <==> ConfidenceTrend(now, before) == Up
  {
  }
}
