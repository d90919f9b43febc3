/** How far a regression signal is trusted, why, and the whole report. */
module RegressionConfidence {
  import opened Regression
  import opened Results
  import opened Texts

  // ------------------------------------------------------------------- confidence

  function BaseMode(baseline: Baseline): Mode {
    if baseline.mode.None? then OtherMode else baseline.mode.value
  }

  /** By how many steps the confidence label fell; negative when it rose. */
  function LabelDrop(baseline: Baseline, current: Metrics): int {
    if baseline.confidenceLabel.None? then 0
    else LabelRank(baseline.confidenceLabel.value) - LabelRank(current.confidenceLabel)
  }

  predicate RatioAbove(current: Metrics, limit: real) {
    current.unclassifiedRatio.Some? && current.unclassifiedRatio.value > limit
  }

  function ClassifyRegressionConfidence(baseline: Baseline, current: Metrics): Confidence {
    var base, drop := BaseMode(baseline), LabelDrop(baseline, current);
    if current.mode.FallbackDirectoryScan? then LowConfidence
    else if base.FallbackDirectoryScan? && !current.mode.Structured? then LowConfidence
    else if drop > 1 then LowConfidence
    else if RatioAbove(current, 0.60) then LowConfidence
    else if drop == 1 || drop == -1 then MediumConfidence
    else if base.Structured? && !current.mode.Structured? then MediumConfidence
    else if !base.Structured? && current.mode.Structured? then MediumConfidence
    else if RatioAbove(current, 0.40) then MediumConfidence
    else HighConfidence
  }

  function ConfidenceRank(c: Confidence): int {
    match c
    case LowConfidence => 0
    case MediumConfidence => 1
    case HighConfidence => 2
  }

  // ----------------------------------------------------------------------- source

  const DOMAIN_WORDS: seq<Text> := [Ascii("domain integrity"), Ascii("classification")]
  const AMBIGUITY_WORDS: seq<Text> := [Ascii("ambigu"), Ascii("multiple workspace")]

  /** Some warning, in lower case, contains one of the words. */
  predicate SomeWarning(lower: Text -> Text, warnings: seq<Text>, words: seq<Text>) {
    exists i, j :: 0 <= i < |warnings| && 0 <= j < |words| && Contains(lower(warnings[i]), words[j])
  }

  predicate FallbackTriggered(baseline: Baseline, current: Metrics) {
    current.mode.FallbackDirectoryScan? || (BaseMode(baseline).Structured? && current.mode.MixedWorkspaceDetection?)
  }

  predicate LabelDrifted(baseline: Baseline, current: Metrics) {
    baseline.confidenceLabel.Some? && baseline.confidenceLabel.value != current.confidenceLabel
  }

  predicate ClassificationDegraded(lower: Text -> Text, current: Metrics) {
    RatioAbove(current, 0.30) || SomeWarning(lower, current.warnings, DOMAIN_WORDS)
  }

  /** Which of the four causes apply, counted. */
  function CauseCount(lower: Text -> Text, baseline: Baseline, current: Metrics): nat {
    (if FallbackTriggered(baseline, current) then 1 else 0) +
    (if LabelDrifted(baseline, current) then 1 else 0) +
    (if ClassificationDegraded(lower, current) then 1 else 0) +
    (if SomeWarning(lower, current.warnings, AMBIGUITY_WORDS) then 1 else 0)
  }

  /** `lower` is the language's `toLowerCase`. */
  method ClassifyRegressionConfidenceSource(lower: Text -> Text, baseline: Baseline, current: Metrics)
    returns (source: Source)
    ensures source == StructuredParity <==> CauseCount(lower, baseline, current) == 0
    ensures source == MultiFactor <==> CauseCount(lower, baseline, current) > 1
    ensures source == FallbackModeTriggered ==> FallbackTriggered(baseline, current)
    ensures source == ConfidenceLabelDrift ==> LabelDrifted(baseline, current)
    ensures source == ClassificationDegradation ==> ClassificationDegraded(lower, current)
    ensures source == WorkspaceAmbiguity ==> SomeWarning(lower, current.warnings, AMBIGUITY_WORDS)
  {
    var causes: seq<Source> := [];
    if
      && BaseMode(baseline).Structured?
      && (current.mode.FallbackDirectoryScan? || current.mode.MixedWorkspaceDetection?)
    {
      causes := causes + [FallbackModeTriggered];
    } else if current.mode.FallbackDirectoryScan? {
      causes := causes + [FallbackModeTriggered];
    }
    if baseline.confidenceLabel.Some? && baseline.confidenceLabel.value != current.confidenceLabel {
      causes := causes + [ConfidenceLabelDrift];
    }
    if RatioAbove(current, 0.30) || SomeWarning(lower, current.warnings, DOMAIN_WORDS) {
      causes := causes + [ClassificationDegradation];
    }
    if SomeWarning(lower, current.warnings, AMBIGUITY_WORDS) {
      causes := causes + [WorkspaceAmbiguity];
    }
    if |causes| == 0 {
      return StructuredParity;
    }
    if |causes| == 1 {
      return causes[0];
    }
    return MultiFactor;
  }

  // ---------------------------------------------------------------------- the report

  function ConfidenceTrend(before: Option<Confidence>, now: Option<Confidence>): Trend {
    if before.None? || now.None? then Trend.Stable
    else if ConfidenceRank(now.value) > ConfidenceRank(before.value) then Up
    else if ConfidenceRank(now.value) < ConfidenceRank(before.value) then Down
    else Trend.Stable
  }

  datatype Report = Report(
    outcome: Outcome, confidence: Option<Confidence>, source: Option<Source>, confidenceTrend: Trend,
    sourceTrend: Option<Source>, lineageDepth: nat)

  /** The whole detection: nothing to report without a baseline. Confidence and source accompany
      the severity, and the lineage grows by one. */
  method DetectRegressions(lower: Text -> Text, stored: Option<Baseline>, current: Metrics)
    returns (report: Option<Report>)
    ensures report.None? <==> stored.None?
    ensures report.Some? ==>
              var baseline, r := stored.value, report.value;
              && r.outcome == Regressions(baseline, current)
              && (r.confidence.Some? <==> r.outcome.severity.Some?) && (r.source.Some? <==> r.outcome.severity.Some?)
              && (r.confidence.Some? ==> r.confidence.value == ClassifyRegressionConfidence(baseline, current))
              && (r.source == Some(StructuredParity) <==>
                    r.outcome.regressed && CauseCount(lower, baseline, current) == 0)
              && (r.source == Some(MultiFactor) <==> r.outcome.regressed && CauseCount(lower, baseline, current) > 1)
              && r.confidenceTrend == ConfidenceTrend(baseline.confidence, r.confidence)
              && r.sourceTrend == (if baseline.source.Some? then r.source else None)
              && r.lineageDepth == 1 + if baseline.lineageDepth.Some? then baseline.lineageDepth.value else 0
  {
    if stored.None? {
      return None;
    }
    var baseline := stored.value;
    var outcome := CompareWithBaseline(baseline, current);
    var confidence: Option<Confidence>, source: Option<Source> := None, None;
    if outcome.regressed {
      var why := ClassifyRegressionConfidenceSource(lower, baseline, current);
      confidence, source := Some(ClassifyRegressionConfidence(baseline, current)), Some(why);
    }
    var depth := if baseline.lineageDepth.Some? then baseline.lineageDepth.value else 0;
    report := Some(Report(outcome, confidence, source, ConfidenceTrend(baseline.confidence, confidence),
                          if baseline.source.Some? then source else None, depth + 1));
  }

  // ----------------------------------------------------------------------- theorems

  /** More unclassified entities, everything else equal, never give more confidence. */
  lemma RatioNeverHelps(baseline: Baseline, current: Metrics, ratio: real)
    requires current.unclassifiedRatio.Some? ==> current.unclassifiedRatio.value <= ratio
    ensures ConfidenceRank(ClassifyRegressionConfidence(baseline, current.(unclassifiedRatio := Some(ratio)))) <=
            ConfidenceRank(ClassifyRegressionConfidence(baseline, current))
  {
    var more := current.(unclassifiedRatio := Some(ratio));
    assert RatioAbove(current, 0.60) ==> RatioAbove(more, 0.60);
    assert RatioAbove(current, 0.40) ==> RatioAbove(more, 0.40);
  }

  /** The documentation reserves high confidence for runs that are both structured with the same
      label. It is given exactly when neither run is a fallback, both or neither are structured,
      the label is unchanged or rose by two steps at least, and at most 0.40 is unclassified. */
  lemma HighExactly(baseline: Baseline, current: Metrics)
    ensures ClassifyRegressionConfidence(baseline, current) == HighConfidence <==>
            && !current.mode.FallbackDirectoryScan? && !BaseMode(baseline).FallbackDirectoryScan?
            && (current.mode.Structured? <==> BaseMode(baseline).Structured?)
            && (LabelDrop(baseline, current) == 0 || LabelDrop(baseline, current) <= -2)
            && !RatioAbove(current, 0.40)
  {
  }

  /** The reported source says that nothing changed although the confidence is not high exactly
      when the modes differ in a way no cause is recorded for. */
  lemma ParityDespiteDoubt(lower: Text -> Text, baseline: Baseline, current: Metrics)
    ensures CauseCount(lower, baseline, current) == 0 &&
            ClassifyRegressionConfidence(baseline, current) != HighConfidence <==>
            && CauseCount(lower, baseline, current) == 0
            && (|| (BaseMode(baseline).Structured? && current.mode.OtherMode?)
                || (!BaseMode(baseline).Structured? && current.mode.Structured?)
                || BaseMode(baseline).FallbackDirectoryScan?)
  {
    if CauseCount(lower, baseline, current) == 0 {
      assert !LabelDrifted(baseline, current) && !ClassificationDegraded(lower, current);
      assert LabelDrop(baseline, current) == 0;
      assert !RatioAbove(current, 0.40) && !RatioAbove(current, 0.60);
    }
  }

  // ------------------------------------------------------------------------ inputs

  /** A structured run whose stability score was 1. */
  function WasStable(grade: Label): Baseline {
    LabelOnly(grade).(stabilityScore := Some(1.0), mode := Some(Structured))
  }

  /** A structured run whose stability score is one half: after the one above, a regression. */
  function LessStable(grade: Label): Metrics {
    PlainMetrics(grade).(stabilityScore := 0.5)
  }

  /** A regression between two runs neither of which is structured is given high confidence. */
  lemma HighWithoutStructure(grade: Label)
    ensures var (b, m) := (WasStable(grade).(mode := Some(OtherMode)), LessStable(grade).(mode := OtherMode));
            AnyDegraded(b, m) && ClassifyRegressionConfidence(b, m) == HighConfidence
  {
    var b, m := WasStable(grade).(mode := Some(OtherMode)), LessStable(grade).(mode := OtherMode);
    assert IsDegraded(b, m, StabilityScore);
  }

  /** So is one between structured runs whose label rose by two steps or more, from LOW to HIGH
      for one. */
  lemma HighAfterRise(was: Label, now: Label)
    requires LabelRank(now) >= LabelRank(was) + 2
    ensures var (b, m) := (WasStable(was), LessStable(now));
            AnyDegraded(b, m) && ClassifyRegressionConfidence(b, m) == HighConfidence
  {
    assert IsDegraded(WasStable(was), LessStable(now), StabilityScore);
  }

  lemma NoCause(lower: Text -> Text, baseline: Baseline, current: Metrics)
    requires current.mode.OtherMode? && baseline.confidenceLabel == Some(current.confidenceLabel)
    requires current.unclassifiedRatio.None? && current.warnings == []
    ensures CauseCount(lower, baseline, current) == 0
  {
  }

  /** And structured parity is the reported source of a regression of medium confidence, when the
      second run is not structured. */
  lemma ParityOfMedium(lower: Text -> Text, grade: Label)
    ensures var (b, m) := (WasStable(grade), LessStable(grade).(mode := OtherMode));
            && AnyDegraded(b, m) && CauseCount(lower, b, m) == 0
            && ClassifyRegressionConfidence(b, m) == MediumConfidence
  {
    var b, m := WasStable(grade), LessStable(grade).(mode := OtherMode);
    assert IsDegraded(b, m, StabilityScore);
    NoCause(lower, b, m);
  }
}
