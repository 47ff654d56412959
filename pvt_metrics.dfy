/**
 * Scoring of a psychomotor-vigilance run: completed-trial count, reaction
 * time statistics over the Reaction trials, the two lapse bands (500 ms and
 * more, 355 to 499 ms), the minimum-trials requirement and the time-on-task
 * slope (least-squares regression of reaction time on minutes since the
 * start of the run).
 *
 * The PVT engine is a placeholder in the repository, so the trial record
 * carries only what the calculator reads: the outcome and the optional
 * onset time since the start of the run.
 */
module PvtMetrics {
  import opened Wrappers
  import opened Stats

  datatype PvtOutcome = Pending | Reaction(rtMs: real) | Lapse | FalseStart

  datatype PvtTrial = PvtTrial(outcome: PvtOutcome, onsetSinceStartMs: Option<real>)
  {
    predicate IsCompleted() {
      !outcome.Pending?
    }
  }

  datatype PvtMetrics = PvtMetrics(
    totalTrials: nat,
    reactedTrials: nat,
    medianRtMs: real,
    meanRtMs: real,
    rtVariance: real,
    p10RtMs: real,
    p90RtMs: real,
    lapsesGe500Ms: nat,
    minorLapses355To499Ms: nat,
    falseStarts: nat,
    timeOnTaskSlopeMsPerMin: real,
    meetsMinTrialRequirement: bool)

  /** `f64::EPSILON`, below which the slope's denominator counts as zero. */
  const Epsilon: real := 1.0 / 4503599627370496.0

  /** A major lapse: a Lapse outcome, or a reaction of 500 ms or more. */
  predicate IsLapse(t: PvtTrial) {
    t.outcome.Lapse? || (t.outcome.Reaction? && t.outcome.rtMs >= 500.0)
  }

  /** A minor lapse: a reaction in [355, 500) ms. */
  predicate IsMinorLapse(t: PvtTrial) {
    t.outcome.Reaction? && 355.0 <= t.outcome.rtMs < 500.0
  }

  predicate IsDone(t: PvtTrial) {
    t.IsCompleted()
  }

  predicate IsReaction(t: PvtTrial) {
    t.outcome.Reaction?
  }

  /** `ms_to_minutes`. */
  function MsToMinutes(ms: real): (minutes: real)
    ensures minutes * 60000.0 == ms
  {
    ms / 1000.0 / 60.0
  }

  /** Minutes since the start at which a trial's stimulus appeared; 0 when unknown. */
  function OnsetMinutes(t: PvtTrial): real {
    match t.onsetSinceStartMs
    case Some(ms) => MsToMinutes(ms)
    case None => 0.0
  }

  /** Reaction times of the Reaction trials, in trial order. */
  function ReactionTimes(ts: seq<PvtTrial>): (rts: seq<real>)
    ensures |rts| == Count(ts, IsReaction)
  {
    if ts == [] then []
    else
      var last := ts[|ts| - 1];
      ReactionTimes(ts[..|ts| - 1]) + (if last.outcome.Reaction? then [last.outcome.rtMs] else [])
  }

  /** Onset minutes of the Reaction trials, in trial order (paired with `ReactionTimes`). */
  function ReactionOffsets(ts: seq<PvtTrial>): (xs: seq<real>)
    ensures |xs| == Count(ts, IsReaction)
  {
    if ts == [] then []
    else
      var last := ts[|ts| - 1];
      ReactionOffsets(ts[..|ts| - 1]) + (if last.outcome.Reaction? then [OnsetMinutes(last)] else [])
  }

  function SumProducts(xs: seq<real>, ys: seq<real>): real
    requires |xs| == |ys|
  {
    if xs == [] then 0.0
    else
      var n := |xs| - 1;
      SumProducts(xs[..n], ys[..n]) + xs[n] * ys[n]
  }

  function SumSquares(xs: seq<real>): real {
    SumProducts(xs, xs)
  }

  function Abs(x: real): real {
    if x < 0.0 then -x else x
  }

  /** The least-squares denominator n·Σx² − (Σx)² from the count and the two sums. */
  function Denominator(n: real, sx: real, sxx: real): real {
    n * sxx - sx * sx
  }

  function SlopeDenominator(xs: seq<real>): real {
    Denominator(|xs| as real, Sum(xs), SumSquares(xs))
  }

  /**
   * The least-squares slope from the point count and the four sums:
   * (n·Σxy − Σx·Σy) / (n·Σx² − (Σx)²), or 0 when the denominator is below
   * machine epsilon in magnitude.
   */
  function SlopeFromSums(n: real, sx: real, sy: real, sxy: real, sxx: real): real {
    var denominator := Denominator(n, sx, sxx);
    if Abs(denominator) < Epsilon then 0.0 else (n * sxy - sx * sy) / denominator
  }

  /**
   * `slope_minutes`: the ordinary least-squares slope of `ys` on `xs`;
   * 0 for fewer than two points, lists of different lengths, or a
   * denominator below machine epsilon.
   */
  function SlopeMinutes(xs: seq<real>, ys: seq<real>): (slope: real)
    ensures |xs| < 2 || |ys| < 2 || |xs| != |ys| ==> slope == 0.0
    ensures |xs| == |ys| && Abs(SlopeDenominator(xs)) < Epsilon ==> slope == 0.0
  {
    if |xs| < 2 || |ys| < 2 || |xs| != |ys| then 0.0
    else SlopeFromSums(|xs| as real, Sum(xs), Sum(ys), SumProducts(xs, ys), SumSquares(xs))
  }

  /** Every point (xs[i], ys[i]) lies on the line y = a + b·x (stated from the last point back). */
  predicate OnLine(xs: seq<real>, ys: seq<real>, a: real, b: real)
    requires |xs| == |ys|
  {
    xs == [] || (var n := |xs| - 1; OnLine(xs[..n], ys[..n], a, b) && ys[n] == a + b * xs[n])
  }

  lemma {:induction false} OnLineFromPoints(xs: seq<real>, ys: seq<real>, a: real, b: real)
    requires |xs| == |ys|
    requires forall i :: 0 <= i < |xs| ==> ys[i] == a + b * xs[i]
    ensures OnLine(xs, ys, a, b)
  {
    if xs != [] {
      var n := |xs| - 1;
      assert forall i :: 0 <= i < n ==> ys[..n][i] == ys[i] && xs[..n][i] == xs[i];
      OnLineFromPoints(xs[..n], ys[..n], a, b);
    }
  }

  lemma StepSum(sy: real, sx: real, k: real, a: real, b: real, x: real, y: real)
    requires sy == k * a + b * sx
    requires y == a + b * x
    ensures sy + y == (k + 1.0) * a + b * (sx + x)
  {
  }

  lemma StepProducts(p: real, s: real, q: real, a: real, b: real, x: real, y: real, p': real, s': real, q': real)
    requires p == a * s + b * q
    requires y == a + b * x
    requires p' == p + x * y && s' == s + x && q' == q + x * x
    ensures p' == a * s' + b * q'
  {
    assert x * y == a * x + b * (x * x);
  }

  /** Summing a + b·x over the points gives n·a + b·Σx. */
  lemma {:induction false} SumOfLine(xs: seq<real>, ys: seq<real>, a: real, b: real)
    requires |xs| == |ys| && OnLine(xs, ys, a, b)
    ensures Sum(ys) == (|xs| as real) * a + b * Sum(xs)
  {
    if xs != [] {
      var n := |xs| - 1;
      SumOfLine(xs[..n], ys[..n], a, b);
      StepSum(Sum(ys[..n]), Sum(xs[..n]), n as real, a, b, xs[n], ys[n]);
    }
  }

  lemma ZeroSums(a: real, b: real)
    ensures 0.0 == a * 0.0 + b * 0.0
  {
  }

  /** The sums over a non-empty list, split into the sums over all but the last point and that point. */
  lemma LastPoint(xs: seq<real>, ys: seq<real>)
    requires |xs| == |ys| && xs != []
    ensures var n := |xs| - 1;
      && SumProducts(xs, ys) == SumProducts(xs[..n], ys[..n]) + xs[n] * ys[n]
      && Sum(xs) == Sum(xs[..n]) + xs[n]
      && SumSquares(xs) == SumSquares(xs[..n]) + xs[n] * xs[n]
  {
  }

  /** Summing x·(a + b·x) over the points gives a·Σx + b·Σx². */
  lemma {:induction false} SumProductsOfLine(xs: seq<real>, ys: seq<real>, a: real, b: real)
    requires |xs| == |ys| && OnLine(xs, ys, a, b)
    ensures SumProducts(xs, ys) == a * Sum(xs) + b * SumSquares(xs)
  {
    if xs == [] {
      ZeroSums(a, b);
    } else {
      var n := |xs| - 1;
      SumProductsOfLine(xs[..n], ys[..n], a, b);
      LastPoint(xs, ys);
      StepProducts(SumProducts(xs[..n], ys[..n]), Sum(xs[..n]), SumSquares(xs[..n]), a, b, xs[n], ys[n],
                   SumProducts(xs, ys), Sum(xs), SumSquares(xs));
    }
  }

  /** The least-squares quotient of sums taken over points on y = a + b·x is b. */
  lemma SlopeFormula(n: real, sx: real, sy: real, sxy: real, sxx: real, a: real, b: real)
    requires sy == n * a + b * sx
    requires sxy == a * sx + b * sxx
    requires Abs(Denominator(n, sx, sxx)) >= Epsilon
    ensures SlopeFromSums(n, sx, sy, sxy, sxx) == b
  {
    assert n * sxy - sx * sy == b * Denominator(n, sx, sxx);
  }

  /**
   * Points that lie exactly on a line y = a + b·x (with a denominator
   * above epsilon) have slope b.
   */
  lemma SlopeOfLine(xs: seq<real>, ys: seq<real>, a: real, b: real)
    requires |xs| == |ys| >= 2
    requires forall i :: 0 <= i < |xs| ==> ys[i] == a + b * xs[i]
    requires Abs(SlopeDenominator(xs)) >= Epsilon
    ensures SlopeMinutes(xs, ys) == b
  {
    assert LineSums(xs, ys, a, b) by {
      OnLineFromPoints(xs, ys, a, b);
      SumOfLine(xs, ys, a, b);
      SumProductsOfLine(xs, ys, a, b);
    }
    SlopeOfLineSums(xs, ys, a, b);
  }

  /** Σy and Σxy are what points on y = a + b·x give. */
  predicate LineSums(xs: seq<real>, ys: seq<real>, a: real, b: real)
    requires |xs| == |ys|
  {
    && Sum(ys) == (|xs| as real) * a + b * Sum(xs)
    && SumProducts(xs, ys) == a * Sum(xs) + b * SumSquares(xs)
  }

  lemma SlopeOfLineSums(xs: seq<real>, ys: seq<real>, a: real, b: real)
    requires |xs| == |ys| >= 2 && LineSums(xs, ys, a, b)
    requires Abs(SlopeDenominator(xs)) >= Epsilon
    ensures SlopeMinutes(xs, ys) == b
  {
    SlopeFormula(|xs| as real, Sum(xs), Sum(ys), SumProducts(xs, ys), SumSquares(xs), a, b);
  }

  /**
   * The record `from_trials` returns. With no Reaction trial every field
   * other than the completed-trial count and the false starts is zero and
   * the requirement is not met; otherwise the statistics are taken over
   * the reaction times (percentiles over their ascending order).
   */
  function Summarize(ts: seq<PvtTrial>, falseStarts: nat, minRequired: nat): (m: PvtMetrics)
    ensures m.totalTrials == Count(ts, IsDone) && m.falseStarts == falseStarts
    ensures m.reactedTrials == |ReactionTimes(ts)|
    ensures m.meetsMinTrialRequirement <==> ReactionTimes(ts) != [] && |ReactionTimes(ts)| >= minRequired
    ensures ReactionTimes(ts) == [] ==> m.lapsesGe500Ms == 0 && m.minorLapses355To499Ms == 0
  {
    var rts := ReactionTimes(ts);
    if rts == [] then
      PvtMetrics(Count(ts, IsDone), 0, 0.0, 0.0, 0.0, 0.0, 0.0, 0, 0, falseStarts, 0.0, false)
    else
      var sorted := SortAscending(rts);
      var mean := Mean(rts);
      PvtMetrics(
        Count(ts, IsDone), |rts|,
        Percentile(sorted, 0.5), mean, Variance(rts, mean),
        Percentile(sorted, 0.10), Percentile(sorted, 0.90),
        Count(ts, IsLapse), Count(ts, IsMinorLapse), falseStarts,
        SlopeMinutes(ReactionOffsets(ts), rts),
        |rts| >= minRequired)
  }

  /** With no Reaction trial: nothing but the completed count and the false starts survives. */
  lemma SummarizeWithoutReactions(ts: seq<PvtTrial>, falseStarts: nat, minRequired: nat)
    requires Count(ts, IsReaction) == 0
    ensures var m := Summarize(ts, falseStarts, minRequired);
      && m.totalTrials == Count(ts, IsDone) && m.falseStarts == falseStarts
      && m.reactedTrials == 0 && !m.meetsMinTrialRequirement
      && m.lapsesGe500Ms == 0 && m.minorLapses355To499Ms == 0
      && m.meanRtMs == 0.0 && m.medianRtMs == 0.0 && m.rtVariance == 0.0
      && m.p10RtMs == 0.0 && m.p90RtMs == 0.0 && m.timeOnTaskSlopeMsPerMin == 0.0
  {
  }

  /** With at least one Reaction trial: the counters over the whole list. */
  lemma SummarizeWithReactions(ts: seq<PvtTrial>, falseStarts: nat, minRequired: nat)
    requires Count(ts, IsReaction) > 0
    ensures var m := Summarize(ts, falseStarts, minRequired);
      && m.totalTrials == Count(ts, IsDone) && m.falseStarts == falseStarts
      && m.reactedTrials == Count(ts, IsReaction)
      && (m.meetsMinTrialRequirement <==> Count(ts, IsReaction) >= minRequired)
      && m.lapsesGe500Ms == Count(ts, IsLapse) && m.minorLapses355To499Ms == Count(ts, IsMinorLapse)
  {
  }

  /** The median lies between the 10th and the 90th percentile. */
  lemma SummarizePercentilesOrdered(ts: seq<PvtTrial>, falseStarts: nat, minRequired: nat)
    ensures var m := Summarize(ts, falseStarts, minRequired);
      m.p10RtMs <= m.medianRtMs <= m.p90RtMs
  {
    var rts := ReactionTimes(ts);
    if rts != [] {
      SortAscendingSorted(rts);
      PercentileMonotone(SortAscending(rts), 0.10, 0.5);
      PercentileMonotone(SortAscending(rts), 0.5, 0.90);
    }
  }

  /**
   * The lapse bands never overlap and only completed trials fall in
   * them, so together they count at most the completed trials.
   */
  lemma {:induction false} LapseBandsWithinCompleted(ts: seq<PvtTrial>)
    ensures Count(ts, IsLapse) + Count(ts, IsMinorLapse) <= Count(ts, IsDone)
    ensures forall i :: 0 <= i < |ts| ==> !(IsLapse(ts[i]) && IsMinorLapse(ts[i]))
  {
    if ts != [] {
      LapseBandsWithinCompleted(ts[..|ts| - 1]);
    }
  }

  /** A false start or a pending trial adds to no count and to no reaction-time list. */
  lemma IgnoredTrialChangesNothing(ts: seq<PvtTrial>, t: PvtTrial)
    requires t.outcome.FalseStart? || t.outcome.Pending?
    ensures ReactionTimes(ts + [t]) == ReactionTimes(ts)
    ensures ReactionOffsets(ts + [t]) == ReactionOffsets(ts)
    ensures Count(ts + [t], IsLapse) == Count(ts, IsLapse)
    ensures Count(ts + [t], IsMinorLapse) == Count(ts, IsMinorLapse)
    ensures Count(ts + [t], IsReaction) == Count(ts, IsReaction)
  {
    assert (ts + [t])[..|ts|] == ts;
  }

  /** One more trial extends each list and counter by what that trial adds. */
  lemma CountStep(ts: seq<PvtTrial>, p: PvtTrial -> bool, i: nat)
    requires i < |ts|
    ensures Count(ts[..i + 1], p) == Count(ts[..i], p) + (if p(ts[i]) then 1 else 0)
  {
    assert ts[..i + 1][..i] == ts[..i];
  }

  lemma ReactionsStep(ts: seq<PvtTrial>, i: nat)
    requires i < |ts|
    ensures var t := ts[i];
      && ReactionTimes(ts[..i + 1]) == ReactionTimes(ts[..i]) + (if t.outcome.Reaction? then [t.outcome.rtMs] else [])
      && ReactionOffsets(ts[..i + 1]) == ReactionOffsets(ts[..i]) + (if t.outcome.Reaction? then [OnsetMinutes(t)] else [])
  {
    assert ts[..i + 1][..i] == ts[..i];
  }

  /** The first loop of `from_trials`: the completed trials. */
  method CountCompleted(ts: seq<PvtTrial>) returns (totalTrials: nat)
    ensures totalTrials == Count(ts, IsDone)
  {
    totalTrials := 0;
    for i := 0 to |ts|
      invariant totalTrials == Count(ts[..i], IsDone)
    {
      CountStep(ts, IsDone, i);
      if ts[i].IsCompleted() {
        totalTrials := totalTrials + 1;
      }
    }
    assert ts[..|ts|] == ts;
  }

  /** The second loop of `from_trials`: reaction times, their onset minutes and the two lapse counters. */
  method CollectReactions(ts: seq<PvtTrial>)
    returns (reactionTimes: seq<real>, reactionOffsets: seq<real>, lapses: nat, minorLapses: nat)
    ensures reactionTimes == ReactionTimes(ts) && reactionOffsets == ReactionOffsets(ts)
    ensures lapses == Count(ts, IsLapse) && minorLapses == Count(ts, IsMinorLapse)
  {
    reactionTimes, reactionOffsets := [], [];
    lapses, minorLapses := 0, 0;
    for i := 0 to |ts|
      invariant reactionTimes == ReactionTimes(ts[..i])
      invariant reactionOffsets == ReactionOffsets(ts[..i])
      invariant lapses == Count(ts[..i], IsLapse)
      invariant minorLapses == Count(ts[..i], IsMinorLapse)
    {
      ReactionsStep(ts, i);
      CountStep(ts, IsLapse, i);
      CountStep(ts, IsMinorLapse, i);
      var t := ts[i];
      match t.outcome {
        case Reaction(rt) =>
          reactionTimes := reactionTimes + [rt];
          reactionOffsets := reactionOffsets + [OnsetMinutes(t)];
          if rt >= 500.0 {
            lapses := lapses + 1;
          } else if 355.0 <= rt < 500.0 {
            minorLapses := minorLapses + 1;
          }
        case Lapse =>
          lapses := lapses + 1;
        case FalseStart =>
        case Pending =>
      }
    }
    assert ts[..|ts|] == ts;
  }

  /**
   * `PvtMetrics::from_trials`: one pass counting the completed trials, one
   * collecting the reaction times, their onset minutes and the two lapse
   * counters, then the statistics.
   */
  method FromTrials(ts: seq<PvtTrial>, falseStarts: nat, minRequired: nat) returns (m: PvtMetrics)
    ensures m == Summarize(ts, falseStarts, minRequired)
  {
    var totalTrials := CountCompleted(ts);
    var reactionTimes, reactionOffsets, lapses, minorLapses := CollectReactions(ts);
    if reactionTimes == [] {
      return PvtMetrics(totalTrials, 0, 0.0, 0.0, 0.0, 0.0, 0.0, 0, 0, falseStarts, 0.0, false);
    }
    var sorted := SortAscending(reactionTimes);
    var mean := Mean(reactionTimes);
    m := PvtMetrics(
      totalTrials, |reactionTimes|,
      Percentile(sorted, 0.5), mean, Variance(reactionTimes, mean),
      Percentile(sorted, 0.10), Percentile(sorted, 0.90),
      lapses, minorLapses, falseStarts,
      SlopeMinutes(reactionOffsets, reactionTimes),
      |reactionTimes| >= minRequired);
  }
}
